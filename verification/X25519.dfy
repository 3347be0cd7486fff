/** The Montgomery ladder (montgomery.rs), against section 5 of RFC 7748. */
module X25519 {
  import opened Arith
  import opened Bytes
  import opened FieldLimbs
  import FE = FieldLimbs
  import opened FieldPow
  import opened FieldEncoding
  import opened FieldResidues
  import opened Scalar

  // ---------------------------------------------------------------------------
  // The ladder over integers modulo p
  // ---------------------------------------------------------------------------

  /** A u-coordinate X / Z. */
  datatype Pair = Pair(x: int, z: int)

  /** x-only doubling, with a24 = 121665. */
  function Dbl(p: Pair): Pair {
    var aa := FMul(FAdd(p.x, p.z), FAdd(p.x, p.z));
    var bb := FMul(FSub(p.x, p.z), FSub(p.x, p.z));
    var e := FSub(aa, bb);
    Pair(FMul(aa, bb), FMul(e, FAdd(aa, FMul(121665, e))))
  }

  /** x-only addition of two points whose difference has u-coordinate u. */
  function DiffAdd(u: int, p: Pair, q: Pair): Pair {
    var da := FMul(FSub(q.x, q.z), FAdd(p.x, p.z));
    var cb := FMul(FAdd(q.x, q.z), FSub(p.x, p.z));
    Pair(FMul(FAdd(da, cb), FAdd(da, cb)), FMul(u, FMul(FSub(da, cb), FSub(da, cb))))
  }

  /** The ladder bit by bit from the top: the pair for k and the pair for k + 1. */
  function Ladder(u: int, k: nat): (Pair, Pair)
    decreases k, u
  {
    if k == 0 then (Pair(1, 0), Pair(u, 1))
    else
      var (p, q) := Ladder(u, k / 2);
      if k % 2 == 0 then (Dbl(p), DiffAdd(u, p, q)) else (DiffAdd(u, p, q), Dbl(q))
  }

  /** X25519(k, u) as a byte string: the clamped scalar, bit 255 of u ignored, and X * Z^(p - 2) at the end. */
  function Spec(scalar: seq<u8>, point: seq<u8>): seq<u8>
    requires |scalar| == 32 && |point| == 32
  {
    var r := Ladder(Mod(LeVal(point) % TWO255), LeVal(Clamp(scalar))).0;
    LeBytes(FMul(r.x, Pow(r.z, P - 2)), 32)
  }

  /** `rep(p, n)`: p is the u-coordinate of n times the input point. */
  ghost predicate LadderAlgebra(u: int, rep: (Pair, int) -> bool) {
    && rep(Pair(1, 0), 0) && rep(Pair(u, 1), 1)
    && (forall p, n: nat {:trigger Dbl(p), rep(p, n)} :: rep(p, n) ==> rep(Dbl(p), 2 * n))
    && (forall p, q, n: nat {:trigger DiffAdd(u, p, q), rep(p, n)} :: rep(p, n) && rep(q, n + 1) ==>
          rep(DiffAdd(u, p, q), 2 * n + 1))
  }

  /** Wherever doubling and differential addition mean what they say, the ladder computes the k-fold multiple. */
  lemma {:induction false} LadderMultiplies(u: int, rep: (Pair, int) -> bool, k: nat)
    requires LadderAlgebra(u, rep)
    ensures rep(Ladder(u, k).0, k) && rep(Ladder(u, k).1, k + 1)
    decreases k
  {
    hide Dbl, DiffAdd;
    if k > 0 {
      LadderMultiplies(u, rep, k / 2);
      var (p, q) := Ladder(u, k / 2);
      assert k % 2 == 0 ==> 2 * (k / 2) == k;
      assert k % 2 == 1 ==> 2 * (k / 2) + 1 == k && 2 * (k / 2 + 1) == k + 1;
    }
  }

  /**
   The whole function: the u-coordinate, as an affine byte string, of the point times the
   scalar with bits 0 to 2 and 255 clear and bit 254 set, the point's own bit 255 ignored.
   */
  lemma FunctionMeaning(scalar: seq<u8>, point: seq<u8>, rep: (Pair, int) -> bool)
    requires |scalar| == 32 && |point| == 32
    requires var u := Mod(LeVal(point) % TWO255);
      && rep(Pair(1, 0), 0) && rep(Pair(u, 1), 1)
      && (forall p, n: nat {:trigger Dbl(p), rep(p, n)} :: rep(p, n) ==> rep(Dbl(p), 2 * n))
      && (forall p, q, n: nat {:trigger DiffAdd(u, p, q), rep(p, n)} :: rep(p, n) && rep(q, n + 1) ==>
            rep(DiffAdd(u, p, q), 2 * n + 1))
    ensures var k := TWO254 + LeVal(scalar) % TWO254 - LeVal(scalar) % 8;
      exists p :: rep(p, k) && Spec(scalar, point) == LeBytes(FMul(p.x, Pow(p.z, P - 2)), 32)
  {
    hide LeVal, LeBytes, FMul, Pow, Mod, Clamp, Ladder, Dbl, DiffAdd;
    ClampMeaning(scalar);
    LadderMultiplies(Mod(LeVal(point) % TWO255), rep, LeVal(Clamp(scalar)));
  }

  // ---------------------------------------------------------------------------
  // The formulas as curve arithmetic
  // ---------------------------------------------------------------------------

  /**
   Doubling on v^2 = u^3 + A u^2 + u with A = 4 * 121665 + 2 = 486662: the point of
   u-coordinate X / Z doubles to (X^2 - Z^2)^2 / (4 X Z (X^2 + A X Z + Z^2)).
   */
  lemma DoublingFormula(p: Pair)
    ensures Dbl(p).x == Mod((p.x * p.x - p.z * p.z) * (p.x * p.x - p.z * p.z))
    ensures Dbl(p).z == Mod((4 * (p.x * p.z)) * (p.x * p.x + 486662 * (p.x * p.z) + p.z * p.z))
  {
    hide Mod, FMul, FAdd, FSub;
    var x, z := p.x, p.z;
    var s, d := (x + z) * (x + z), (x - z) * (x - z);
    SumSquare(x, z);
    DifferenceSquare(x, z);
    var aa, bb := FMul(FAdd(x, z), FAdd(x, z)), FMul(FSub(x, z), FSub(x, z));
    FSubOf(aa, bb, s, d);
    FMulOf(aa, bb, s, d);
    var e := FSub(aa, bb);
    Small121665();
    FMulOf(121665, e, 121665, s - d);
    FAddOf(aa, FMul(121665, e), s, 121665 * (s - d));
    FMulOf(e, FAdd(aa, FMul(121665, e)), s - d, s + 121665 * (s - d));
    DoublingAlgebra(x, z);
  }

  lemma SumSquare(x: int, z: int)
    ensures FMul(FAdd(x, z), FAdd(x, z)) == Mod((x + z) * (x + z))
  {
    hide Mod;
    FMulOf(FAdd(x, z), FAdd(x, z), x + z, x + z);
  }

  lemma DifferenceSquare(x: int, z: int)
    ensures FMul(FSub(x, z), FSub(x, z)) == Mod((x - z) * (x - z))
  {
    hide Mod;
    FMulOf(FSub(x, z), FSub(x, z), x - z, x - z);
  }

  lemma Small121665()
    ensures 121665 == Mod(121665)
  {
    ModSmall(121665);
  }

  lemma DoublingAlgebra(x: int, z: int)
    ensures ((x + z) * (x + z)) * ((x - z) * (x - z)) == (x * x - z * z) * (x * x - z * z)
    ensures (x + z) * (x + z) - (x - z) * (x - z) == 4 * (x * z)
    ensures (x + z) * (x + z) + 121665 * ((x + z) * (x + z) - (x - z) * (x - z)) == x * x + 486662 * (x * z) + z * z
  {
    var xx, xz, zz := x * x, x * z, z * z;
    assert (x + z) * (x + z) == xx + 2 * xz + zz && (x - z) * (x - z) == xx - 2 * xz + zz;
    assert ((x + z) * (x + z)) * ((x - z) * (x - z)) == ((x + z) * (x - z)) * ((x + z) * (x - z));
    assert (x + z) * (x - z) == xx - zz;
  }

  /** Differential addition: 4 (X2 X3 - Z2 Z3)^2 over 4 u (X2 Z3 - Z2 X3)^2, where u is the difference's. */
  lemma DifferentialFormula(u: int, p: Pair, q: Pair)
    ensures var c, d := 2 * (p.x * q.x - p.z * q.z), 2 * (p.z * q.x - p.x * q.z);
      DiffAdd(u, p, q).x == Mod(c * c) && DiffAdd(u, p, q).z == Mod(u * (d * d))
  {
    hide Mod, FMul, FAdd, FSub;
    var da, cb := FMul(FSub(q.x, q.z), FAdd(p.x, p.z)), FMul(FAdd(q.x, q.z), FSub(p.x, p.z));
    var m, n := (q.x - q.z) * (p.x + p.z), (q.x + q.z) * (p.x - p.z);
    CrossProduct(q.x, q.z, p.x, p.z);
    FAddOf(da, cb, m, n);
    FSubOf(da, cb, m, n);
    FMulOf(FAdd(da, cb), FAdd(da, cb), m + n, m + n);
    FMulOf(FSub(da, cb), FSub(da, cb), m - n, m - n);
    ScaledBy(u, FMul(FSub(da, cb), FSub(da, cb)), (m - n) * (m - n));
    assert m + n == 2 * (p.x * q.x - p.z * q.z) && m - n == 2 * (p.z * q.x - p.x * q.z);
  }

  lemma CrossProduct(x: int, z: int, x': int, z': int)
    ensures FMul(FSub(x, z), FAdd(x', z')) == Mod((x - z) * (x' + z'))
    ensures FMul(FAdd(x, z), FSub(x', z')) == Mod((x + z) * (x' - z'))
  {
    hide Mod;
    FMulOf(FSub(x, z), FAdd(x', z'), x - z, x' + z');
    FMulOf(FAdd(x, z), FSub(x', z'), x + z, x' - z');
  }

  lemma ScaledBy(u: int, a: int, x: int)
    requires a == Mod(x)
    ensures FMul(u, a) == Mod(u * x)
  {
    hide Mod;
    ModMul(u, x);
  }

  /** The ladder starts from 0 and 1 times the point, and appends one bit of the scalar at a time. */
  lemma LadderMeaning(u: int, k: nat)
    ensures Ladder(u, 0) == (Pair(1, 0), Pair(u, 1))
    ensures var (p, q) := Ladder(u, k);
      && (k > 0 ==> Ladder(u, 2 * k) == (Dbl(p), DiffAdd(u, p, q)))
      && Ladder(u, 2 * k + 1) == (DiffAdd(u, p, q), Dbl(q))
  {
    hide Dbl, DiffAdd;
  }

  // ---------------------------------------------------------------------------
  // The forms the code uses instead
  // ---------------------------------------------------------------------------

  /** BB + 121666 E is AA + 121665 E. */
  lemma SameDenominator(aa: int, bb: int)
    ensures var e := FSub(aa, bb); FAdd(bb, FMul(121666, e)) == FAdd(aa, FMul(121665, e))
  {
    var e := FSub(aa, bb);
    var j := (aa - bb) / P;
    var m, n := (121666 * e) / P, (121665 * e) / P;
    ModQuotient(aa - bb);
    ModQuotient(121666 * e);
    ModQuotient(121665 * e);
    ModShift(bb + FMul(121666, e), aa + FMul(121665, e), n - m - j);
  }

  /** Differential addition does not care which point comes first. */
  lemma DiffAddSymmetric(u: int, p: Pair, q: Pair)
    ensures DiffAdd(u, p, q) == DiffAdd(u, q, p)
  {
    hide Mod;
    var da, cb := FMul(FSub(q.x, q.z), FAdd(p.x, p.z)), FMul(FAdd(q.x, q.z), FSub(p.x, p.z));
    SwapProducts(da, cb);
    assert FSub(q.x, q.z) * FAdd(p.x, p.z) == FAdd(p.x, p.z) * FSub(q.x, q.z);
    assert FAdd(q.x, q.z) * FSub(p.x, p.z) == FSub(p.x, p.z) * FAdd(q.x, q.z);
  }

  lemma SwapProducts(a: int, b: int)
    ensures FAdd(a, b) == FAdd(b, a)
    ensures FMul(FSub(a, b), FSub(a, b)) == FMul(FSub(b, a), FSub(b, a))
  {
    hide Mod;
    assert (a - b) * (a - b) == (b - a) * (b - a);
    FMulOf(FSub(a, b), FSub(a, b), a - b, a - b);
    FMulOf(FSub(b, a), FSub(b, a), b - a, b - a);
  }

  // ---------------------------------------------------------------------------
  // Limbs
  // ---------------------------------------------------------------------------

  /** x and z stand for the pair p. */
  ghost predicate Holds(x: Fe, z: Fe, p: Pair) {
    Ok(x) && Ok(z) && Res(x) == p.x && Res(z) == p.z
  }

  /** The two working points: held in order, or exchanged when `swap` is set. */
  ghost predicate State(x2: Fe, z2: Fe, x3: Fe, z3: Fe, swap: bool, s: (Pair, Pair)) {
    if swap then Holds(x2, z2, s.1) && Holds(x3, z3, s.0) else Holds(x2, z2, s.0) && Holds(x3, z3, s.1)
  }

  /** Exchange when the choice is set. */
  function Swap(a: Fe, b: Fe, choice: bool): (Fe, Fe) {
    if choice then (b, a) else (a, b)
  }

  /** A deferred swap by `swap ^ bit` leaves the points exchanged exactly when the bit is set. */
  lemma SwapState(x2: Fe, z2: Fe, x3: Fe, z3: Fe, swap: bool, bit: bool, s: (Pair, Pair))
    requires State(x2, z2, x3, z3, swap, s)
    ensures State(Swap(x2, x3, swap != bit).0, Swap(z2, z3, swap != bit).0,
                  Swap(x2, x3, swap != bit).1, Swap(z2, z3, swap != bit).1, bit, s)
  {
    hide Holds;
  }

  lemma StateOk(x2: Fe, z2: Fe, x3: Fe, z3: Fe, swap: bool, s: (Pair, Pair))
    requires State(x2, z2, x3, z3, swap, s)
    ensures Ok(x2) && Ok(z2) && Ok(x3) && Ok(z3)
  {
    hide Ok, Res;
  }

  /** One ladder step on limbs: double the first point, add the two. */
  function Step(x1: Fe, x2: Fe, z2: Fe, x3: Fe, z3: Fe): (r: (Fe, Fe, Fe, Fe))
    requires Ok(x1) && Ok(x2) && Ok(z2) && Ok(x3) && Ok(z3)
    ensures Ok(r.0) && Ok(r.1) && Ok(r.2) && Ok(r.3)
  {
    hide *;
    var a, b, c, d := FE.Add(x2, z2), FE.Sub(x2, z2), FE.Add(x3, z3), FE.Sub(x3, z3);
    var da, cb := Mul(d, a), Mul(c, b);
    var aa, bb := Square(a), Square(b);
    var x3' := Square(FE.Add(da, cb));
    var z3' := Mul(x1, Square(FE.Sub(da, cb)));
    var x2' := Mul(aa, bb);
    var e := FE.Sub(aa, bb);
    var z2' := Mul(e, FE.Add(bb, Mul121666(e)));
    (x2', z2', x3', z3')
  }

  /** `f` is in range and stands for the residue r. */
  ghost predicate Is(f: Fe, r: int) {
    Ok(f) && Res(f) == r
  }

  lemma DoubledRes(aa: Fe, bb: Fe, e: Fe, f: Fe, m: Fe, x2: Fe, z2: Fe, p: Pair)
    requires Is(aa, FMul(FAdd(p.x, p.z), FAdd(p.x, p.z))) && Is(bb, FMul(FSub(p.x, p.z), FSub(p.x, p.z)))
    requires Is(e, FSub(Res(aa), Res(bb))) && Is(m, FMul(121666, Res(e))) && Is(f, FAdd(Res(bb), Res(m)))
    requires Is(x2, FMul(Res(aa), Res(bb))) && Is(z2, FMul(Res(e), Res(f)))
    ensures Holds(x2, z2, Dbl(p))
  {
    hide Ok, Res, FMul, FAdd, FSub;
    SameDenominator(Res(aa), Res(bb));
  }

  lemma AddedRes(x1: Fe, da: Fe, cb: Fe, s: Fe, d: Fe, dd: Fe, x3: Fe, z3: Fe, p: Pair, q: Pair)
    requires Is(da, FMul(FSub(q.x, q.z), FAdd(p.x, p.z))) && Is(cb, FMul(FAdd(q.x, q.z), FSub(p.x, p.z)))
    requires Is(s, FAdd(Res(da), Res(cb))) && Is(d, FSub(Res(da), Res(cb))) && Is(dd, FMul(Res(d), Res(d)))
    requires Is(x3, FMul(Res(s), Res(s))) && Is(z3, FMul(Res(x1), Res(dd)))
    ensures Holds(x3, z3, DiffAdd(Res(x1), p, q))
  {
    hide Ok, Res, FMul, FAdd, FSub;
  }

  /** A limb step doubles the first pair and adds the two. */
  lemma StepRes(x1: Fe, x2: Fe, z2: Fe, x3: Fe, z3: Fe, p: Pair, q: Pair)
    requires Ok(x1) && Ok(x2) && Ok(z2) && Ok(x3) && Ok(z3) && Holds(x2, z2, p) && Holds(x3, z3, q)
    ensures var r := Step(x1, x2, z2, x3, z3); Holds(r.0, r.1, Dbl(p)) && Holds(r.2, r.3, DiffAdd(Res(x1), p, q))
  {
    hide Mul, Square, FE.Add, FE.Sub, Mul121666, Ok, Res, FMul, FAdd, FSub, Dbl, DiffAdd;
    var a, b, c, d := FE.Add(x2, z2), FE.Sub(x2, z2), FE.Add(x3, z3), FE.Sub(x3, z3);
    var da, cb, aa, bb := Mul(d, a), Mul(c, b), Square(a), Square(b);
    var s, m, e := FE.Add(da, cb), FE.Sub(da, cb), FE.Sub(aa, bb);
    var f := FE.Add(bb, Mul121666(e));
    ResAdd(x2, z2);
    ResSub(x2, z2);
    ResAdd(x3, z3);
    ResSub(x3, z3);
    ResMul(d, a);
    ResMul(c, b);
    ResSquare(a);
    ResSquare(b);
    ResAdd(da, cb);
    ResSub(da, cb);
    ResSquare(s);
    ResSquare(m);
    ResMul(x1, Square(m));
    ResSub(aa, bb);
    ResMul121666(e);
    ResAdd(bb, Mul121666(e));
    ResMul(aa, bb);
    ResMul(e, f);
    DoubledRes(aa, bb, e, f, Mul121666(e), Mul(aa, bb), Mul(e, f), p);
    AddedRes(x1, da, cb, s, m, Square(m), Square(s), Mul(x1, Square(m)), p, q);
  }

  /** With the points exchanged for a set bit, a step moves the state from k / 2 to k. */
  lemma StepState(x1: Fe, x2: Fe, z2: Fe, x3: Fe, z3: Fe, k: nat)
    requires Ok(x1) && State(x2, z2, x3, z3, k % 2 == 1, Ladder(Res(x1), k / 2)) && k > 0
    ensures Ok(x2) && Ok(z2) && Ok(x3) && Ok(z3)
    ensures var r := Step(x1, x2, z2, x3, z3); State(r.0, r.1, r.2, r.3, k % 2 == 1, Ladder(Res(x1), k))
  {
    hide Step, Ok, Res, Dbl, DiffAdd, Holds;
    StateOk(x2, z2, x3, z3, k % 2 == 1, Ladder(Res(x1), k / 2));
    var (p, q) := Ladder(Res(x1), k / 2);
    var (f, s) := if k % 2 == 1 then (q, p) else (p, q);
    StepRes(x1, x2, z2, x3, z3, f, s);
    DiffAddSymmetric(Res(x1), p, q);
  }

  /** With no bits yet, a step from zero keeps the ladder's start. */
  lemma StartState(x1: Fe)
    requires Ok(x1)
    ensures State(ONE, ZERO, x1, ONE, false, Ladder(Res(x1), 0))
  {
    hide Val, Mod, Ladder;
    ResConstants();
    ConstantsInRange();
    LadderZero(Res(x1));
  }

  lemma LadderZero(u: int)
    ensures Ladder(u, 0) == (Pair(1, 0), Pair(u, 1))
  {
  }

  lemma ConstantsInRange()
    ensures Ok(ONE) && Ok(ZERO)
  {
  }

  // ---------------------------------------------------------------------------
  // Scalar bits
  // ---------------------------------------------------------------------------

  /** Shifting one bit less doubles and adds the bit. */
  lemma ShiftStep(k: nat, i: nat)
    ensures (k / Pow2(i)) / 2 == k / Pow2(i + 1) && k / Pow2(i) >= 0
  {
    DivDiv(k, Pow2(i), 2);
  }

  lemma ClampedRange(scalar: seq<u8>)
    requires |scalar| == 32
    ensures LeVal(Clamp(scalar)) / Pow2(255) == 0 && LeVal(Clamp(scalar)) / Pow2(254) == 1
  {
    hide LeVal, BytePow, Pow2, Clamp;
    var c := Clamp(scalar);
    ClampedTop(scalar);
    assert c == c[..31] + [c[31]];
    LeAppend(c[..31], [c[31]]);
    OneByteValue(c[31]);
    LeBound(c[..31]);
    BytePowIsPow2(31);
    Pow2Add(248, 6);
    Pow2Add(248, 7);
    SmallPowers2();
    TopBits(LeVal(c[..31]), Pow2(248), c[31]);
  }

  lemma ClampedTop(scalar: seq<u8>)
    requires |scalar| == 32
    ensures 0x40 <= Clamp(scalar)[31] < 0x80
  {
  }

  lemma SmallPowers2()
    ensures Pow2(6) == 64 && Pow2(7) == 128
  {
  }

  lemma TopBits(low: int, w: int, top: int)
    requires 0 <= low < w && 0x40 <= top < 0x80
    ensures (low + w * top) / (w * 128) == 0 && (low + w * top) / (w * 64) == 1
  {
    MulMono(w, top + 1, 128);
    MulMono(w, 64, top);
    DivModOf(low + w * top, w * 128, 0, low + w * top);
    assert w * top - w * 64 == w * (top - 64);
    MulMono(w, top - 64 + 1, 64);
    DivModOf(low + w * top, w * 64, 1, low + w * (top - 64));
  }

  // ---------------------------------------------------------------------------
  // x25519
  // ---------------------------------------------------------------------------

  lemma Positive(k: nat, i: nat)
    requires i <= 254 && k / Pow2(254) == 1
    ensures k / Pow2(i) > 0
  {
    hide Pow2;
    Pow2Add(i, 254 - i);
    DivDiv(k, Pow2(i), Pow2(254 - i));
    if k / Pow2(i) == 0 {
      DivModOf(0, Pow2(254 - i), 0, 0);
    }
  }

  lemma FromBytesRes(point: seq<u8>)
    requires |point| == 32
    ensures Ok(FromBytes(point)) && Res(FromBytes(point)) == Mod(LeVal(point) % TWO255)
  {
    hide LeVal, FromBytes, Ok, Mod;
    ResIs(FromBytes(point));
  }

  /** The last inversion and the canonical encoding. */
  lemma Finish(x: Fe, z: Fe, zInverse: Fe, f: Fe, p: Pair)
    requires Holds(x, z, p) && IsPow(zInverse, Val(z), P - 2) && Res(f) == FMul(Res(x), Res(zInverse))
    ensures Encode(f) == LeBytes(FMul(p.x, Pow(p.z, P - 2)), 32)
  {
    hide Pow, Ok, Mod, LeBytes, Val;
    ResIs(f);
    ResIs(z);
    ResIs(zInverse);
    PowMod(Val(z), P - 2);
  }

  lemma FirstHolds(xs: (Fe, Fe), zs: (Fe, Fe), s: (Pair, Pair))
    requires State(xs.0, zs.0, xs.1, zs.1, false, s)
    ensures Ok(xs.0) && Ok(zs.0) && Holds(xs.0, zs.0, s.0)
  {
    hide Ok, Res;
  }

  lemma SpecIs(scalar: seq<u8>, point: seq<u8>, k: nat, u: int)
    requires |scalar| == 32 && |point| == 32 && k == LeVal(Clamp(scalar)) && u == Mod(LeVal(point) % TWO255)
    ensures var p := Ladder(u, k / Pow2(0)).0; Spec(scalar, point) == LeBytes(FMul(p.x, Pow(p.z, P - 2)), 32)
  {
    hide Ladder, Pow, Mod, FMul, LeBytes, LeVal, Clamp;
    assert Pow2(0) == 1;
  }

  /** Multiply a u-coordinate by a scalar: one swap per bit, deferred, and one last swap. */
  method X25519(scalar: seq<u8>, point: seq<u8>) returns (r: seq<u8>)
    requires |scalar| == 32 && |point| == 32
    ensures r == Spec(scalar, point)
  {
    hide *;
    var clamped := Clamp(scalar);
    ghost var k := LeVal(clamped);
    ClampedRange(scalar);
    FromBytesRes(point);
    var x1 := FromBytes(point);
    var x2, z2, x3, z3 := ONE, ZERO, x1, ONE;
    var swap := false;
    StartState(x1);
    for i := 255 downto 0
      invariant State(x2, z2, x3, z3, swap, Ladder(Res(x1), k / Pow2(i)))
    {
      var bit := Bit(clamped, i);
      BitValue(clamped, i);
      ShiftStep(k, i);
      Positive(k, i);
      swap := swap != bit;
      SwapState(x2, z2, x3, z3, swap != bit, bit, Ladder(Res(x1), k / Pow2(i + 1)));
      var xs, zs := Swap(x2, x3, swap), Swap(z2, z3, swap);
      x2, z2, x3, z3 := xs.0, zs.0, xs.1, zs.1;
      swap := bit;
      StepState(x1, x2, z2, x3, z3, k / Pow2(i));
      var s := Step(x1, x2, z2, x3, z3);
      x2, z2, x3, z3 := s.0, s.1, s.2, s.3;
    }
    SwapState(x2, z2, x3, z3, swap, false, Ladder(Res(x1), k / Pow2(0)));
    var xs, zs := Swap(x2, x3, swap), Swap(z2, z3, swap);
    x2, z2 := xs.0, zs.0;
    ghost var p := Ladder(Res(x1), k / Pow2(0)).0;
    FirstHolds(xs, zs, Ladder(Res(x1), k / Pow2(0)));
    var zInverse := Invert(z2);
    InvertIsPow(z2);
    var f := Mul(x2, zInverse);
    ResMul(x2, zInverse);
    Finish(x2, z2, zInverse, f, p);
    SpecIs(scalar, point, k, Res(x1));
    r := Encode(f);
  }
}
