/** Signs and square roots (field/encoding.rs, from `select` on). */
module FieldSqrt {
  import opened Arith
  import opened Bytes
  import opened FieldLimbs
  import opened FieldPow
  import opened FieldEncoding
  import opened FieldResidues

  /** The masked select of two elements. */
  function Select(a: Fe, b: Fe, choice: bool): Fe {
    if choice then b else a
  }

  function CtEq(a: Fe, b: Fe): (r: bool)
    ensures r <==> Res(a) == Res(b)
  {
    ResIs(a);
    ResIs(b);
    EncodeEqual(a, b);
    Encode(a) == Encode(b)
  }

  function IsZero(a: Fe): (r: bool)
    ensures r <==> Res(a) == 0
  {
    ZeroBytes(a);
    Encode(a) == seq(32, _ => 0)
  }

  lemma ZeroBytes(a: Fe)
    ensures Encode(a) == seq(32, _ => 0) <==> Res(a) == 0
  {
    ResIs(a);
    ResIs(ZERO);
    EncodeEqual(a, ZERO);
    ResConstants();
    LeBytesZero(32);
  }

  lemma {:induction false} LeBytesZero(k: nat)
    ensures LeBytes(0, k) == seq(k, _ => 0)
  {
    if k > 0 {
      LeBytesZero(k - 1);
      assert seq<u8>(k, _ => 0) == [0] + seq<u8>(k - 1, _ => 0);
    }
  }

  /** The low bit of the canonical encoding. */
  function IsNegative(a: Fe): (r: bool)
    ensures r <==> Res(a) % 2 == 1
  {
    ResIs(a);
    LowBit(Res(a));
    Encode(a)[0] % 2 == 1
  }

  lemma DigitParity(n: int)
    ensures BytePow(0) == 1 && n / 1 % 0x100 % 2 == n % 2
  {
  }

  lemma LowBit(n: int)
    requires n >= 0
    ensures LeBytes(n, 32)[0] % 2 == n % 2
  {
    hide LeBytes;
    LeByteAt(n, 32, 0);
    DigitParity(n);
  }

  function ConditionalNegate(a: Fe, choice: bool): (r: Fe)
    requires Ok(a)
    ensures Ok(r)
  {
    Select(a, Neg(a), choice)
  }

  const SQRT_M1 := Fe(0x00061b274a0ea0b0, 0x0000d5a5fc8f189d, 0x0007ef5e9cbd0c60, 0x00078595a6804c9e,
                      0x0002b8324804fc1d)

  lemma SqrtM1()
    ensures Ok(SQRT_M1) && Mod(Val(SQRT_M1) * Val(SQRT_M1)) == Mod(-1)
  {
    ModIs(Val(SQRT_M1) * Val(SQRT_M1));
    ModIs(-1);
  }

  // ---------------------------------------------------------------------------
  // sqrt_ratio
  // ---------------------------------------------------------------------------

  /** u * v^3 * (u * v^7)^((p - 5) / 8). */
  function RootCandidate(u: Fe, v: Fe): (r: Fe)
    requires Ok(u) && Ok(v)
    ensures Ok(r)
  {
    hide *;
    var v3 := Mul(Square(v), v);
    var v7 := Mul(Square(v3), v);
    Mul(Mul(u, v3), PowP58(Mul(u, v7)))
  }

  /** v * root^2, compared with u and with -u. */
  function Check(v: Fe, root: Fe): (r: Fe)
    requires Ok(v) && Ok(root)
    ensures Ok(r)
  {
    Mul(v, Square(root))
  }

  /** Square root of u / v, with a flag that says whether it squares to u / v. */
  function SqrtRatio(u: Fe, v: Fe): (r: (Fe, bool))
    requires Ok(u) && Ok(v)
    ensures Ok(r.0)
  {
    hide Mul, Neg, Check, RootCandidate, ConditionalNegate, CtEq;
    SqrtM1();
    var root := RootCandidate(u, v);
    var check := Check(v, root);
    var correct, flipped := CtEq(check, u), CtEq(check, Neg(u));
    var chosen := Select(root, Mul(root, SQRT_M1), flipped);
    (ConditionalNegate(chosen, IsNegative(chosen)), correct || flipped)
  }

  /** `root` is a square root of u / v. */
  ghost predicate IsRoot(u: Fe, v: Fe, root: Fe) {
    Mod(Res(v) * (Res(root) * Res(root))) == Res(u)
  }

  lemma CheckRes(v: Fe, root: Fe)
    requires Ok(v) && Ok(root)
    ensures Res(Check(v, root)) == Mod(Res(v) * (Res(root) * Res(root)))
  {
    hide Mul, Square, Mod, Res;
    ResMul(v, Square(root));
    ResSquare(root);
    ModMul(Res(v), Res(root) * Res(root));
  }

  /** Multiplying the root by sqrt(-1) flips the sign of its square. */
  lemma TimesI(u: Fe, v: Fe, root: Fe)
    requires Ok(u) && Ok(v) && Ok(root) && Ok(SQRT_M1)
    requires Res(Check(v, root)) == Res(Neg(u))
    ensures IsRoot(u, v, Mul(root, SQRT_M1))
  {
    hide Mul, Neg, Check, Mod, Res, SQRT_M1, Ok;
    var a, b, i := Res(v), Res(root), Res(SQRT_M1);
    CheckRes(v, root);
    ResMul(root, SQRT_M1);
    ResNeg(u);
    SqrtM1Res();
    FlipSquare(a, b, i, Res(u));
  }

  lemma SqrtM1Res()
    ensures Mod(Res(SQRT_M1) * Res(SQRT_M1)) == Mod(-1)
  {
    hide SQRT_M1, Mod, Val;
    ResIs(SQRT_M1);
    SqrtM1();
    ModMul(Val(SQRT_M1), Val(SQRT_M1));
  }

  lemma FlipSquare(a: int, b: int, i: int, u: int)
    requires Mod(i * i) == Mod(-1) && Mod(a * (b * b)) == Mod(-u) && 0 <= u < P
    ensures Mod(a * (Mod(b * i) * Mod(b * i))) == u
  {
    hide Mod;
    ModMul(b * i, b * i);
    ModMul(a, Mod(b * i) * Mod(b * i));
    ModMul(a, (b * i) * (b * i));
    assert a * ((b * i) * (b * i)) == (a * (b * b)) * (i * i);
    ModTimes(i * i, -1, a * (b * b));
    ModTimes(a * (b * b), -u, -1);
    ModSmall(u);
  }

  lemma NegSquare(a: int, b: int)
    ensures Mod(a * (Mod(-b) * Mod(-b))) == Mod(a * (b * b))
  {
    hide Mod;
    ModMul(-b, -b);
    ModMul(a, Mod(-b) * Mod(-b));
    ModMul(a, (-b) * (-b));
    assert (-b) * (-b) == b * b;
  }

  /** The chosen sign does not change the square, and the result is non-negative. */
  lemma NegateRoot(u: Fe, v: Fe, root: Fe)
    requires Ok(u) && Ok(v) && Ok(root) && IsRoot(u, v, root)
    ensures IsRoot(u, v, ConditionalNegate(root, IsNegative(root)))
    ensures !IsNegative(ConditionalNegate(root, IsNegative(root)))
  {
    hide Neg, Encode;
    ResNeg(root);
    NegSquare(Res(v), Res(root));
    NegParity(Res(root));
    hide Res, Mod;
  }

  /** p is odd, so negation changes the parity of a nonzero residue. */
  lemma NegParity(r: int)
    requires 0 <= r < P
    ensures r != 0 ==> Mod(-r) == P - r && Mod(-r) % 2 != r % 2
    ensures r == 0 ==> Mod(-r) == 0
  {
    ModIs(-r);
  }

  /** A set flag is right: v * root^2 = u, and the root is the even one. */
  lemma SqrtRatioSound(u: Fe, v: Fe)
    requires Ok(u) && Ok(v)
    ensures SqrtRatio(u, v).1 ==> IsRoot(u, v, SqrtRatio(u, v).0) && !IsNegative(SqrtRatio(u, v).0)
  {
    hide Mul, Neg, Check, RootCandidate, ConditionalNegate, IsNegative, Mod, SQRT_M1, Ok, Res, Encode;
    SqrtM1();
    var root := RootCandidate(u, v);
    var check := Check(v, root);
    var correct, flipped := CtEq(check, u), CtEq(check, Neg(u));
    var chosen := Select(root, Mul(root, SQRT_M1), flipped);
    if flipped {
      TimesI(u, v, root);
      NegateRoot(u, v, chosen);
    } else if correct {
      CheckRes(v, root);
      NegateRoot(u, v, chosen);
    }
  }

  // ---------------------------------------------------------------------------
  // Completeness, with the primality of p as a hypothesis
  // ---------------------------------------------------------------------------

  /** What the primality of p gives: Fermat's little theorem and no zero divisors. */
  ghost predicate PrimeModulus() {
    && (forall x {:trigger Pow(x, P - 1)} :: Mod(x) != 0 ==> Pow(x, P - 1) == 1)
    && (forall a, b {:trigger Mod(a * b)} :: Mod(a * b) == 0 ==> Mod(a) == 0 || Mod(b) == 0)
  }

  /** u / v has the square root x. */
  ghost predicate HasRoot(u: int, v: int, x: int) {
    Mod(v * (x * x)) == u
  }

  lemma CandidateRes(u: Fe, v: Fe)
    requires Ok(u) && Ok(v)
    ensures Res(RootCandidate(u, v))
         == Mod(Res(u) * (Res(v) * Res(v) * Res(v)) * Pow(Res(u) * Seventh(Res(v)), SQRT_EXPONENT))
  {
    hide Mul, Square, PowP58, Res, Mod, Pow;
    var v3 := Mul(Square(v), v);
    var v7 := Mul(Square(v3), v);
    var ru, rv := Res(u), Res(v);
    CubeRes(v);
    SeventhRes(v);
    ResMul(u, v3);
    ModMul(ru, rv * rv * rv);
    ResMul(u, v7);
    ModMul(ru, Seventh(rv));
    var w := Mul(u, v7);
    PowRes(w, ru * Seventh(rv));
    ResMul(Mul(u, v3), PowP58(w));
    ModMul(ru * (rv * rv * rv), Pow(ru * Seventh(rv), SQRT_EXPONENT));
  }

  function Seventh(v: int): int {
    (v * v * v) * (v * v * v) * v
  }

  lemma CubeRes(v: Fe)
    requires Ok(v)
    ensures Res(Mul(Square(v), v)) == Mod(Res(v) * Res(v) * Res(v))
  {
    hide Mul, Square, Res, Mod;
    ResSquare(v);
    ResMul(Square(v), v);
    ModMul(Res(v) * Res(v), Res(v));
  }

  lemma SeventhRes(v: Fe)
    requires Ok(v)
    ensures Res(Mul(Square(Mul(Square(v), v)), v)) == Mod(Seventh(Res(v)))
  {
    hide Mul, Square, Res, Mod;
    var v3, c := Mul(Square(v), v), Res(v) * Res(v) * Res(v);
    CubeRes(v);
    ResSquare(v3);
    ModMul(c, c);
    ResMul(Square(v3), v);
    ModMul(c * c, Res(v));
  }

  lemma PowRes(w: Fe, x: int)
    requires Ok(w) && Res(w) == Mod(x)
    ensures Res(PowP58(w)) == Pow(x, SQRT_EXPONENT)
  {
    hide PowP58, Pow, Mod, Val;
    ResIs(w);
    ResIs(PowP58(w));
    PowP58IsPow(w);
    PowMod(Val(w), SQRT_EXPONENT);
    PowMod(x, SQRT_EXPONENT);
  }

  /** check = u * (u v^7)^((p - 1) / 4). */
  lemma CheckPower(u: int, v: int, e: nat)
    ensures var w, t := u * Seventh(v), Pow(u * Seventh(v), e);
      Mod(v * (Mod(u * (v * v * v) * t) * Mod(u * (v * v * v) * t))) == Mod(u * Pow(w, 2 * e + 1))
  {
    hide Mod, Pow;
    var w, t := u * Seventh(v), Pow(u * Seventh(v), e);
    var c := u * (v * v * v) * t;
    ModMul(c, c);
    ModMul(v, Mod(c) * Mod(c));
    ModMul(v, c * c);
    CheckAlgebra(u, v, t);
    PowAdd(w, e, e);
    PowOneMore(w, 2 * e);
    ModMul(w, t * t);
    ModMul(u, w * (t * t));
  }

  lemma CheckAlgebra(u: int, v: int, t: int)
    ensures v * ((u * (v * v * v) * t) * (u * (v * v * v) * t)) == u * ((u * Seventh(v)) * (t * t))
  {
    var c := v * v * v;
    SquareOfProduct(u, c, t);
    MoveFactor(v, u, c * c, t * t);
  }

  lemma SquareOfProduct(u: int, c: int, t: int)
    ensures (u * c * t) * (u * c * t) == (u * u) * ((c * c) * (t * t))
  {
    assert (u * c) * (u * c) == (u * u) * (c * c);
    assert ((u * c) * t) * ((u * c) * t) == ((u * c) * (u * c)) * (t * t);
    MulAssoc(u * u, c * c, t * t);
  }

  lemma MoveFactor(v: int, u: int, cc: int, tt: int)
    ensures v * ((u * u) * (cc * tt)) == u * ((u * (cc * v)) * tt)
  {
    MulSwap(v, u * u, cc * tt);
    MulAssoc(v, cc, tt);
    MulAssoc(u, cc * v, tt);
    MulAssoc(u, u, (cc * v) * tt);
  }

  lemma PowOneMore(w: int, e: nat)
    ensures Pow(w, e + 1) == Mod(w * Pow(w, e))
  {
  }

  const HALF: nat := (P - 1) / 2

  lemma SquareRootOfOne(s: int)
    requires PrimeModulus() && 0 <= s < P && Mod(s * s) == Mod(1)
    ensures s == 1 || s == P - 1
  {
    hide Mod;
    assert (s - 1) * (s + 1) == s * s - 1;
    ModPlus(s * s, 1, 1);
    ModSmall(0);
    ProductZero(s - 1, s + 1);
    ZeroResidue(s - 1);
    ZeroResidue(s + 1);
  }

  lemma ProductZero(a: int, b: int)
    requires PrimeModulus() && Mod(a * b) == 0
    ensures Mod(a) == 0 || Mod(b) == 0
  {
  }

  lemma ZeroResidue(a: int)
    requires -P < a < 2 * P
    ensures Mod(a) == 0 ==> a == 0 || a == P
  {
    ModIs(a);
  }

  /** Half the Fermat exponent gives a square root of one, which is 1 or -1. */
  lemma HalfPower(y: int, half: nat)
    requires PrimeModulus() && Mod(y) != 0 && half + half == P - 1
    ensures Pow(y, half) == 1 || Pow(y, half) == P - 1
  {
    hide Mod, Pow;
    PowAdd(y, half, half);
    Fermat(y);
    ModSmall(1);
    SquareRootOfOne(Pow(y, half));
  }

  lemma Fermat(y: int)
    requires PrimeModulus() && Mod(y) != 0
    ensures Pow(y, P - 1) == 1
  {
  }

  /** u = v x^2 makes u v^7 the square of x v^4. */
  lemma QuarterPower(u: int, v: int, x: int)
    requires PrimeModulus() && HasRoot(u, v, x) && Mod(x * (v * v * (v * v))) != 0
    ensures Pow(u * Seventh(v), 2 * SQRT_EXPONENT + 1) == 1 || Pow(u * Seventh(v), 2 * SQRT_EXPONENT + 1) == P - 1
  {
    hide Mod, Pow;
    var y, e := x * (v * v * (v * v)), 2 * SQRT_EXPONENT + 1;
    PerfectSquare(u, v, x);
    PowMod(u * Seventh(v), e);
    PowMod(y * y, e);
    PowSquare(y, e);
    assert 2 * e == HALF;
    HalfPower(y, HALF);
  }

  lemma PerfectSquare(u: int, v: int, x: int)
    requires HasRoot(u, v, x)
    ensures var y := x * (v * v * (v * v)); Mod(u * Seventh(v)) == Mod(y * y)
  {
    hide Mod;
    var y := x * (v * v * (v * v));
    ModMul(v * (x * x), Seventh(v));
    SquareAlgebra(v, x);
  }

  lemma SquareAlgebra(v: int, x: int)
    ensures (v * (x * x)) * Seventh(v) == (x * (v * v * (v * v))) * (x * (v * v * (v * v)))
  {
    var q := v * v;
    assert Seventh(v) == q * q * q * v;
    assert (v * (x * x)) * (q * q * q * v) == (x * x) * (q * q * (q * q));
    assert (x * (q * q)) * (x * (q * q)) == (x * x) * (q * q * (q * q));
  }

  /** With p prime the flag is set exactly when u / v has a square root. */
  lemma SqrtRatioComplete(u: Fe, v: Fe, x: int)
    requires Ok(u) && Ok(v) && PrimeModulus() && HasRoot(Res(u), Res(v), x)
    ensures SqrtRatio(u, v).1
  {
    hide Mod, Pow, Res, RootCandidate, Neg, Mul, Check;
    var ru, rv, root := Res(u), Res(v), RootCandidate(u, v);
    CandidateRes(u, v);
    CheckRes(v, root);
    CheckPower(ru, rv, SQRT_EXPONENT);
    ResNeg(u);
    var y := x * (rv * rv * (rv * rv));
    if Mod(y) != 0 {
      QuarterPower(ru, rv, x);
      TimesSign(ru, Pow(ru * Seventh(rv), 2 * SQRT_EXPONENT + 1));
    } else {
      DegenerateRoot(ru, rv, x, Pow(ru * Seventh(rv), 2 * SQRT_EXPONENT + 1));
    }
  }

  lemma TimesSign(u: int, s: int)
    requires 0 <= u < P && (s == 1 || s == P - 1)
    ensures Mod(u * s) == u || Mod(u * s) == Mod(-u)
  {
    ModShift(u * (P - 1), -u, u);
    ModSmall(u);
  }

  /** When x or v vanishes so does u, and both sides of the check are zero. */
  lemma DegenerateRoot(u: int, v: int, x: int, t: int)
    requires PrimeModulus() && HasRoot(u, v, x) && 0 <= u < P
    requires Mod(x * (v * v * (v * v))) == 0
    ensures Mod(u * t) == u
  {
    hide Mod;
    ModSmall(0);
    ProductZero(x, v * v * (v * v));
    if Mod(x) == 0 {
      ModTimes(x, 0, v * x);
      assert v * x * x == v * (x * x);
    } else {
      ProductZero(v * v, v * v);
      ProductZero(v, v);
      ModTimes(v, 0, x * x);
    }
  }
}
