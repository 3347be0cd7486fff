/** GF(2^255 - 19) in five 51-bit limbs (field/mod.rs). */
module FieldLimbs {
  // `Ok` is the limb invariant of this project: every limb is below 2^51 + 2^8. The
  // functions are the straight-line bodies; `FieldLoops` has the loops of the source,
  // proved to compute the same limbs.

  import opened Arith
  import opened Words

  /** 2^255 - 19. */
  const P: int := 0x7fffffff_ffffffff_ffffffff_ffffffff_ffffffff_ffffffff_ffffffff_ffffffed

  /** The residue an integer stands for; `ModIs` opens the definition. */
  function Mod(x: int): (r: int)
    ensures 0 <= r < P
  {
    Folded(x, 2)
  }

  /** x % P, behind n unfoldings: a product reduced modulo a 255-bit literal stays closed until it is asked for. */
  function Folded(x: int, n: nat): (r: int)
    ensures 0 <= r < P
    decreases n, x
  {
    if n == 0 then x % P else Folded(x, n - 1)
  }

  lemma ModIs(x: int)
    ensures Mod(x) == x % P
  {
    assert Folded(x, 0) == x % P;
    assert Folded(x, 1) == Folded(x, 0);
    assert Folded(x, 2) == Folded(x, 1);
  }

  lemma ModQuotient(x: int)
    ensures x == Mod(x) + (x / P) * P
  {
    hide Mod;
    ModIs(x);
  }

  lemma ModShift(x: int, y: int, q: int)
    requires x == y + q * P
    ensures Mod(x) == Mod(y)
  {
    hide Mod;
    ModIs(x);
    ModIs(y);
    SameRemainder(x, y, q, P);
  }

  const E51: int := 0x8_0000_0000_0000
  const E102: int := 0x40_00000000_00000000_00000000
  const E153: int := 0x2000000_00000000_00000000_00000000_00000000
  const E204: int := 0x1000_00000000_00000000_00000000_00000000_00000000_00000000

  datatype Fe = Fe(l0: u64, l1: u64, l2: u64, l3: u64, l4: u64)

  const ZERO := Fe(0, 0, 0, 0, 0)
  const ONE := Fe(1, 0, 0, 0, 0)

  /** The integer the limbs stand for, not reduced. */
  function Val(f: Fe): int {
    f.l0 as int + E51 * f.l1 as int + E102 * f.l2 as int + E153 * f.l3 as int + E204 * f.l4 as int
  }

  /** One more than the largest limb of the invariant. */
  const M: int := 0x80000_00000100
  const MM: int := 0x40_00000000_10000000_00010000

  ghost predicate Ok(f: Fe) {
    && (f.l0 as int) < M && (f.l1 as int) < M && (f.l2 as int) < M && (f.l3 as int) < M && (f.l4 as int) < M
  }

  // ---------------------------------------------------------------------------
  // Carries without a full reduction
  // ---------------------------------------------------------------------------

  /** Limbs an addition or subtraction may hand to `weak_reduce`. */
  ghost predicate Loose(f: Fe) {
    && (f.l0 as int) < 4 * E51 && (f.l1 as int) < 4 * E51 && (f.l2 as int) < 4 * E51
    && (f.l3 as int) < 4 * E51 && (f.l4 as int) < 4 * E51
  }

  function WeakReduce(f: Fe): (r: Fe)
    requires Loose(f)
    ensures Ok(r) && Val(r) == Val(f) - (f.l4 as int / E51) * P
    ensures (r.l0 as int) < E51 && (r.l1 as int) < E51 && (r.l2 as int) < E51 && (r.l3 as int) < E51
    ensures (r.l4 as int) < E51 + 4
  {
    var l0 := f.l0 + f.l4 / 0x8_0000_0000_0000 * 19;
    var l1 := f.l1 + l0 / 0x8_0000_0000_0000;
    var l2 := f.l2 + l1 / 0x8_0000_0000_0000;
    var l3 := f.l3 + l2 / 0x8_0000_0000_0000;
    var l4 := f.l4 % 0x8_0000_0000_0000 + l3 / 0x8_0000_0000_0000;
    Fe(l0 % 0x8_0000_0000_0000, l1 % 0x8_0000_0000_0000, l2 % 0x8_0000_0000_0000, l3 % 0x8_0000_0000_0000, l4)
  }

  function AddLimbs(a: Fe, b: Fe): (r: Fe)
    requires Ok(a) && Ok(b)
    ensures Loose(r) && Val(r) == Val(a) + Val(b)
  {
    Fe(a.l0 + b.l0, a.l1 + b.l1, a.l2 + b.l2, a.l3 + b.l3, a.l4 + b.l4)
  }

  function Add(a: Fe, b: Fe): (r: Fe)
    requires Ok(a) && Ok(b)
    ensures Ok(r) && Mod(Val(r)) == Mod(Val(a) + Val(b))
  {
    var sum := AddLimbs(a, b);
    var r := WeakReduce(sum);
    ModShift(Val(a) + Val(b), Val(r), sum.l4 as int / E51);
    r
  }

  /** 2p in limbs. */
  const P2 := Fe(0x000f_ffff_ffff_ffda, 0x000f_ffff_ffff_fffe, 0x000f_ffff_ffff_fffe, 0x000f_ffff_ffff_fffe,
                 0x000f_ffff_ffff_fffe)

  /** Both steps of a + two_p - b stay in a 64-bit word. */
  ghost predicate WordFits(a: u64, two_p: u64, b: u64) {
    a as int + two_p as int < B && 0 <= a as int + two_p as int - b as int < B
  }

  /** No limb of `sub` overflows or borrows. */
  ghost predicate SubFits(a: Fe, b: Fe) {
    && WordFits(a.l0, P2.l0, b.l0) && WordFits(a.l1, P2.l1, b.l1) && WordFits(a.l2, P2.l2, b.l2)
    && WordFits(a.l3, P2.l3, b.l3) && WordFits(a.l4, P2.l4, b.l4)
  }

  /** Each limb is at most the limb of x plus the limb of 2p. */
  ghost predicate AtMost(b: Fe, x: Fe) {
    && b.l0 as int <= x.l0 as int + P2.l0 as int && b.l1 as int <= x.l1 as int + P2.l1 as int
    && b.l2 as int <= x.l2 as int + P2.l2 as int && b.l3 as int <= x.l3 as int + P2.l3 as int
    && b.l4 as int <= x.l4 as int + P2.l4 as int
  }

  /** The bound stated beside the type, every limb below 2^52. */
  ghost predicate Documented(f: Fe) {
    && (f.l0 as int) < 2 * E51 && (f.l1 as int) < 2 * E51 && (f.l2 as int) < 2 * E51
    && (f.l3 as int) < 2 * E51 && (f.l4 as int) < 2 * E51
  }

  /**
   Within the documented bound `sub` stays in its words exactly when no subtrahend limb
   exceeds the minuend's plus 2p's.
   */
  lemma SubFitsExactly(a: Fe, b: Fe)
    requires Documented(a) && Documented(b)
    ensures SubFits(a, b) <==> AtMost(b, a)
  {
  }

  /** So b may be subtracted from everything within the bound exactly when it may be negated. */
  lemma SubFitsAlways(b: Fe)
    requires Documented(b)
    ensures (forall a {:trigger SubFits(a, b)} :: Documented(a) ==> SubFits(a, b)) <==> AtMost(b, ZERO)
  {
    if AtMost(b, ZERO) {
      forall a | Documented(a) ensures SubFits(a, b) {
        SubFitsExactly(a, b);
      }
    } else {
      SubFitsExactly(ZERO, b);
      assert !SubFits(ZERO, b);
    }
  }

  /** The documented bound alone is not enough: negating the limb 2^52 - 1 borrows. */
  lemma DocumentedBoundBorrows()
    ensures exists f: Fe :: Documented(f) && !SubFits(ZERO, f)
  {
    var f := Fe(0x000f_ffff_ffff_ffff, 0, 0, 0, 0);
    assert Documented(f) && !SubFits(ZERO, f);
  }

  /** The invariant of this project is enough, and lies within the documented bound. */
  lemma OkFits(a: Fe, b: Fe)
    requires Ok(a) && Ok(b)
    ensures Documented(a) && SubFits(a, b)
  {
  }

  /** 2p is added first, so that no limb borrows. */
  function SubLimbs(a: Fe, b: Fe): (r: Fe)
    requires SubFits(a, b)
    ensures Val(r) == Val(a) - Val(b) + 2 * P
    ensures Documented(a) ==> Loose(r)
  {
    Fe(a.l0 + P2.l0 - b.l0, a.l1 + P2.l1 - b.l1, a.l2 + P2.l2 - b.l2, a.l3 + P2.l3 - b.l3, a.l4 + P2.l4 - b.l4)
  }

  function Sub(a: Fe, b: Fe): (r: Fe)
    requires Ok(a) && Ok(b)
    ensures Ok(r) && Mod(Val(r)) == Mod(Val(a) - Val(b))
  {
    OkFits(a, b);
    var diff := SubLimbs(a, b);
    var r := WeakReduce(diff);
    ModShift(Val(a) - Val(b), Val(r), diff.l4 as int / E51 - 2);
    r
  }

  function Neg(a: Fe): (r: Fe)
    requires Ok(a)
    ensures Ok(r) && Mod(Val(r)) == Mod(-Val(a))
  {
    Sub(ZERO, a)
  }

  // ---------------------------------------------------------------------------
  // Wide products
  // ---------------------------------------------------------------------------

  datatype Wide = Wide(r0: u128, r1: u128, r2: u128, r3: u128, r4: u128)

  function WideVal(w: Wide): int {
    w.r0 as int + E51 * w.r1 as int + E102 * w.r2 as int + E153 * w.r3 as int + E204 * w.r4 as int
  }

  /** What the multipliers hand to `carry`: the top sum has no factor 19. */
  ghost predicate WideOk(w: Wide) {
    && w.r0 as int <= 77 * MM && w.r1 as int <= 77 * MM && w.r2 as int <= 77 * MM
    && w.r3 as int <= 77 * MM && w.r4 as int <= 5 * MM
  }

  /** One limb of `carry`: 51 bits stay, the rest moves up. */
  function Spill(r: u128, c: u64): (p: (u64, u64))
    requires r as int <= 77 * MM && (c as int) < 80 * E51
    ensures p.0 as int + E51 * p.1 as int == r as int + c as int
    ensures (p.0 as int) < E51 && (p.1 as int) < 80 * E51
    ensures r as int <= 5 * MM ==> (p.1 as int) < 6 * E51
  {
    var t := r + c as u128;
    ((t % 0x8_0000_0000_0000) as u64, (t / 0x8_0000_0000_0000) as u64)
  }

  function Carry(w: Wide): (r: Fe)
    requires WideOk(w)
    ensures Ok(r) && Mod(Val(r)) == Mod(WideVal(w))
  {
    var s0 := Spill(w.r0, 0);
    var s1 := Spill(w.r1, s0.1);
    var s2 := Spill(w.r2, s1.1);
    var s3 := Spill(w.r3, s2.1);
    var s4 := Spill(w.r4, s3.1);
    var o0 := s0.0 + s4.1 * 19;
    var r := Fe(o0 % 0x8_0000_0000_0000, s1.0 + o0 / 0x8_0000_0000_0000, s2.0, s3.0, s4.0);
    assert WideVal(w) == Val(r) + s4.1 as int * P;
    ModShift(WideVal(w), Val(r), s4.1 as int);
    r
  }

  lemma LimbProduct(x: u64, y: u64)
    requires (x as int) < M && (y as int) < M
    ensures 0 <= x as int * y as int <= MM
  {
    MulMono(x as int, y as int, M);
    MulMono(M, x as int, M);
  }

  lemma LimbProducts(x: u64, b: Fe)
    requires (x as int) < M && Ok(b)
    ensures 0 <= x as int * b.l0 as int <= MM && 0 <= x as int * b.l1 as int <= MM && 0 <= x as int * b.l2 as int <= MM
    ensures 0 <= x as int * b.l3 as int <= MM && 0 <= x as int * b.l4 as int <= MM
  {
    LimbProduct(x, b.l0);
    LimbProduct(x, b.l1);
    LimbProduct(x, b.l2);
    LimbProduct(x, b.l3);
    LimbProduct(x, b.l4);
  }

  lemma Nineteen(x: int, y: int)
    ensures x * (y * 19) == 19 * (x * y)
  {
  }

  /** The five wide sums of `mul`: limbs above the top one come back times 19. */
  function MulWide(a: Fe, b: Fe): (w: Wide)
    requires Ok(a) && Ok(b)
    ensures WideOk(w)
    ensures w.r0 as int == (a.l0 as int * b.l0 as int) + 19 * (a.l1 as int * b.l4 as int)
        + 19 * (a.l2 as int * b.l3 as int) + 19 * (a.l3 as int * b.l2 as int) + 19 * (a.l4 as int * b.l1 as int)
    ensures w.r1 as int == (a.l0 as int * b.l1 as int) + (a.l1 as int * b.l0 as int) + 19 * (a.l2 as int * b.l4 as int)
        + 19 * (a.l3 as int * b.l3 as int) + 19 * (a.l4 as int * b.l2 as int)
    ensures w.r2 as int == (a.l0 as int * b.l2 as int) + (a.l1 as int * b.l1 as int) + (a.l2 as int * b.l0 as int)
        + 19 * (a.l3 as int * b.l4 as int) + 19 * (a.l4 as int * b.l3 as int)
    ensures w.r3 as int == (a.l0 as int * b.l3 as int) + (a.l1 as int * b.l2 as int) + (a.l2 as int * b.l1 as int)
        + (a.l3 as int * b.l0 as int) + 19 * (a.l4 as int * b.l4 as int)
    ensures w.r4 as int == (a.l0 as int * b.l4 as int) + (a.l1 as int * b.l3 as int) + (a.l2 as int * b.l2 as int)
        + (a.l3 as int * b.l1 as int) + (a.l4 as int * b.l0 as int)
  {
    LimbProducts(a.l0, b);
    LimbProducts(a.l1, b);
    LimbProducts(a.l2, b);
    LimbProducts(a.l3, b);
    LimbProducts(a.l4, b);
    var b1_19, b2_19, b3_19, b4_19 := b.l1 as u128 * 19, b.l2 as u128 * 19, b.l3 as u128 * 19, b.l4 as u128 * 19;
    Nineteen(a.l1 as int, b.l4 as int);
    Nineteen(a.l2 as int, b.l3 as int); Nineteen(a.l2 as int, b.l4 as int);
    Nineteen(a.l3 as int, b.l2 as int); Nineteen(a.l3 as int, b.l3 as int); Nineteen(a.l3 as int, b.l4 as int);
    Nineteen(a.l4 as int, b.l1 as int); Nineteen(a.l4 as int, b.l2 as int); Nineteen(a.l4 as int, b.l3 as int);
    Nineteen(a.l4 as int, b.l4 as int);
    var a0, a1, a2, a3, a4 := a.l0 as u128, a.l1 as u128, a.l2 as u128, a.l3 as u128, a.l4 as u128;
    var b0, b1, b2, b3, b4 := b.l0 as u128, b.l1 as u128, b.l2 as u128, b.l3 as u128, b.l4 as u128;
    Wide(a0 * b0 + a1 * b4_19 + a2 * b3_19 + a3 * b2_19 + a4 * b1_19,
         a0 * b1 + a1 * b0 + a2 * b4_19 + a3 * b3_19 + a4 * b2_19,
         a0 * b2 + a1 * b1 + a2 * b0 + a3 * b4_19 + a4 * b3_19,
         a0 * b3 + a1 * b2 + a2 * b1 + a3 * b0 + a4 * b4_19,
         a0 * b4 + a1 * b3 + a2 * b2 + a3 * b1 + a4 * b0)
  }

  lemma Row(x: int, y0: int, y1: int, y2: int, y3: int, y4: int)
    ensures x * (y0 + E51 * y1 + E102 * y2 + E153 * y3 + E204 * y4)
         == x * y0 + E51 * (x * y1) + E102 * (x * y2) + E153 * (x * y3) + E204 * (x * y4)
  {
  }

  lemma RowOf(x: int, b: Fe)
    ensures x * Val(b) == x * b.l0 as int + E51 * (x * b.l1 as int) + E102 * (x * b.l2 as int)
                          + E153 * (x * b.l3 as int) + E204 * (x * b.l4 as int)
  {
    Row(x, b.l0 as int, b.l1 as int, b.l2 as int, b.l3 as int, b.l4 as int);
  }

  /** a * b by rows of a. */
  lemma Rows(a: Fe, b: Fe)
    ensures Val(a) * Val(b)
         == a.l0 as int * Val(b) + E51 * (a.l1 as int * Val(b)) + E102 * (a.l2 as int * Val(b))
            + E153 * (a.l3 as int * Val(b)) + E204 * (a.l4 as int * Val(b))
  {
    Row(Val(b), a.l0 as int, a.l1 as int, a.l2 as int, a.l3 as int, a.l4 as int);
  }

  /** What lies at and above 2^255 in a product, divided by 2^255. */
  function High(a: Fe, b: Fe): int {
    a.l1 as int * b.l4 as int + a.l2 as int * b.l3 as int + a.l3 as int * b.l2 as int + a.l4 as int * b.l1 as int
    + E51 * (a.l2 as int * b.l4 as int + a.l3 as int * b.l3 as int + a.l4 as int * b.l2 as int)
    + E102 * (a.l3 as int * b.l4 as int + a.l4 as int * b.l3 as int)
    + E153 * (a.l4 as int * b.l4 as int)
  }

  /** 2^255 = P + 19, on the 25 partial products: x by rows, w by columns. */
  lemma FoldPartials(x0: int, x1: int, x2: int, x3: int, x4: int, w0: int, w1: int, w2: int, w3: int, w4: int,
                     p00: int, p01: int, p02: int, p03: int, p04: int, p10: int, p11: int, p12: int, p13: int, p14: int,
                     p20: int, p21: int, p22: int, p23: int, p24: int, p30: int, p31: int, p32: int, p33: int, p34: int,
                     p40: int, p41: int, p42: int, p43: int, p44: int)
    requires x0 == p00 + E51 * p01 + E102 * p02 + E153 * p03 + E204 * p04
    requires x1 == p10 + E51 * p11 + E102 * p12 + E153 * p13 + E204 * p14
    requires x2 == p20 + E51 * p21 + E102 * p22 + E153 * p23 + E204 * p24
    requires x3 == p30 + E51 * p31 + E102 * p32 + E153 * p33 + E204 * p34
    requires x4 == p40 + E51 * p41 + E102 * p42 + E153 * p43 + E204 * p44
    requires w0 == p00 + 19 * p14 + 19 * p23 + 19 * p32 + 19 * p41
    requires w1 == p01 + p10 + 19 * p24 + 19 * p33 + 19 * p42
    requires w2 == p02 + p11 + p20 + 19 * p34 + 19 * p43
    requires w3 == p03 + p12 + p21 + p30 + 19 * p44
    requires w4 == p04 + p13 + p22 + p31 + p40
    ensures x0 + E51 * x1 + E102 * x2 + E153 * x3 + E204 * x4
         == w0 + E51 * w1 + E102 * w2 + E153 * w3 + E204 * w4
             + (p14 + p23 + p32 + p41 + E51 * (p24 + p33 + p42) + E102 * (p34 + p43) + E153 * (p44)) * P
  {
  }

  /** Folding the high products in times 19 changes the integer by a multiple of P. */
  lemma FoldProduct(a: Fe, b: Fe)
    requires Ok(a) && Ok(b)
    ensures Val(a) * Val(b) == WideVal(MulWide(a, b)) + High(a, b) * P
  {
    hide Val;
    var w, v := MulWide(a, b), Val(b);
    Rows(a, b);
    RowOf(a.l0 as int, b);
    RowOf(a.l1 as int, b);
    RowOf(a.l2 as int, b);
    RowOf(a.l3 as int, b);
    RowOf(a.l4 as int, b);
    FoldPartials(a.l0 as int * v, a.l1 as int * v, a.l2 as int * v, a.l3 as int * v, a.l4 as int * v,
                 w.r0 as int, w.r1 as int, w.r2 as int, w.r3 as int, w.r4 as int,
                 a.l0 as int * b.l0 as int, a.l0 as int * b.l1 as int, a.l0 as int * b.l2 as int,
                 a.l0 as int * b.l3 as int, a.l0 as int * b.l4 as int,
                 a.l1 as int * b.l0 as int, a.l1 as int * b.l1 as int, a.l1 as int * b.l2 as int,
                 a.l1 as int * b.l3 as int, a.l1 as int * b.l4 as int,
                 a.l2 as int * b.l0 as int, a.l2 as int * b.l1 as int, a.l2 as int * b.l2 as int,
                 a.l2 as int * b.l3 as int, a.l2 as int * b.l4 as int,
                 a.l3 as int * b.l0 as int, a.l3 as int * b.l1 as int, a.l3 as int * b.l2 as int,
                 a.l3 as int * b.l3 as int, a.l3 as int * b.l4 as int,
                 a.l4 as int * b.l0 as int, a.l4 as int * b.l1 as int, a.l4 as int * b.l2 as int,
                 a.l4 as int * b.l3 as int, a.l4 as int * b.l4 as int);
  }

  /** Product of two field elements. */
  function Mul(a: Fe, b: Fe): (r: Fe)
    requires Ok(a) && Ok(b)
    ensures Ok(r) && Mod(Val(r)) == Mod(Val(a) * Val(b))
  {
    FoldProduct(a, b);
    ModShift(Val(a) * Val(b), WideVal(MulWide(a, b)), High(a, b));
    Carry(MulWide(a, b))
  }

  /** The five wide sums of `square`, with the cross terms shared. */
  function SquareWide(a: Fe): (w: Wide)
    requires Ok(a)
    ensures w == MulWide(a, a)
  {
    LimbProducts(a.l0, a);
    LimbProducts(a.l1, a);
    LimbProducts(a.l2, a);
    LimbProducts(a.l3, a);
    LimbProducts(a.l4, a);
    var a0_2, a1_2, a3_19, a4_19 := 2 * a.l0, 2 * a.l1, 19 * a.l3, 19 * a.l4;
    Scaled(a.l0 as int, a.l1 as int);
    Scaled(a.l0 as int, a.l2 as int);
    Scaled(a.l0 as int, a.l3 as int);
    Scaled(a.l0 as int, a.l4 as int);
    Scaled(a.l1 as int, a.l2 as int);
    Scaled(a.l1 as int, a.l3 as int);
    Scaled(a.l1 as int, a.l4 as int);
    Scaled(a.l2 as int, a.l3 as int);
    Scaled(a.l2 as int, a.l4 as int);
    Scaled(a.l3 as int, a.l3 as int);
    Scaled(a.l3 as int, a.l4 as int);
    Scaled(a.l4 as int, a.l4 as int);
    var a0, a1, a2, a3, a4 := a.l0 as u128, a.l1 as u128, a.l2 as u128, a.l3 as u128, a.l4 as u128;
    var d0, d1, n3, n4 := a0_2 as u128, a1_2 as u128, a3_19 as u128, a4_19 as u128;
    Wide(a0 * a0 + d1 * n4 + 2 * a2 * n3,
         d0 * a1 + 2 * a2 * n4 + a3 * n3,
         d0 * a2 + a1 * a1 + 2 * a3 * n4,
         d0 * a3 + d1 * a2 + a4 * n4,
         d0 * a4 + d1 * a3 + a2 * a2)
  }

  lemma Scaled(x: int, y: int)
    ensures (2 * x) * (19 * y) == 38 * (x * y) && 2 * x * (19 * y) == 38 * (x * y)
    ensures (2 * x) * y == 2 * (x * y) && x * (19 * y) == 19 * (x * y)
  {
  }

  /** Square of a field element: the limbs of `mul(a, a)` exactly. */
  function Square(a: Fe): (r: Fe)
    requires Ok(a)
    ensures r == Mul(a, a) && Ok(r) && Mod(Val(r)) == Mod(Val(a) * Val(a))
  {
    Carry(SquareWide(a))
  }

  /** Multiplication by the Montgomery-ladder constant. */
  function Mul121666(a: Fe): (r: Fe)
    requires Ok(a)
    ensures Ok(r) && Mod(Val(r)) == Mod(121666 * Val(a))
  {
    var w := Wide(a.l0 as u128 * 121666, a.l1 as u128 * 121666, a.l2 as u128 * 121666, a.l3 as u128 * 121666,
                  a.l4 as u128 * 121666);
    assert WideVal(w) == 121666 * Val(a);
    Carry(w)
  }
}
