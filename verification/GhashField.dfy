/** The field of GHASH (aes/arm/ghash.rs): Karatsuba products and deferred reduction. */
module GhashField {
  // They compute the block multiplication of section 6.3 of NIST SP 800-38D. A block is held
  // with coefficient i of its polynomial as bit i of an integer.

  import opened Arith
  import opened Bytes
  import opened Gf2

  // ---------------------------------------------------------------------------
  // The specification
  // ---------------------------------------------------------------------------

  /** Multiplication by x: one shift, with x^128 replaced by x^7 + x^2 + x + 1. */
  function MulX(v: nat): nat {
    Xor(2 * (v % Pow2(127)), if v / Pow2(127) == 1 then 0x87 else 0)
  }

  /** Block multiplication: for each coefficient of x, from the lowest, add the current multiple of y. */
  function Dot(x: nat, y: nat): nat
    decreases x, y
  {
    if x == 0 then 0 else Xor(if x % 2 == 1 then y else 0, Dot(x / 2, MulX(y)))
  }

  /** The remainder modulo x^128 + x^7 + x^2 + x + 1. */
  function Rem(a: nat): nat {
    if a == 0 then 0 else Xor(a % 2, MulX(Rem(a / 2)))
  }

  lemma DotStep(x: nat, y: nat)
    ensures Dot(x, y) == Xor(if x % 2 == 1 then y else 0, Dot(x / 2, MulX(y)))
    ensures Dot(0, y) == 0
  {
    hide MulX;
    XorZero(0);
  }

  lemma RemStep(a: nat)
    ensures Rem(a) == Xor(a % 2, MulX(Rem(a / 2))) && Rem(0) == 0
  {
    if a == 0 {
      MulXZero();
    }
    hide MulX;
    XorZero(0);
  }

  lemma MulXZero()
    ensures MulX(0) == 0
  {
    XorZero(0);
  }

  // ---------------------------------------------------------------------------
  // Linearity
  // ---------------------------------------------------------------------------

  lemma Constant87()
    ensures 0x87 < Pow2(64) && 2 <= Pow2(64) && 0x87 < Pow2(128) && 2 <= Pow2(128) && 0x87 < Pow2(8)
  {
    assert Pow2(8) == 0x100;
    Pow2Monotone(8, 64);
    Pow2Monotone(8, 128);
  }

  lemma Twice127()
    ensures Pow2(128) == 2 * Pow2(127)
  {
  }

  lemma MulXBound(v: nat)
    ensures MulX(v) < Pow2(128)
  {
    hide Pow2, Xor;
    Twice127();
    Constant87();
    XorBound(2 * (v % Pow2(127)), if v / Pow2(127) == 1 then 0x87 else 0, 128);
  }

  /** Below 2^127 nothing is folded. */
  lemma MulXDouble(v: nat)
    requires v < Pow2(127)
    ensures MulX(v) == 2 * v
  {
    hide Pow2, Xor;
    DivModOf(v, Pow2(127), 0, v);
    XorZero(2 * v);
  }

  lemma MulXParts(low: nat, bit: nat)
    requires low < Pow2(127) && bit < 2
    ensures Pow2(127) * bit >= 0
    ensures MulX(low + Pow2(127) * bit) == Xor(2 * low, if bit == 1 then 0x87 else 0)
  {
    hide Pow2, Xor;
    MulMono(Pow2(127), 0, bit);
    DivModOf(low + Pow2(127) * bit, Pow2(127), bit, low);
  }

  lemma TopBit(v: nat) returns (low: nat, bit: nat)
    requires v < Pow2(128)
    ensures low < Pow2(127) && bit < 2 && Pow2(127) * bit >= 0 && v == low + Pow2(127) * bit
  {
    hide *;
    Twice127();
    DivSmall(v, Pow2(127), 2);
    low, bit := v % Pow2(127), v / Pow2(127);
  }

  lemma MulXLinear(u: nat, v: nat)
    requires u < Pow2(128) && v < Pow2(128)
    ensures MulX(Xor(u, v)) == Xor(MulX(u), MulX(v))
  {
    hide *;
    var u0, ub := TopBit(u);
    var v0, vb := TopBit(v);
    XorSplit(u0, ub, v0, vb, 127);
    MulXParts(u0, ub);
    MulXParts(v0, vb);
    BitXor(ub, vb);
    MulXParts(Xor(u0, v0), Xor(ub, vb));
    XorDouble(u0, v0);
    XorInterchange(2 * u0, if ub == 1 then 0x87 else 0, 2 * v0, if vb == 1 then 0x87 else 0);
    XorSelf(0x87);
    XorZero(0x87);
    XorZero(0);
  }

  lemma BitXor(a: nat, b: nat)
    requires a < 2 && b < 2
    ensures Xor(a, b) == if a == b then 0 else 1
  {
    XorSelf(a);
    XorZero(1);
  }

  lemma {:induction false} RemBound(a: nat)
    ensures Rem(a) < Pow2(128)
  {
    hide Pow2, MulX, Xor;
    Constant87();
    if a > 0 {
      MulXBound(Rem(a / 2));
      XorBound(a % 2, MulX(Rem(a / 2)), 128);
    }
  }

  /** A reduced value is its own remainder. */
  lemma {:induction false} RemSmall(a: nat)
    requires a < Pow2(128)
    ensures Rem(a) == a
  {
    hide MulX, Xor, Rem, Pow2;
    RemStep(a);
    if a > 0 {
      Twice127();
      RemSmall(a / 2);
      MulXDouble(a / 2);
      XorLowBit(a);
    }
  }

  lemma {:induction false} RemLinear(a: nat, b: nat)
    ensures Rem(Xor(a, b)) == Xor(Rem(a), Rem(b))
    decreases a
  {
    hide *;
    RemStep(a);
    RemStep(b);
    RemStep(Xor(a, b));
    if a > 0 {
      RemLinear(a / 2, b / 2);
      XorStep(a, b);
      RemBound(a / 2);
      RemBound(b / 2);
      var p, q := Rem(a / 2), Rem(b / 2);
      MulXLinear(p, q);
      XorInterchange(a % 2, MulX(p), b % 2, MulX(q));
      BitXor(a % 2, b % 2);
      BitSum(a % 2, b % 2);
    } else {
      XorZero(b);
      XorZero(Rem(b));
    }
  }

  lemma BitSum(a: nat, b: nat)
    requires a < 2 && b < 2
    ensures AddBit(a, b) == if a == b then 0 else 1
  {
  }

  lemma RemDouble(a: nat)
    ensures Rem(2 * a) == MulX(Rem(a))
  {
    hide MulX, Xor, Rem;
    RemStep(2 * a);
    XorZero(MulX(Rem(a)));
  }

  /** x^128 is x^7 + x^2 + x + 1. */
  lemma RemTop()
    ensures Rem(Pow2(128)) == 0x87
  {
    assert Pow2(128) == 2 * Pow2(127) && 0 <= Pow2(127) < Pow2(128);
    hide *;
    RemDouble(Pow2(127));
    RemSmall(Pow2(127));
    Zero127();
    MulXParts(0, 1);
    XorZero(0x87);
    TopProduct();
  }

  lemma Zero127()
    ensures 0 < Pow2(127)
  {
  }

  lemma TopProduct()
    ensures 0 + Pow2(127) * 1 == Pow2(127)
  {
  }

  /** A multiple of x^128 folds back through 0x87. */
  lemma {:induction false} FoldHigh(h: nat)
    ensures Pow2(128) * h >= 0 && Rem(Pow2(128) * h) == Rem(Clmul(h, 0x87))
    decreases h
  {
    hide *;
    MulMono(Pow2(128), 0, h);
    ClmulStep(h, 0x87);
    ClmulStep(0, 0x87);
    if h > 0 {
      var t := h / 2;
      FoldHigh(t);
      XorLowBit(h);
      XorShift(h % 2, 2 * t, 128);
      MulSwap(Pow2(128), 2, t);
      RemLinear(Pow2(128) * (h % 2), Pow2(128) * (2 * t));
      RemDouble(Pow2(128) * t);
      RemTop();
      RemLinear(if h % 2 == 1 then 0x87 else 0, 2 * Clmul(t, 0x87));
      RemDouble(Clmul(t, 0x87));
      Constant87();
      RemSmall(0x87);
      BitTimes(Pow2(128), h % 2);
    } else {
      ZeroTimes(Pow2(128));
    }
  }

  lemma ZeroTimes(p: int)
    ensures p * 0 == 0
  {
  }

  lemma BitTimes(p: int, bit: int)
    requires 0 <= bit < 2
    ensures p * bit == if bit == 1 then p else 0
  {
  }

  // ---------------------------------------------------------------------------
  // Block multiplication is multiplication with remainder
  // ---------------------------------------------------------------------------

  lemma {:induction false} DotBound(x: nat, y: nat)
    requires y < Pow2(128)
    ensures Dot(x, y) < Pow2(128)
    decreases x
  {
    hide *;
    DotStep(x, y);
    Constant87();
    if x > 0 {
      MulXBound(y);
      DotBound(x / 2, MulX(y));
      XorBound(if x % 2 == 1 then y else 0, Dot(x / 2, MulX(y)), 128);
    } else {
      DotStep(0, y);
    }
  }

  lemma {:induction false} DotMulX(x: nat, y: nat)
    requires y < Pow2(128)
    ensures Dot(x, MulX(y)) == MulX(Dot(x, y))
    decreases x
  {
    hide *;
    DotStep(x, y);
    DotStep(x, MulX(y));
    MulXZero();
    DotStep(0, y);
    DotStep(0, MulX(y));
    if x > 0 {
      MulXBound(y);
      DotMulX(x / 2, MulX(y));
      DotBound(x / 2, MulX(y));
      Constant87();
      MulXLinear(if x % 2 == 1 then y else 0, Dot(x / 2, MulX(y)));
    }
  }

  lemma {:induction false} DotIsRem(x: nat, y: nat)
    ensures Rem(Clmul(x, y)) == Dot(x, Rem(y))
    decreases x
  {
    hide *;
    ClmulStep(x, y);
    ClmulStep(0, y);
    DotStep(x, Rem(y));
    DotStep(0, Rem(y));
    RemStep(0);
    if x > 0 {
      DotIsRem(x / 2, y);
      RemLinear(if x % 2 == 1 then y else 0, 2 * Clmul(x / 2, y));
      RemDouble(Clmul(x / 2, y));
      RemBound(y);
      DotMulX(x / 2, Rem(y));
    }
  }

  lemma DotRem(x: nat, y: nat)
    requires y < Pow2(128)
    ensures Dot(x, y) == Rem(Clmul(x, y))
  {
    hide *;
    DotIsRem(x, y);
    RemSmall(y);
  }

  lemma DotComm(x: nat, y: nat)
    requires x < Pow2(128) && y < Pow2(128)
    ensures Dot(x, y) == Dot(y, x)
  {
    hide *;
    DotRem(x, y);
    DotRem(y, x);
    ClmulComm(x, y);
  }

  lemma DotAssoc(x: nat, y: nat, z: nat)
    requires x < Pow2(128) && y < Pow2(128) && z < Pow2(128)
    ensures Dot(Dot(x, y), z) == Dot(x, Dot(y, z))
  {
    hide *;
    DotBound(x, y);
    DotBound(y, z);
    DotComm(Dot(x, y), z);
    DotRem(x, y);
    DotIsRem(z, Clmul(x, y));
    ClmulComm(z, Clmul(x, y));
    ClmulAssoc(x, y, z);
    DotRem(y, z);
    DotIsRem(x, Clmul(y, z));
  }

  lemma DotXor(x: nat, y: nat, z: nat)
    requires z < Pow2(128)
    ensures Dot(Xor(x, y), z) == Xor(Dot(x, z), Dot(y, z))
  {
    hide *;
    DotRem(x, z);
    DotRem(y, z);
    DotRem(Xor(x, y), z);
    ClmulXorLeft(x, y, z);
    RemLinear(Clmul(x, z), Clmul(y, z));
  }

  lemma DotOne(x: nat)
    requires x < Pow2(128)
    ensures Dot(x, 1) == x && 1 < Pow2(128)
  {
    hide *;
    Constant87();
    DotRem(x, 1);
    ClmulUnits(x);
    RemSmall(x);
  }

  // ---------------------------------------------------------------------------
  // The carry-less multiply of the code
  // ---------------------------------------------------------------------------

  function Lo(v: nat): nat {
    v % Pow2(64)
  }

  function Hi(v: nat): nat {
    DivBound(v, Pow2(64));
    v / Pow2(64)
  }

  /** The low lane moved to the high lane: `vext(zero, v, 8)`. */
  function LoUp(v: nat): (r: nat) {
    MulMono(Pow2(64), 0, Lo(v));
    Pow2(64) * Lo(v)
  }

  /** An unreduced 256-bit product. */
  datatype Unreduced = Unreduced(low: nat, high: nat) {
    function Add(other: Unreduced): Unreduced {
      Unreduced(Xor(low, other.low), Xor(high, other.high))
    }

    ghost predicate Fits() {
      low < Pow2(128) && high < Pow2(128)
    }

    ghost function Value(): nat {
      MulMono(Pow2(128), 0, high);
      low + Pow2(128) * high
    }
  }

  /** Karatsuba: three 64x64 products. */
  function GfMulWide(a: nat, b: nat): Unreduced {
    var low, high := Clmul(Lo(a), Lo(b)), Clmul(Hi(a), Hi(b));
    var middle := Xor(Xor(Clmul(Xor(Lo(a), Hi(a)), Xor(Lo(b), Hi(b))), low), high);
    Unreduced(Xor(low, LoUp(middle)), Xor(high, Hi(middle)))
  }

  /** Two folds through 0x87. */
  function GfReduce(product: Unreduced): nat {
    var foldLo, foldHi := Clmul(Lo(product.high), 0x87), Clmul(Hi(product.high), 0x87);
    var result := Xor(Xor(product.low, foldLo), LoUp(foldHi));
    var second := Clmul(Hi(foldHi), 0x87);
    Xor(result, second)
  }

  function GfMul(a: nat, b: nat): nat {
    GfReduce(GfMulWide(a, b))
  }

  lemma SquareOf64()
    ensures Pow2(64) * Pow2(64) == Pow2(128)
  {
    Pow2Add(64, 64);
  }

  /** A value is the sum of its lanes. */
  lemma Lanes(v: nat)
    ensures Lo(v) < Pow2(64) && Pow2(64) * Hi(v) >= 0 && v == Xor(Lo(v), Pow2(64) * Hi(v))
    ensures v < Pow2(128) ==> Hi(v) < Pow2(64)
  {
    hide Pow2, Xor;
    SquareOf64();
    XorDisjoint(Lo(v), Hi(v), 64);
    if v < Pow2(128) {
      DivSmall(v, Pow2(64), Pow2(64));
    }
  }

  /** Shifting up by a lane splits into the part that stays and the part that spills. */
  lemma ShiftLanes(v: nat)
    ensures Pow2(64) * v >= 0 && Pow2(128) * Hi(v) >= 0
    ensures Pow2(64) * v == Xor(LoUp(v), Pow2(128) * Hi(v))
  {
    hide Pow2, Xor, Lo, Hi;
    Lanes(v);
    SquareOf64();
    XorShift(Lo(v), Pow2(64) * Hi(v), 64);
    MulAssoc(Pow2(64), Pow2(64), Hi(v));
  }

  lemma LoUpBound(v: nat)
    ensures LoUp(v) < Pow2(128)
  {
    hide Pow2;
    SquareOf64();
    MulMono(Pow2(64), Lo(v), Pow2(64) - 1);
    assert Pow2(64) * (Pow2(64) - 1) == Pow2(64) * Pow2(64) - Pow2(64);
  }

  /** The cross terms: (a0 + a1)(b0 + b1) + a0 b0 + a1 b1. */
  lemma CrossTerms(a0: nat, a1: nat, b0: nat, b1: nat)
    ensures var low, high := Clmul(a0, b0), Clmul(a1, b1);
      Xor(Xor(Clmul(Xor(a0, a1), Xor(b0, b1)), low), high) == Xor(Clmul(a0, b1), Clmul(a1, b0))
  {
    hide *;
    ClmulXorLeft(a0, a1, Xor(b0, b1));
    ClmulXorRight(a0, b0, b1);
    ClmulXorRight(a1, b0, b1);
    var p, q, r, s := Clmul(a0, b0), Clmul(a0, b1), Clmul(a1, b0), Clmul(a1, b1);
    XorComm(p, q);
    XorInterchange(q, p, r, s);
    XorComm(p, s);
    XorAssoc(Xor(q, r), s, p);
    XorAssoc(Xor(q, r), Xor(s, p), p);
    XorCancel(s, p);
    XorAssoc(Xor(q, r), s, s);
    XorCancel(Xor(q, r), s);
  }

  /** Schoolbook multiplication of two lane pairs. */
  lemma Schoolbook(a0: nat, a1: nat, b0: nat, b1: nat, k: nat)
    ensures Pow2(k) * a1 >= 0 && Pow2(k) * b1 >= 0
    ensures var m := Xor(Clmul(a0, b1), Clmul(a1, b0));
      && Pow2(k) * m >= 0 && Pow2(k) * (Pow2(k) * Clmul(a1, b1)) >= 0
      && Clmul(Xor(a0, Pow2(k) * a1), Xor(b0, Pow2(k) * b1))
         == Xor(Xor(Clmul(a0, b0), Pow2(k) * m), Pow2(k) * (Pow2(k) * Clmul(a1, b1)))
  {
    hide *;
    MulMono(Pow2(k), 0, a1);
    MulMono(Pow2(k), 0, b1);
    var sa, sb := Pow2(k) * a1, Pow2(k) * b1;
    ClmulXorLeft(a0, sa, Xor(b0, sb));
    ClmulXorRight(a0, b0, sb);
    ClmulShift(a1, Xor(b0, sb), k);
    ClmulXorRight(a1, b0, sb);
    ClmulComm(a0, sb);
    ClmulShift(b1, a0, k);
    ClmulComm(b1, a0);
    ClmulComm(a1, sb);
    ClmulShift(b1, a1, k);
    ClmulComm(b1, a1);
    var p, q, r, s := Clmul(a0, b0), Clmul(a0, b1), Clmul(a1, b0), Clmul(a1, b1);
    XorShift(r, Pow2(k) * s, k);
    XorShift(q, r, k);
    XorAssoc(Xor(p, Pow2(k) * q), Pow2(k) * r, Pow2(k) * (Pow2(k) * s));
    XorAssoc(p, Pow2(k) * q, Pow2(k) * r);
  }

  /** Karatsuba computes the whole carry-less product. */
  lemma MulWideValue(a: nat, b: nat)
    requires a < Pow2(128) && b < Pow2(128)
    ensures GfMulWide(a, b).Fits() && GfMulWide(a, b).Value() == Clmul(a, b)
  {
    hide Pow2, Xor, Clmul, Lo, Hi, LoUp;
    var a0, a1, b0, b1 := Lo(a), Hi(a), Lo(b), Hi(b);
    var low, high := Clmul(a0, b0), Clmul(a1, b1);
    var middle := Xor(Xor(Clmul(Xor(a0, a1), Xor(b0, b1)), low), high);
    Lanes(a);
    Lanes(b);
    WideBounds(a0, a1, b0, b1, middle);
    Schoolbook(a0, a1, b0, b1, 64);
    CrossTerms(a0, a1, b0, b1);
    SquareOf64();
    MulAssoc(Pow2(64), Pow2(64), high);
    Recombine(low, middle, high);
  }

  lemma WideBounds(a0: nat, a1: nat, b0: nat, b1: nat, middle: nat)
    requires a0 < Pow2(64) && a1 < Pow2(64) && b0 < Pow2(64) && b1 < Pow2(64)
    requires middle == Xor(Xor(Clmul(Xor(a0, a1), Xor(b0, b1)), Clmul(a0, b0)), Clmul(a1, b1))
    ensures Xor(Clmul(a0, b0), LoUp(middle)) < Pow2(128) && Xor(Clmul(a1, b1), Hi(middle)) < Pow2(128)
  {
    hide Pow2, Xor, Clmul, Lo, LoUp;
    ClmulBound(a0, b0, 64, 64);
    ClmulBound(a1, b1, 64, 64);
    XorBound(a0, a1, 64);
    XorBound(b0, b1, 64);
    ClmulBound(Xor(a0, a1), Xor(b0, b1), 64, 64);
    XorBound(Clmul(Xor(a0, a1), Xor(b0, b1)), Clmul(a0, b0), 128);
    XorBound(Xor(Clmul(Xor(a0, a1), Xor(b0, b1)), Clmul(a0, b0)), Clmul(a1, b1), 128);
    DivBound(middle, Pow2(64));
    LoUpBound(middle);
    XorBound(Clmul(a0, b0), LoUp(middle), 128);
    XorBound(Clmul(a1, b1), Hi(middle), 128);
  }

  /** The middle term straddles the two halves. */
  lemma Recombine(low: nat, middle: nat, high: nat)
    requires Xor(low, LoUp(middle)) < Pow2(128)
    ensures Pow2(128) * Xor(high, Hi(middle)) >= 0 && Pow2(64) * middle >= 0 && Pow2(128) * high >= 0
    ensures Xor(low, LoUp(middle)) + Pow2(128) * Xor(high, Hi(middle))
         == Xor(Xor(low, Pow2(64) * middle), Pow2(128) * high)
  {
    hide Pow2, Xor, Lo, Hi, LoUp;
    var u, t := LoUp(middle), Hi(middle);
    XorDisjoint(Xor(low, u), Xor(high, t), 128);
    ShiftLanes(middle);
    XorShift(high, t, 128);
    XorComm(high, t);
    XorShift(t, high, 128);
    XorAssoc(Xor(low, u), Pow2(128) * t, Pow2(128) * high);
    XorAssoc(low, u, Pow2(128) * t);
  }

  lemma LaneBounds(high: nat)
    requires high < Pow2(128)
    ensures var foldLo, foldHi := Clmul(Lo(high), 0x87), Clmul(Hi(high), 0x87);
      foldLo < Pow2(128) && foldHi < Pow2(72) && Clmul(Hi(foldHi), 0x87) < Pow2(128)
  {
    hide Pow2, Xor, Clmul, Lo;
    Lanes(high);
    Constant87();
    var foldHi := Clmul(Hi(high), 0x87);
    ClmulBound(Lo(high), 0x87, 64, 64);
    ClmulBound(Hi(high), 0x87, 64, 8);
    Pow2Add(64, 8);
    Pow2Monotone(8, 64);
    DivSmall(foldHi, Pow2(64), Pow2(8));
    ClmulBound(Hi(foldHi), 0x87, 64, 64);
  }

  /** Two folds are the whole reduction. */
  lemma ReduceIsRem(u: Unreduced)
    requires u.Fits()
    ensures GfReduce(u) == Rem(u.Value())
  {
    hide Pow2, Xor, Clmul, Lo, Hi, LoUp, Rem;
    var foldLo, foldHi := Clmul(Lo(u.high), 0x87), Clmul(Hi(u.high), 0x87);
    var spill := Hi(foldHi);
    LaneBounds(u.high);
    XorDisjoint(u.low, u.high, 128);
    RemLinear(u.low, Pow2(128) * u.high);
    RemSmall(u.low);
    FoldHigh(u.high);
    Lanes(u.high);
    ClmulXorLeft(Lo(u.high), Pow2(64) * Hi(u.high), 0x87);
    ClmulShift(Hi(u.high), 0x87, 64);
    RemLinear(foldLo, Pow2(64) * foldHi);
    RemSmall(foldLo);
    ShiftLanes(foldHi);
    RemLinear(LoUp(foldHi), Pow2(128) * spill);
    LoUpBound(foldHi);
    RemSmall(LoUp(foldHi));
    FoldHigh(spill);
    RemSmall(Clmul(spill, 0x87));
    XorAssoc(u.low, foldLo, Xor(LoUp(foldHi), Clmul(spill, 0x87)));
    XorAssoc(Xor(u.low, foldLo), LoUp(foldHi), Clmul(spill, 0x87));
  }

  /** The code's multiplication is the standard's block multiplication. */
  lemma GfMulIsDot(a: nat, b: nat)
    requires a < Pow2(128) && b < Pow2(128)
    ensures GfMul(a, b) == Dot(a, b)
  {
    hide Pow2, Xor, Clmul, GfMulWide, GfReduce, Unreduced.Fits, Unreduced.Value, Rem, Dot;
    MulWideValue(a, b);
    ReduceIsRem(GfMulWide(a, b));
    DotRem(a, b);
  }

  /** Unreduced products may be summed before one reduction. */
  lemma AddValue(u: Unreduced, v: Unreduced)
    requires u.Fits() && v.Fits()
    ensures u.Add(v).Fits() && Rem(u.Add(v).Value()) == Xor(Rem(u.Value()), Rem(v.Value()))
  {
    hide *;
    AddParts(u, v);
    RemLinear(u.Value(), v.Value());
  }

  lemma AddParts(u: Unreduced, v: Unreduced)
    requires u.Fits() && v.Fits()
    ensures u.Add(v).Fits() && u.Add(v).Value() == Xor(u.Value(), v.Value())
  {
    hide Pow2, Xor;
    XorSplit(u.low, u.high, v.low, v.high, 128);
    XorBound(u.low, v.low, 128);
    XorBound(u.high, v.high, 128);
  }
}
