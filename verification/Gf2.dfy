/** Polynomials over GF(2), held as the integers whose bits are their coefficients. */
module Gf2 {
  import opened Arith
  import opened Bytes

  /** One coefficient of a sum. */
  function AddBit(u: int, v: int): (r: int)
    ensures 0 <= r < 2
  {
    (u + v) % 2
  }

  /** Addition of polynomials: exclusive or. */
  function Xor(a: nat, b: nat): nat
    decreases a, b
  {
    if a == 0 then b else AddBit(a % 2, b % 2) + 2 * Xor(a / 2, b / 2)
  }

  /** Carry-less multiplication. */
  function Clmul(a: nat, b: nat): nat
    decreases a, b
  {
    if a == 0 then 0 else Xor(if a % 2 == 1 then b else 0, 2 * Clmul(a / 2, b))
  }

  // ---------------------------------------------------------------------------
  // Exclusive or
  // ---------------------------------------------------------------------------

  lemma XorStep(a: nat, b: nat)
    ensures Xor(a, b) % 2 == AddBit(a % 2, b % 2) && Xor(a, b) / 2 == Xor(a / 2, b / 2)
  {
    hide Xor;
    XorHalves(a, b);
    if a > 0 {
      DivModOf(Xor(a, b), 2, Xor(a / 2, b / 2), AddBit(a % 2, b % 2));
    }
  }

  lemma XorHalves(a: nat, b: nat)
    ensures a == 0 ==> Xor(a, b) == b && Xor(a / 2, b / 2) == b / 2
    ensures a > 0 ==> Xor(a, b) == AddBit(a % 2, b % 2) + 2 * Xor(a / 2, b / 2)
  {
    hide AddBit;
  }

  lemma {:induction false} XorZero(a: nat)
    ensures Xor(a, 0) == a && Xor(0, a) == a
  {
    if a > 0 {
      XorZero(a / 2);
    }
  }

  lemma {:induction false} XorSelf(a: nat)
    ensures Xor(a, a) == 0
  {
    if a > 0 {
      XorSelf(a / 2);
    }
  }

  lemma {:induction false} XorComm(a: nat, b: nat)
    ensures Xor(a, b) == Xor(b, a)
    decreases a + b
  {
    if a > 0 && b > 0 {
      XorComm(a / 2, b / 2);
    } else {
      XorZero(a);
      XorZero(b);
    }
  }

  lemma BitAssoc(u: int, v: int, w: int)
    requires 0 <= u < 2 && 0 <= v < 2 && 0 <= w < 2
    ensures AddBit(AddBit(u, v), w) == AddBit(u, AddBit(v, w))
  {
  }

  lemma SameHalves(x: int, y: int)
    requires x % 2 == y % 2 && x / 2 == y / 2
    ensures x == y
  {
  }

  lemma {:induction false} XorAssoc(a: nat, b: nat, c: nat)
    ensures Xor(Xor(a, b), c) == Xor(a, Xor(b, c))
    decreases a
  {
    hide Xor, AddBit;
    if a > 0 {
      XorAssoc(a / 2, b / 2, c / 2);
      XorStep(a, b);
      XorStep(b, c);
      XorStep(Xor(a, b), c);
      XorStep(a, Xor(b, c));
      BitAssoc(a % 2, b % 2, c % 2);
      SameHalves(Xor(Xor(a, b), c), Xor(a, Xor(b, c)));
    } else {
      XorZero(b);
      XorZero(Xor(b, c));
    }
  }

  /** Exclusive or with the same value twice changes nothing. */
  lemma XorCancel(a: nat, b: nat)
    ensures Xor(Xor(a, b), b) == a
  {
    hide Xor;
    XorAssoc(a, b, b);
    XorSelf(b);
    XorZero(a);
  }

  lemma XorInterchange(a: nat, b: nat, c: nat, d: nat)
    ensures Xor(Xor(a, b), Xor(c, d)) == Xor(Xor(a, c), Xor(b, d))
  {
    hide Xor;
    XorAssoc(a, b, Xor(c, d));
    XorAssoc(b, c, d);
    XorComm(b, c);
    XorAssoc(c, b, d);
    XorAssoc(a, c, Xor(b, d));
  }

  lemma XorDouble(a: nat, b: nat)
    ensures Xor(2 * a, 2 * b) == 2 * Xor(a, b)
  {
    XorStep(2 * a, 2 * b);
  }

  lemma XorLowBit(a: nat)
    ensures Xor(a % 2, 2 * (a / 2)) == a
  {
    XorStep(a % 2, 2 * (a / 2));
  }

  /** Halves of a sum of split numbers are the sums of the halves. */
  lemma {:induction false} XorSplit(a: nat, b: nat, c: nat, d: nat, k: nat)
    requires a < Pow2(k) && c < Pow2(k)
    ensures Pow2(k) * b >= 0 && Pow2(k) * d >= 0
    ensures Xor(a, c) < Pow2(k)
    ensures Xor(a + Pow2(k) * b, c + Pow2(k) * d) == Xor(a, c) + Pow2(k) * Xor(b, d)
    decreases k
  {
    hide Xor;
    MulMono(Pow2(k), 0, b);
    MulMono(Pow2(k), 0, d);
    if k == 0 {
      XorZero(0);
    } else {
      var q := Pow2(k - 1);
      XorSplit(a / 2, b, c / 2, d, k - 1);
      XorStep(a, c);
      XorStep(a + Pow2(k) * b, c + Pow2(k) * d);
      HalfSplit(a, b, q);
      HalfSplit(c, d, q);
      MulAssoc(2, q, Xor(b, d));
    }
  }

  lemma HalfSplit(a: nat, b: nat, q: nat)
    ensures (a + 2 * q * b) / 2 == a / 2 + q * b && (a + 2 * q * b) % 2 == a % 2
  {
    assert 2 * q * b == 2 * (q * b);
  }

  lemma XorBound(a: nat, b: nat, k: nat)
    requires a < Pow2(k) && b < Pow2(k)
    ensures Xor(a, b) < Pow2(k)
  {
    XorSplit(a, 0, b, 0, k);
  }

  /** Numbers without a common bit: exclusive or is addition. */
  lemma XorDisjoint(a: nat, b: nat, k: nat)
    requires a < Pow2(k)
    ensures Pow2(k) * b >= 0 && Xor(a, Pow2(k) * b) == a + Pow2(k) * b
  {
    hide Xor;
    XorSplit(a, 0, 0, b, k);
    XorZero(a);
    XorZero(b);
  }

  lemma XorShift(a: nat, b: nat, k: nat)
    ensures Pow2(k) * a >= 0 && Pow2(k) * b >= 0 && Xor(Pow2(k) * a, Pow2(k) * b) == Pow2(k) * Xor(a, b)
  {
    hide Xor;
    XorSplit(0, a, 0, b, k);
    XorZero(0);
  }

  // ---------------------------------------------------------------------------
  // Carry-less multiplication
  // ---------------------------------------------------------------------------

  lemma ClmulStep(a: nat, b: nat)
    ensures Clmul(a, b) == Xor(if a % 2 == 1 then b else 0, 2 * Clmul(a / 2, b))
    ensures Clmul(0, b) == 0
  {
    XorZero(0);
  }

  lemma {:induction false} ClmulXorRight(a: nat, b: nat, c: nat)
    ensures Clmul(a, Xor(b, c)) == Xor(Clmul(a, b), Clmul(a, c))
    decreases a
  {
    hide Xor, Clmul;
    ClmulStep(a, Xor(b, c));
    ClmulStep(a, b);
    ClmulStep(a, c);
    XorZero(0);
    if a > 0 {
      ClmulXorRight(a / 2, b, c);
      var p, q := Clmul(a / 2, b), Clmul(a / 2, c);
      XorDouble(p, q);
      var x, y := if a % 2 == 1 then b else 0, if a % 2 == 1 then c else 0;
      XorInterchange(x, 2 * p, y, 2 * q);
    }
  }

  lemma ClmulDoubleLeft(a: nat, b: nat)
    ensures Clmul(2 * a, b) == 2 * Clmul(a, b)
  {
    hide Xor, Clmul;
    ClmulStep(2 * a, b);
    XorZero(2 * Clmul(a, b));
  }

  lemma {:induction false} ClmulXorLeft(a: nat, b: nat, c: nat)
    ensures Clmul(Xor(a, b), c) == Xor(Clmul(a, c), Clmul(b, c))
    decreases a
  {
    hide Xor, Clmul;
    if a == 0 {
      XorZero(b);
      ClmulStep(0, c);
      XorZero(Clmul(b, c));
    } else {
      ClmulXorLeft(a / 2, b / 2, c);
      XorStep(a, b);
      ClmulStep(Xor(a, b), c);
      ClmulStep(a, c);
      ClmulStep(b, c);
      var p, q := Clmul(a / 2, c), Clmul(b / 2, c);
      XorDouble(p, q);
      var x, y := if a % 2 == 1 then c else 0, if b % 2 == 1 then c else 0;
      XorInterchange(x, 2 * p, y, 2 * q);
      XorSelf(c);
      XorZero(c);
      XorZero(0);
    }
  }

  lemma {:induction false} ClmulUnits(a: nat)
    ensures Clmul(a, 0) == 0 && Clmul(a, 1) == a && Clmul(1, a) == a
    decreases a
  {
    hide Xor, Clmul;
    ClmulStep(a, 0);
    ClmulStep(a, 1);
    ClmulStep(1, a);
    ClmulStep(0, a);
    XorZero(a);
    XorZero(0);
    if a > 0 {
      ClmulUnits(a / 2);
      XorLowBit(a);
    }
  }

  lemma {:induction false} ClmulDoubleRight(a: nat, b: nat)
    ensures Clmul(a, 2 * b) == 2 * Clmul(a, b)
    decreases a
  {
    hide Xor, Clmul;
    ClmulStep(a, 2 * b);
    ClmulStep(a, b);
    if a > 0 {
      ClmulDoubleRight(a / 2, b);
      XorDouble(if a % 2 == 1 then b else 0, 2 * Clmul(a / 2, b));
    } else {
      ClmulStep(0, b);
    }
  }

  lemma {:induction false} ClmulComm(a: nat, b: nat)
    ensures Clmul(a, b) == Clmul(b, a)
    decreases a
  {
    hide Xor, Clmul;
    ClmulStep(a, b);
    ClmulUnits(b);
    if a > 0 {
      ClmulComm(a / 2, b);
      XorLowBit(a);
      ClmulXorRight(b, a % 2, 2 * (a / 2));
      ClmulDoubleRight(b, a / 2);
    } else {
      ClmulStep(0, b);
    }
  }

  lemma {:induction false} ClmulAssoc(a: nat, b: nat, c: nat)
    ensures Clmul(Clmul(a, b), c) == Clmul(a, Clmul(b, c))
    decreases a
  {
    hide Xor, Clmul;
    ClmulStep(a, b);
    ClmulStep(a, Clmul(b, c));
    ClmulStep(0, c);
    if a > 0 {
      ClmulAssoc(a / 2, b, c);
      ClmulXorLeft(if a % 2 == 1 then b else 0, 2 * Clmul(a / 2, b), c);
      ClmulDoubleLeft(Clmul(a / 2, b), c);
    } else {
      ClmulStep(0, b);
      ClmulStep(0, Clmul(b, c));
    }
  }

  lemma {:induction false} ClmulShift(a: nat, b: nat, k: nat)
    ensures Pow2(k) * a >= 0 && Pow2(k) * Clmul(a, b) >= 0
    ensures Clmul(Pow2(k) * a, b) == Pow2(k) * Clmul(a, b)
    decreases k
  {
    hide Xor, Clmul;
    MulMono(Pow2(k), 0, a);
    MulMono(Pow2(k), 0, Clmul(a, b));
    if k > 0 {
      ClmulShift(a, b, k - 1);
      MulAssoc(2, Pow2(k - 1), a);
      MulAssoc(2, Pow2(k - 1), Clmul(a, b));
      ClmulDoubleLeft(Pow2(k - 1) * a, b);
    }
  }

  lemma {:induction false} ClmulBound(a: nat, b: nat, m: nat, n: nat)
    requires a < Pow2(m) && b < Pow2(n)
    ensures Clmul(a, b) < Pow2(m + n)
    decreases m
  {
    hide Xor, Clmul;
    ClmulStep(a, b);
    ClmulStep(0, b);
    if m > 0 {
      assert Pow2(m) == 2 * Pow2(m - 1) && Pow2(m + n) == 2 * Pow2(m + n - 1);
      ClmulBound(a / 2, b, m - 1, n);
      Pow2Monotone(n, m + n);
      XorBound(if a % 2 == 1 then b else 0, 2 * Clmul(a / 2, b), m + n);
    }
  }

  // ---------------------------------------------------------------------------
  // Bytes
  // ---------------------------------------------------------------------------

  function XorByte(a: u8, b: u8): (r: u8)
    ensures r == Xor(a, b)
  {
    hide *;
    EightBits();
    XorBound(a, b, 8);
    Xor(a, b)
  }

  lemma XorByteTwice(a: u8, b: u8)
    ensures XorByte(XorByte(a, b), b) == a
  {
    hide Xor;
    XorCancel(a, b);
  }

  /** Bit i of an exclusive or is set exactly when bit i of one operand is and of the other is not. */
  lemma {:induction false} XorBitAt(a: nat, b: nat, i: nat)
    ensures Xor(a, b) / Pow2(i) % 2 == (if a / Pow2(i) % 2 == b / Pow2(i) % 2 then 0 else 1)
    decreases i
  {
    hide Xor, Pow2;
    XorStep(a, b);
    if i == 0 {
      LowestBit(a, b, Xor(a, b));
    } else {
      XorBitAt(a / 2, b / 2, i - 1);
      NextBit(Xor(a, b), i);
      NextBit(a, i);
      NextBit(b, i);
    }
  }

  lemma LowestBit(a: nat, b: nat, x: nat)
    requires x % 2 == AddBit(a % 2, b % 2)
    ensures x / Pow2(0) % 2 == (if a / Pow2(0) % 2 == b / Pow2(0) % 2 then 0 else 1)
  {
  }

  lemma NextBit(n: nat, i: nat)
    requires i > 0
    ensures n / Pow2(i) == (n / 2) / Pow2(i - 1)
  {
    DivDiv(n, 2, Pow2(i - 1));
  }
}
