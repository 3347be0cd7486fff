/** Powers modulo p, and the two addition chains of field/pow.rs. */
module FieldPow {
  import opened Arith
  import opened Bytes
  import opened FieldLimbs
  import opened FieldLoops

  /** x^e modulo p. */
  function Pow(x: int, e: nat): (r: int)
    ensures 0 <= r < P
    decreases e, x
  {
    if e == 0 then 1 else Mod(x * Pow(x, e - 1))
  }

  /** Multiplication may reduce either factor first. */
  lemma ModMul(a: int, b: int)
    ensures Mod(Mod(a) * b) == Mod(a * b)
    ensures Mod(a * Mod(b)) == Mod(a * b)
    ensures Mod(Mod(a) * Mod(b)) == Mod(a * b)
  {
    var qa, qb := a / P, b / P;
    ModQuotient(a);
    ModQuotient(b);
    ModMulBy(Mod(a), b, qa);
    ModMulBy(Mod(b), a, qb);
    ModMulBy(Mod(a), Mod(b), 0);
    ModMulBy(Mod(b), Mod(a), qb);
  }

  lemma ModMulBy(r: int, b: int, q: int)
    ensures Mod((P * q + r) * b) == Mod(r * b)
    ensures Mod(b * (P * q + r)) == Mod(b * r)
  {
    assert (P * q + r) * b == r * b + (q * b) * P;
    ModShift((P * q + r) * b, r * b, q * b);
  }

  lemma ModAdd(a: int, b: int)
    ensures Mod(Mod(a) + b) == Mod(a + b) && Mod(Mod(a) + Mod(b)) == Mod(a + b)
    ensures Mod(a - Mod(b)) == Mod(a - b) && Mod(Mod(a) - Mod(b)) == Mod(a - b)
  {
    ModQuotient(a);
    ModQuotient(b);
    ModShift(a + b, Mod(a) + b, a / P);
    ModShift(a + b, Mod(a) + Mod(b), a / P + b / P);
    ModShift(a - Mod(b), a - b, b / P);
    ModShift(a - b, Mod(a) - Mod(b), a / P - b / P);
  }

  lemma {:induction false} PowAdd(x: int, i: nat, j: nat)
    ensures Pow(x, i + j) == Mod(Pow(x, i) * Pow(x, j))
  {
    if i == 0 {
      ModSmall(Pow(x, j));
    } else {
      PowAdd(x, i - 1, j);
      var a, b := Pow(x, i - 1), Pow(x, j);
      ModMul(x, a * b);
      ModMul(x * a, b);
      MulAssoc(x, a, b);
    }
  }

  lemma ModSmall(x: int)
    requires 0 <= x < P
    ensures Mod(x) == x
  {
    ModIs(x);
  }

  /** `f` is the e-th power of x. */
  ghost predicate IsPow(f: Fe, x: int, e: nat) {
    Ok(f) && Mod(Val(f)) == Pow(x, e)
  }

  lemma MulIsPow(f: Fe, g: Fe, x: int, i: nat, j: nat)
    requires IsPow(f, x, i) && IsPow(g, x, j)
    ensures IsPow(Mul(f, g), x, i + j)
  {
    hide Mul, Val, Pow, Mod;
    PowAdd(x, i, j);
    ModMul(Val(f), Val(g));
  }

  lemma {:induction false} SquareNIsPow(f: Fe, x: int, e: nat, n: nat)
    requires Ok(f) && IsPow(f, x, e)
    ensures e * Pow2(n) >= 0 && IsPow(SquareN(f, n), x, e * Pow2(n))
  {
    hide *;
    PowersOfTwo(e, n);
    if n == 0 {
      SquareNZero(f);
    } else {
      SquareNIsPow(f, x, e, n - 1);
      SquareNStep(f, n);
      var k := e * Pow2(n - 1);
      MulIsPow(SquareN(f, n - 1), SquareN(f, n - 1), x, k, k);
    }
  }

  lemma PowersOfTwo(e: nat, n: nat)
    ensures e * Pow2(n) >= 0
    ensures if n == 0 then e * Pow2(n) == e else e * Pow2(n) == e * Pow2(n - 1) + e * Pow2(n - 1)
  {
    MulMono(e, 0, Pow2(n));
  }

  lemma SquareNZero(f: Fe)
    requires Ok(f)
    ensures SquareN(f, 0) == f
  {
  }

  lemma SquareNStep(f: Fe, n: nat)
    requires Ok(f) && n > 0
    ensures SquareN(f, n) == Mul(SquareN(f, n - 1), SquareN(f, n - 1))
  {
    hide Mul;
  }

  /** One step of both chains: x^(2^n - 1) squared m times and multiplied by x^(2^m - 1) is x^(2^(n + m) - 1). */
  function ChainStep(f: Fe, g: Fe, m: nat): (r: Fe)
    requires Ok(f) && Ok(g)
    ensures Ok(r)
  {
    Mul(SquareN(f, m), g)
  }

  lemma ChainStepIsPow(f: Fe, g: Fe, x: int, n: nat, m: nat)
    requires Ok(f) && Ok(g) && IsPow(f, x, Pow2(n) - 1) && IsPow(g, x, Pow2(m) - 1)
    ensures IsPow(ChainStep(f, g, m), x, Pow2(n + m) - 1)
  {
    hide IsPow, Mul, SquareN;
    SquareNIsPow(f, x, Pow2(n) - 1, m);
    MulIsPow(SquareN(f, m), g, x, (Pow2(n) - 1) * Pow2(m), Pow2(m) - 1);
    Pow2Add(n, m);
    assert (Pow2(n) - 1) * Pow2(m) + (Pow2(m) - 1) == Pow2(n + m) - 1;
  }

  /** 2^250 - 1. */
  const EXPONENT250: nat := (P + 19) / 32 - 1

  /** The shared head of the chains: x^11 and x^(2^250 - 1). */
  function ChainHead(z1: Fe): (r: (Fe, Fe))
    requires Ok(z1)
    ensures Ok(r.0) && Ok(r.1)
  {
    hide *;
    var z2 := Square(z1);
    var z8 := SquareN(z2, 2);
    var z9 := Mul(z1, z8);
    var z11 := Mul(z2, z9);
    var z22 := Square(z11);
    var z_5_0 := Mul(z9, z22);
    var z_10_0 := ChainStep(z_5_0, z_5_0, 5);
    var z_20_0 := ChainStep(z_10_0, z_10_0, 10);
    var z_40_0 := ChainStep(z_20_0, z_20_0, 20);
    var z_50_0 := ChainStep(z_40_0, z_10_0, 10);
    var z_100_0 := ChainStep(z_50_0, z_50_0, 50);
    var z_200_0 := ChainStep(z_100_0, z_100_0, 100);
    (z11, ChainStep(z_200_0, z_50_0, 50))
  }

  lemma FirstPower(f: Fe)
    requires Ok(f)
    ensures IsPow(f, Val(f), 1)
  {
    assert Pow(Val(f), 1) == Mod(Val(f) * Pow(Val(f), 0));
  }

  lemma SmallPowers()
    ensures Pow2(2) == 4 && Pow2(5) == 32
  {
  }

  lemma ChainHeadIsPow(z1: Fe)
    requires Ok(z1)
    ensures IsPow(ChainHead(z1).0, Val(z1), 11)
    ensures IsPow(ChainHead(z1).1, Val(z1), EXPONENT250)
  {
    hide IsPow, Mul, Square, SquareN, ChainStep, Pow, Pow2, Val, Ok;
    var x := Val(z1);
    FirstPower(z1);
    SmallPowers();
    Pow2_250();
    var z2 := Square(z1);
    MulIsPow(z1, z1, x, 1, 1);
    var z8 := SquareN(z2, 2);
    SquareNIsPow(z2, x, 2, 2);
    var z9 := Mul(z1, z8);
    MulIsPow(z1, z8, x, 1, 8);
    var z11 := Mul(z2, z9);
    MulIsPow(z2, z9, x, 2, 9);
    var z22 := Square(z11);
    MulIsPow(z11, z11, x, 11, 11);
    var z_5_0 := Mul(z9, z22);
    MulIsPow(z9, z22, x, 9, 22);
    var z_10_0 := ChainStep(z_5_0, z_5_0, 5);
    ChainStepIsPow(z_5_0, z_5_0, x, 5, 5);
    var z_20_0 := ChainStep(z_10_0, z_10_0, 10);
    ChainStepIsPow(z_10_0, z_10_0, x, 10, 10);
    var z_40_0 := ChainStep(z_20_0, z_20_0, 20);
    ChainStepIsPow(z_20_0, z_20_0, x, 20, 20);
    var z_50_0 := ChainStep(z_40_0, z_10_0, 10);
    ChainStepIsPow(z_40_0, z_10_0, x, 40, 10);
    var z_100_0 := ChainStep(z_50_0, z_50_0, 50);
    ChainStepIsPow(z_50_0, z_50_0, x, 50, 50);
    var z_200_0 := ChainStep(z_100_0, z_100_0, 100);
    ChainStepIsPow(z_100_0, z_100_0, x, 100, 100);
    ChainStepIsPow(z_200_0, z_50_0, x, 200, 50);
  }

  lemma Pow2_250()
    ensures Pow2(250) == EXPONENT250 + 1
  {
    Pow2_50();
    hide Pow2;
    Pow2Add(50, 50);
    Pow2Add(100, 100);
    Pow2Add(200, 50);
  }

  lemma Pow2_50()
    ensures Pow2(50) == 0x4_0000_0000_0000
  {
    assert Pow2(10) == 0x400;
    hide Pow2;
    Pow2Add(10, 10);
    Pow2Add(20, 20);
    Pow2Add(40, 10);
  }

  /** `self^(p - 2)`. */
  function Invert(z1: Fe): (r: Fe)
    requires Ok(z1)
    ensures Ok(r)
  {
    hide *;
    var (z11, z_250_0) := ChainHead(z1);
    Mul(SquareN(z_250_0, 5), z11)
  }

  /** The inversion chain computes exactly the power p - 2. */
  lemma InvertIsPow(z1: Fe)
    requires Ok(z1)
    ensures IsPow(Invert(z1), Val(z1), P - 2)
  {
    hide Mul, SquareN, ChainHead, Pow2, Pow, Val, Ok, IsPow;
    var (z11, z_250_0) := ChainHead(z1);
    ChainHeadIsPow(z1);
    SmallPowers();
    SquareNIsPow(z_250_0, Val(z1), EXPONENT250, 5);
    MulIsPow(SquareN(z_250_0, 5), z11, Val(z1), EXPONENT250 * 32, 11);
  }

  const SQRT_EXPONENT: nat := (P - 5) / 8

  /** `self^((p - 5) / 8)`. */
  function PowP58(z1: Fe): (r: Fe)
    requires Ok(z1)
    ensures Ok(r)
  {
    hide *;
    var (z11, z_250_0) := ChainHead(z1);
    Mul(SquareN(z_250_0, 2), z1)
  }

  /** The square-root chain computes exactly the power (p - 5) / 8. */
  lemma PowP58IsPow(z1: Fe)
    requires Ok(z1)
    ensures IsPow(PowP58(z1), Val(z1), SQRT_EXPONENT)
  {
    hide Mul, SquareN, ChainHead, Pow2, Pow, Val, Ok, IsPow;
    var (z11, z_250_0) := ChainHead(z1);
    ChainHeadIsPow(z1);
    SmallPowers();
    FirstPower(z1);
    SquareNIsPow(z_250_0, Val(z1), EXPONENT250, 2);
    MulIsPow(SquareN(z_250_0, 2), z1, Val(z1), EXPONENT250 * 4, 1);
  }

  /** A power depends on the residue of its base only. */
  lemma {:induction false} PowMod(x: int, e: nat)
    ensures Pow(Mod(x), e) == Pow(x, e)
    decreases e
  {
    if e > 0 {
      PowMod(x, e - 1);
      ModMul(x, Pow(x, e - 1));
    }
  }

  /** (x * x)^k is x^(2k). */
  lemma {:induction false} PowSquare(x: int, k: nat)
    ensures Pow(x * x, k) == Pow(x, 2 * k)
    decreases k
  {
    if k > 0 {
      PowSquare(x, k - 1);
      var a := Pow(x, 2 * k - 2);
      PowTwoSteps(x, 2 * k - 2);
      MulAssoc(x, x, a);
    }
  }

  lemma PowTwoSteps(x: int, e: nat)
    ensures Pow(x, e + 2) == Mod(x * (x * Pow(x, e)))
  {
    assert Pow(x, e + 2) == Mod(x * Pow(x, e + 1)) && Pow(x, e + 1) == Mod(x * Pow(x, e));
    ModMul(x, x * Pow(x, e));
  }
}
