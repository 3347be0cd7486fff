/** The limb operations as arithmetic on residues modulo p. */
module FieldResidues {
  import opened Arith
  import opened FieldLimbs
  import opened FieldPow

  /** The residue a field element stands for; `ResIs` opens the definition. */
  function Res(f: Fe): (r: int)
    ensures 0 <= r < P
  {
    FoldedRes(f, 2)
  }

  function FoldedRes(f: Fe, n: nat): (r: int)
    ensures 0 <= r < P
    decreases n, f
  {
    if n == 0 then Mod(Val(f)) else FoldedRes(f, n - 1)
  }

  lemma ResIs(f: Fe)
    ensures Res(f) == Mod(Val(f))
  {
    assert FoldedRes(f, 1) == FoldedRes(f, 0);
    assert FoldedRes(f, 2) == FoldedRes(f, 1);
  }

  function FMul(a: int, b: int): (r: int)
    ensures 0 <= r < P
  {
    Mod(a * b)
  }

  function FAdd(a: int, b: int): (r: int)
    ensures 0 <= r < P
  {
    Mod(a + b)
  }

  function FSub(a: int, b: int): (r: int)
    ensures 0 <= r < P
  {
    Mod(a - b)
  }

  function FNeg(a: int): (r: int)
    ensures 0 <= r < P
  {
    Mod(-a)
  }

  lemma ResMul(f: Fe, g: Fe)
    requires Ok(f) && Ok(g)
    ensures Res(Mul(f, g)) == FMul(Res(f), Res(g))
  {
    hide Mul, Val, Mod, Ok;
    ResIs(f);
    ResIs(g);
    ResIs(Mul(f, g));
    ModMul(Val(f), Val(g));
  }

  lemma ResSquare(f: Fe)
    requires Ok(f)
    ensures Res(Square(f)) == FMul(Res(f), Res(f))
  {
    hide Mul, Square, Val, Mod, Ok;
    ResIs(f);
    ResIs(Square(f));
    ModMul(Val(f), Val(f));
  }

  lemma ResAdd(f: Fe, g: Fe)
    requires Ok(f) && Ok(g)
    ensures Res(Add(f, g)) == FAdd(Res(f), Res(g))
  {
    hide Add, Val, Mod, Ok;
    ResIs(f);
    ResIs(g);
    ResIs(Add(f, g));
    ModAdd(Val(f), Val(g));
  }

  lemma ResSub(f: Fe, g: Fe)
    requires Ok(f) && Ok(g)
    ensures Res(Sub(f, g)) == FSub(Res(f), Res(g))
  {
    hide Sub, Val, Mod, Ok;
    ResIs(f);
    ResIs(g);
    ResIs(Sub(f, g));
    ModAdd(Val(f), Val(g));
  }

  lemma ResConstants()
    ensures Res(ZERO) == 0 && Res(ONE) == 1
  {
    ResIs(ZERO);
    ResIs(ONE);
    ModSmall(0);
    ModSmall(1);
  }

  lemma ResNeg(f: Fe)
    requires Ok(f)
    ensures Res(Neg(f)) == FNeg(Res(f))
  {
    hide Neg, Val, Ok, Mod;
    ResIs(f);
    ResIs(Neg(f));
    ModQuotient(Val(f));
    ModShift(-Val(f), -Mod(Val(f)), -(Val(f) / P));
  }

  lemma ResMul121666(f: Fe)
    requires Ok(f)
    ensures Res(Mul121666(f)) == FMul(121666, Res(f))
  {
    hide Mul121666, Val, Mod, Ok;
    ResIs(f);
    ResIs(Mul121666(f));
    ModMul(121666, Val(f));
  }

  /** Congruent integers stay congruent under multiplication by anything. */
  lemma ModTimes(a: int, b: int, c: int)
    requires Mod(a) == Mod(b)
    ensures Mod(a * c) == Mod(b * c) && Mod(c * a) == Mod(c * b)
  {
    hide Mod;
    ModMul(a, c);
    ModMul(b, c);
    ModMul(c, a);
    ModMul(c, b);
  }

  lemma ModPlus(a: int, b: int, c: int)
    requires Mod(a) == Mod(b)
    ensures Mod(a + c) == Mod(b + c) && Mod(a - c) == Mod(b - c) && Mod(c - a) == Mod(c - b)
  {
    hide Mod;
    ModQuotient(a);
    ModQuotient(b);
    ModShift(a + c, b + c, a / P - b / P);
    ModShift(a - c, b - c, a / P - b / P);
    ModShift(c - a, c - b, b / P - a / P);
  }

  lemma ModIdem(a: int)
    ensures Mod(Mod(a)) == Mod(a)
  {
    ModSmall(Mod(a));
  }

  // Field operations on residues of known integers.

  lemma FMulOf(a: int, b: int, x: int, y: int)
    requires a == Mod(x) && b == Mod(y)
    ensures FMul(a, b) == Mod(x * y)
  {
    hide Mod;
    ModMul(x, y);
  }

  lemma FAddOf(a: int, b: int, x: int, y: int)
    requires a == Mod(x) && b == Mod(y)
    ensures FAdd(a, b) == Mod(x + y)
  {
    hide Mod;
    ModAdd(x, y);
  }

  lemma FSubOf(a: int, b: int, x: int, y: int)
    requires a == Mod(x) && b == Mod(y)
    ensures FSub(a, b) == Mod(x - y)
  {
    hide Mod;
    ModAdd(x, y);
  }
}
