/** The curve formulas over residues modulo p: what point.rs and niels.rs compute, without limbs. */
module EdwardsFormulas {
  import opened FieldLimbs
  import opened FieldPow
  import opened FieldResidues

  /** Extended coordinates (X : Y : Z : T). */
  datatype Quad = Quad(x: int, y: int, z: int, t: int)

  /** A sum or double before it is multiplied back: x = E / G, y = H / F. */
  datatype Completed = Completed(e: int, h: int, f: int, g: int)

  /** A cached addend: Y + X, Y - X, Z, 2dT. */
  datatype Niels = Niels(plus: int, minus: int, z: int, t2d: int)

  /** d = -121665 / 121666 and 2d. */
  const DRES: int := 0x52036cee2b6ffe738cc740797779e89800700a4d4141d8ab75eb4dca135978a3
  const D2RES: int := 0x2406d9dc56dffce7198e80f2eef3d13000e0149a8283b156ebd69b9426b2f159

  lemma CurveConstants()
    ensures Mod(DRES * 121666) == Mod(-121665) && D2RES == Mod(2 * DRES)
  {
    ModIs(DRES * 121666);
    ModIs(-121665);
    ModIs(2 * DRES);
  }

  function ToExtended(c: Completed): Quad {
    Quad(FMul(c.e, c.f), FMul(c.g, c.h), FMul(c.f, c.g), FMul(c.e, c.h))
  }

  /** `add-2008-hwcd-3` up to the completed coordinates. */
  function AddCompleted(p: Quad, q: Quad): Completed {
    var a := FMul(FSub(p.y, p.x), FSub(q.y, q.x));
    var b := FMul(FAdd(p.y, p.x), FAdd(q.y, q.x));
    var c := FMul(FMul(p.t, D2RES), q.t);
    var zz := FMul(p.z, q.z);
    var d := FAdd(zz, zz);
    Completed(FSub(b, a), FAdd(b, a), FSub(d, c), FAdd(d, c))
  }

  function AddQ(p: Quad, q: Quad): Quad {
    ToExtended(AddCompleted(p, q))
  }

  /** `dbl-2008-hwcd` up to the completed coordinates; it reads no T. */
  function DoubleCompleted(x: int, y: int, z: int): Completed {
    var a, b, zz := FMul(x, x), FMul(y, y), FMul(z, z);
    var h, xy := FAdd(a, b), FAdd(x, y);
    var g := FSub(a, b);
    Completed(FSub(h, FMul(xy, xy)), h, FAdd(FAdd(zz, zz), g), g)
  }

  function DoubleQ(p: Quad): Quad {
    ToExtended(DoubleCompleted(p.x, p.y, p.z))
  }

  function NegQ(p: Quad): Quad {
    Quad(FNeg(p.x), p.y, p.z, FNeg(p.t))
  }

  const IDENTITYQ := Quad(0, 1, 1, 0)

  function ToNiels(p: Quad): Niels {
    Niels(FAdd(p.y, p.x), FSub(p.y, p.x), p.z, FMul(p.t, D2RES))
  }

  function NegNiels(n: Niels): Niels {
    Niels(n.minus, n.plus, n.z, FNeg(n.t2d))
  }

  /** Addition of a cached point: four multiplications. */
  function AddNielsCompleted(p: Quad, n: Niels): Completed {
    var pp, mm := FMul(FAdd(p.y, p.x), n.plus), FMul(FSub(p.y, p.x), n.minus);
    var tt2d, zz := FMul(p.t, n.t2d), FMul(p.z, n.z);
    var zz2 := FAdd(zz, zz);
    Completed(FSub(pp, mm), FAdd(pp, mm), FSub(zz2, tt2d), FAdd(zz2, tt2d))
  }

  /** Addition of a cached point whose Z is one: three multiplications. */
  function AddAffineCompleted(p: Quad, n: Niels): Completed {
    var pp, mm := FMul(FAdd(p.y, p.x), n.plus), FMul(FSub(p.y, p.x), n.minus);
    var txy2d, z2 := FMul(p.t, n.t2d), FAdd(p.z, p.z);
    Completed(FSub(pp, mm), FAdd(pp, mm), FSub(z2, txy2d), FAdd(z2, txy2d))
  }

  // ---------------------------------------------------------------------------
  // The cached forms compute the generic sum
  // ---------------------------------------------------------------------------

  lemma FMulAssoc(a: int, b: int, c: int)
    ensures FMul(FMul(a, b), c) == FMul(a, FMul(b, c))
  {
    hide Mod;
    ModMul(a * b, c);
    ModMul(a, b * c);
    assert (a * b) * c == a * (b * c);
  }

  lemma FMulComm(a: int, b: int)
    ensures FMul(a, b) == FMul(b, a)
  {
  }

  lemma FMulOne(a: int)
    ensures FMul(a, 1) == Mod(a) && FMul(1, a) == Mod(a)
  {
  }

  lemma FMulNeg(a: int, b: int)
    ensures FMul(FNeg(a), b) == FNeg(FMul(a, b)) && FMul(a, FNeg(b)) == FNeg(FMul(a, b))
  {
    hide Mod;
    ModMul(-a, b);
    ModMul(a, -b);
    NegMod(a * b);
    assert (-a) * b == -(a * b) && a * (-b) == -(a * b);
  }

  lemma NegMod(a: int)
    ensures Mod(-Mod(a)) == Mod(-a)
  {
    ModQuotient(a);
    ModShift(-Mod(a), -a, a / P);
  }

  lemma SubAsNeg(a: int, b: int)
    ensures FAdd(a, FNeg(b)) == FSub(a, b) && FSub(a, FNeg(b)) == FAdd(a, b)
  {
    ModQuotient(-b);
    ModShift(a + Mod(-b), a - b, -((-b) / P));
    ModShift(a - Mod(-b), a + b, (-b) / P);
  }

  /** Mixed addition of a projective cached point is the generic addition. */
  lemma NielsIsAdd(p: Quad, q: Quad)
    ensures AddNielsCompleted(p, ToNiels(q)) == AddCompleted(p, q)
  {
    hide FMul, FAdd, FSub;
    FMulAssoc(p.t, D2RES, q.t);
    FMulComm(q.t, D2RES);
  }

  /** Mixed addition of an affine cached point is the generic addition when Z is one. */
  lemma AffineIsAdd(p: Quad, q: Quad)
    requires q.z == 1 && 0 <= p.z < P
    ensures AddAffineCompleted(p, ToNiels(q)) == AddCompleted(p, q)
  {
    hide FMul, FAdd, FSub, Mod;
    FMulAssoc(p.t, D2RES, q.t);
    FMulComm(q.t, D2RES);
    FMulOne(p.z);
    ModSmall(p.z);
  }

  /** Negating the cached form caches the negated point. */
  lemma NegNielsIsNeg(q: Quad)
    ensures NegNiels(ToNiels(q)) == ToNiels(NegQ(q))
  {
    hide FMul, FAdd, FSub, FNeg;
    SubAsNeg(q.y, q.x);
    FMulNeg(q.t, D2RES);
  }

  // ---------------------------------------------------------------------------
  // The formulas as integer polynomials
  // ---------------------------------------------------------------------------

  /** The sum before it is multiplied back: E and H from the two cross products, F and G from Z1 Z2 and T1 T2. */
  lemma AddParts(p: Quad, q: Quad)
    ensures var c := AddCompleted(p, q);
      var a, b := FMul(FSub(p.y, p.x), FSub(q.y, q.x)), FMul(FAdd(p.y, p.x), FAdd(q.y, q.x));
      var zz, tt := FMul(p.z, q.z), FMul(FMul(p.t, D2RES), q.t);
      c == Completed(FSub(b, a), FAdd(b, a), FSub(FAdd(zz, zz), tt), FAdd(FAdd(zz, zz), tt))
  {
  }

  /** The difference of the cross products is twice x1 y2 + y1 x2, their sum twice y1 y2 + x1 x2. */
  lemma CrossProducts(x1: int, y1: int, x2: int, y2: int, a: int, b: int)
    requires a == FMul(FSub(y1, x1), FSub(y2, x2)) && b == FMul(FAdd(y1, x1), FAdd(y2, x2))
    ensures FSub(b, a) == Mod(2 * (x1 * y2 + y1 * x2)) && FAdd(b, a) == Mod(2 * (y1 * y2 + x1 * x2))
  {
    hide FMul, FAdd, FSub, Mod;
    FSubMod(y1, x1);
    FSubMod(y2, x2);
    FMulOf(FSub(y1, x1), FSub(y2, x2), y1 - x1, y2 - x2);
    FMulOf(FAdd(y1, x1), FAdd(y2, x2), y1 + x1, y2 + x2);
    Binomials(x1, y1, x2, y2);
    FSubOf(b, a, (y1 + x1) * (y2 + x2), (y1 - x1) * (y2 - x2));
    FAddOf(b, a, (y1 + x1) * (y2 + x2), (y1 - x1) * (y2 - x2));
  }

  lemma DoubledTerms(z1: int, z2: int, t1: int, t2: int, d: int)
    ensures var zz, tt := FMul(z1, z2), FMul(FMul(t1, d), t2);
      && FSub(FAdd(zz, zz), tt) == Mod(2 * (z1 * z2) - t1 * d * t2)
      && FAdd(FAdd(zz, zz), tt) == Mod(2 * (z1 * z2) + t1 * d * t2)
  {
    hide FMul, FAdd, FSub, Mod;
    FMulMod(t1, d);
    FMulMod(z1, z2);
    var zz, tt := FMul(z1, z2), FMul(FMul(t1, d), t2);
    FMulLeft(FMul(t1, d), t1 * d, t2);
    FAddOf(zz, zz, z1 * z2, z1 * z2);
    FSubOf(FAdd(zz, zz), tt, 2 * (z1 * z2), t1 * d * t2);
    FAddOf(FAdd(zz, zz), tt, 2 * (z1 * z2), t1 * d * t2);
  }

  lemma FSubMod(a: int, b: int)
    ensures FSub(a, b) == Mod(a - b) && FAdd(a, b) == Mod(a + b)
  {
  }

  lemma FMulMod(a: int, b: int)
    ensures FMul(a, b) == Mod(a * b)
  {
  }

  lemma FMulLeft(a: int, x: int, b: int)
    requires a == Mod(x)
    ensures FMul(a, b) == Mod(x * b)
  {
    hide Mod;
    ModMul(x, b);
  }

  lemma Binomials(x1: int, y1: int, x2: int, y2: int)
    ensures (y1 + x1) * (y2 + x2) - (y1 - x1) * (y2 - x2) == 2 * (x1 * y2 + y1 * x2)
    ensures (y1 + x1) * (y2 + x2) + (y1 - x1) * (y2 - x2) == 2 * (y1 * y2 + x1 * x2)
  {
  }

  lemma DoublePolynomials(x: int, y: int, z: int)
    ensures var c := DoubleCompleted(x, y, z);
      && c.e == Mod(-2 * (x * y)) && c.h == Mod(x * x + y * y)
      && c.f == Mod(2 * (z * z) + (x * x - y * y)) && c.g == Mod(x * x - y * y)
  {
    hide FMul, FAdd, FSub, Mod;
    FMulMod(x, x);
    FMulMod(y, y);
    FMulMod(z, z);
    FSubMod(x, y);
    var a, b, zz := FMul(x, x), FMul(y, y), FMul(z, z);
    FAddOf(a, b, x * x, y * y);
    FSubOf(a, b, x * x, y * y);
    FMulOf(FAdd(x, y), FAdd(x, y), x + y, x + y);
    FSubOf(FAdd(a, b), FMul(FAdd(x, y), FAdd(x, y)), x * x + y * y, (x + y) * (x + y));
    assert x * x + y * y - (x + y) * (x + y) == -2 * (x * y);
    FAddOf(zz, zz, z * z, z * z);
    FAddOf(FAdd(zz, zz), FSub(a, b), 2 * (z * z), x * x - y * y);
  }

  // ---------------------------------------------------------------------------
  // Points
  // ---------------------------------------------------------------------------

  /** -X^2 + Y^2 = Z^2 + d T^2, the curve equation in extended coordinates; `OnCurveIs` opens it. */
  ghost predicate OnCurve(p: Quad) {
    FoldedCurve(p, 2)
  }

  /** The equation behind n unfoldings: its 255-bit coefficient stays closed until it is asked for. */
  ghost predicate FoldedCurve(p: Quad, n: nat)
    decreases n, p
  {
    if n == 0 then Mod(p.y * p.y - p.x * p.x) == Mod(p.z * p.z + DRES * (p.t * p.t)) else FoldedCurve(p, n - 1)
  }

  lemma OnCurveIs(p: Quad)
    ensures OnCurve(p) <==> Mod(p.y * p.y - p.x * p.x) == Mod(p.z * p.z + DRES * (p.t * p.t))
  {
    assert FoldedCurve(p, 1) == FoldedCurve(p, 0);
    assert FoldedCurve(p, 2) == FoldedCurve(p, 1);
  }

  /** A point of the curve in extended coordinates. */
  ghost predicate Valid(p: Quad) {
    && 0 <= p.x < P && 0 <= p.y < P && 0 < p.z < P && 0 <= p.t < P
    && Mod(p.x * p.y) == Mod(p.z * p.t) && OnCurve(p)
  }

  /** The same affine point. */
  ghost predicate ProjEq(p: Quad, q: Quad) {
    Mod(p.x * q.z) == Mod(q.x * p.z) && Mod(p.y * q.z) == Mod(q.y * p.z)
  }

  /** On the curve, adding a point to itself gives -2 times the doubling formula's E and G, and 2 times its H and F. */
  lemma SelfSum(p: Quad)
    requires OnCurve(p)
    ensures var c, d := AddCompleted(p, p), DoubleCompleted(p.x, p.y, p.z);
      && c.e == Mod(-2 * d.e) && c.g == Mod(-2 * d.g) && c.h == Mod(2 * d.h) && c.f == Mod(2 * d.f)
  {
    hide AddCompleted, DoubleCompleted, FMul, FAdd, FSub, Mod, OnCurve;
    AddParts(p, p);
    CrossProducts(p.x, p.y, p.x, p.y, FMul(FSub(p.y, p.x), FSub(p.y, p.x)), FMul(FAdd(p.y, p.x), FAdd(p.y, p.x)));
    DoubledTerms(p.z, p.z, p.t, p.t, D2RES);
    DoublePolynomials(p.x, p.y, p.z);
    var xx, yy, zz, tt := p.x * p.x, p.y * p.y, p.z * p.z, p.t * p.t;
    assert p.x * p.y + p.y * p.x == 2 * (p.x * p.y);
    ModMul(-2, -2 * (p.x * p.y));
    ModMul(2, xx + yy);
    ModMul(-2, xx - yy);
    ModMul(2, 2 * zz + (xx - yy));
    assert p.t * D2RES * p.t == D2RES * tt;
    OnCurveIs(p);
    CurveConstants();
    TwiceSides(xx, yy, zz, tt, DRES, D2RES);
  }

  /** Twice the curve equation, for any d and d2 = 2d. */
  lemma TwiceSides(xx: int, yy: int, zz: int, tt: int, d: int, d2: int)
    requires Mod(yy - xx) == Mod(zz + d * tt) && d2 == Mod(2 * d)
    ensures Mod(2 * zz + d2 * tt) == Mod(-2 * (xx - yy))
    ensures Mod(2 * zz - d2 * tt) == Mod(2 * (2 * zz + (xx - yy)))
  {
    hide Mod;
    ModMul(2 * d, tt);
    assert (2 * d) * tt == 2 * (d * tt);
    var a, b := yy - xx, zz + d * tt;
    ModTimes(a, b, 2);
    ModPlus(d2 * tt, 2 * (d * tt), 2 * zz);
    ModPlus(2 * a, 2 * b, 4 * zz);
    assert 4 * zz - 2 * b == 2 * zz - 2 * (d * tt) && 4 * zz - 2 * a == 2 * (2 * zz + (xx - yy));
  }

  // ---------------------------------------------------------------------------
  // The affine addition law
  // ---------------------------------------------------------------------------

  /** The third pair of coordinates, 2d T1 T2 up to sign, is twice d x1 x2 y1 y2, for any d. */
  lemma TermProduct(x1: int, y1: int, x2: int, y2: int, t1: int, t2: int, d: int, d2: int, m: int)
    requires t1 == FMul(x1, y1) && t2 == FMul(x2, y2) && d2 == Mod(2 * d)
    requires m == FMul(d, FMul(FMul(x1, x2), FMul(y1, y2)))
    ensures Mod(t1 * d2 * t2) == Mod(2 * m)
  {
    hide Mod;
    var a, b := x1 * y1, x2 * y2;
    ModMul(a, 2 * d);
    ModMul(a * (2 * d), b);
    assert Mod(t1 * d2) == Mod(a * (2 * d));
    ModTimes(t1 * d2, a * (2 * d), t2);
    var c := (x1 * x2) * (y1 * y2);
    ModMul(x1 * x2, y1 * y2);
    ModMul(d, c);
    ModMul(2, d * c);
    ProductOrder(x1, y1, x2, y2, d);
  }

  lemma ProductOrder(x1: int, y1: int, x2: int, y2: int, d: int)
    ensures ((x1 * y1) * (2 * d)) * (x2 * y2) == 2 * (d * ((x1 * x2) * (y1 * y2)))
  {
    var a, b := x1 * y1, x2 * y2;
    assert a * b == (x1 * x2) * (y1 * y2);
    assert (a * (2 * d)) * b == 2 * (d * (a * b));
  }

  lemma LawOf(e: int, h: int, f: int, g: int, s: int, r: int, m: int)
    requires e == Mod(2 * s) && h == Mod(2 * r) && f == Mod(2 - 2 * m) && g == Mod(2 + 2 * m)
    ensures Mod(FMul(e, f) * (1 + m)) == Mod(FMul(f, g) * s)
    ensures Mod(FMul(g, h) * (1 - m)) == Mod(FMul(f, g) * r)
  {
    hide Mod;
    FMulOf(e, f, 2 * s, 2 - 2 * m);
    FMulOf(f, g, 2 - 2 * m, 2 + 2 * m);
    FMulOf(g, h, 2 + 2 * m, 2 * r);
    ModMul((2 * s) * (2 - 2 * m), 1 + m);
    ModMul((2 - 2 * m) * (2 + 2 * m), s);
    ModMul((2 + 2 * m) * (2 * r), 1 - m);
    ModMul((2 - 2 * m) * (2 + 2 * m), r);
    LawAlgebra(s, m);
    LawAlgebra(r, -m);
  }

  lemma LawAlgebra(s: int, m: int)
    ensures ((2 * s) * (2 - 2 * m)) * (1 + m) == ((2 - 2 * m) * (2 + 2 * m)) * s
    ensures ((2 - 2 * m) * (2 * s)) * (1 + m) == ((2 + 2 * m) * (2 - 2 * m)) * s
  {
    var a := 2 - 2 * m;
    assert ((2 * s) * a) * (1 + m) == (a * (2 + 2 * m)) * s by {
      assert (2 * s) * (1 + m) == (2 + 2 * m) * s;
      assert ((2 * s) * a) * (1 + m) == a * ((2 * s) * (1 + m));
      assert (a * (2 + 2 * m)) * s == a * ((2 + 2 * m) * s);
    }
    assert (2 * s) * a == a * (2 * s) && a * (2 + 2 * m) == (2 + 2 * m) * a;
  }

  /**
   The generic addition is the affine law: with m = d x1 x2 y1 y2, the sum has
   x (1 + m) = x1 y2 + y1 x2 and y (1 - m) = y1 y2 + x1 x2.
   */
  lemma AffineLaw(x1: int, y1: int, x2: int, y2: int, m: int)
    requires m == FMul(DRES, FMul(FMul(x1, x2), FMul(y1, y2)))
    ensures var s := AddQ(Quad(x1, y1, 1, FMul(x1, y1)), Quad(x2, y2, 1, FMul(x2, y2)));
      && Mod(s.x * (1 + m)) == Mod(s.z * (x1 * y2 + y1 * x2))
      && Mod(s.y * (1 - m)) == Mod(s.z * (y1 * y2 + x1 * x2))
  {
    hide AddCompleted, FMul, FAdd, FSub, Mod;
    var p, q := Quad(x1, y1, 1, FMul(x1, y1)), Quad(x2, y2, 1, FMul(x2, y2));
    AddParts(p, q);
    CrossProducts(x1, y1, x2, y2, FMul(FSub(y1, x1), FSub(y2, x2)), FMul(FAdd(y1, x1), FAdd(y2, x2)));
    DoubledTerms(1, 1, p.t, q.t, D2RES);
    CurveConstants();
    TermProduct(x1, y1, x2, y2, p.t, q.t, DRES, D2RES, m);
    var w := p.t * D2RES * q.t;
    ModPlus(w, 2 * m, 2);
    var c := AddCompleted(p, q);
    LawOf(c.e, c.h, c.f, c.g, x1 * y2 + y1 * x2, y1 * y2 + x1 * x2, m);
  }
}
