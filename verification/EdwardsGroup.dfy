/** The coordinate formulas as operations of a group. */
module EdwardsGroup {
  // The interface assumed of the curve is `Interprets`: the generic addition denotes the
  // group operation, and two points denote the same element exactly when they are the same
  // affine point. Doubling, negation, identity and the change of Z are then proved, not
  // assumed.

  import opened FieldLimbs
  import opened FieldPow
  import opened FieldResidues
  import opened EdwardsFormulas
  import opened Groups

  ghost predicate Interprets<G(!new)>(g: Group<G>, den: Quad -> G) {
    && IsAbelian(g)
    && (forall p, q {:trigger AddQ(p, q)} :: Valid(p) && Valid(q) ==>
          Valid(AddQ(p, q)) && den(AddQ(p, q)) == g.add(den(p), den(q)))
    && (forall p, q {:trigger ProjEq(p, q)} :: Valid(p) && Valid(q) ==> (den(p) == den(q) <==> ProjEq(p, q)))
  }

  lemma DenAdd<G(!new)>(g: Group<G>, den: Quad -> G, p: Quad, q: Quad)
    requires Interprets(g, den) && Valid(p) && Valid(q)
    ensures IsAbelian(g) && Valid(AddQ(p, q)) && den(AddQ(p, q)) == g.add(den(p), den(q))
  {
    hide AddQ, Valid, IsAbelian;
  }

  lemma DenEq<G(!new)>(g: Group<G>, den: Quad -> G, p: Quad, q: Quad)
    requires Interprets(g, den) && Valid(p) && Valid(q)
    ensures den(p) == den(q) <==> ProjEq(p, q)
  {
    hide AddQ, Valid, IsAbelian, ProjEq;
  }

  // ---------------------------------------------------------------------------
  // Scaling
  // ---------------------------------------------------------------------------

  /** The same point with every coordinate multiplied by k. */
  function Scale(p: Quad, k: int): Quad {
    Quad(FMul(k, p.x), FMul(k, p.y), FMul(k, p.z), FMul(k, p.t))
  }

  lemma ScaleBack(a: int, k: int, m: int)
    requires Mod(k * m) == 1 && 0 <= a < P
    ensures FMul(m, FMul(k, a)) == a
  {
    hide Mod;
    ModMul(m, k * a);
    ModMul(k * m, a);
    assert m * (k * a) == (k * m) * a;
    ModSmall(a);
  }

  lemma FMulZero(k: int)
    ensures FMul(k, 0) == 0
  {
  }

  lemma ScaleProduct(k: int, a: int, b: int, x: int, y: int)
    requires a == FMul(k, x) && b == FMul(k, y)
    ensures Mod(a * b) == Mod((k * k) * (x * y))
  {
    hide Mod;
    FMulMod(k, x);
    FMulMod(k, y);
    ModMul(k * x, k * y);
    assert (k * x) * (k * y) == (k * k) * (x * y);
  }

  /** Scaling by an invertible factor keeps a point valid and denotes the same affine point. */
  lemma ScaleValid(p: Quad, k: int, m: int)
    requires Valid(p) && Mod(k * m) == 1
    ensures Valid(Scale(p, k)) && ProjEq(p, Scale(p, k))
  {
    hide FMul, Mod, OnCurve;
    var q := Scale(p, k);
    ScaleBack(p.z, k, m);
    FMulZero(m);
    ScaleProduct(k, q.x, q.y, p.x, p.y);
    ScaleProduct(k, q.z, q.t, p.z, p.t);
    ModTimes(p.x * p.y, p.z * p.t, k * k);
    ScaleCurve(p, k);
    ScaleCross(p.x, p.z, k);
    ScaleCross(p.y, p.z, k);
  }

  lemma ScaleCross(x: int, z: int, k: int)
    ensures Mod(x * FMul(k, z)) == Mod(FMul(k, x) * z)
  {
    hide Mod;
    FMulMod(k, z);
    FMulMod(k, x);
    ModMul(x, k * z);
    ModMul(k * x, z);
    assert x * (k * z) == (k * x) * z;
  }

  lemma ScaleCurve(p: Quad, k: int)
    requires OnCurve(p)
    ensures OnCurve(Scale(p, k))
  {
    hide FMul, Mod, OnCurve;
    var q, kk := Scale(p, k), k * k;
    OnCurveIs(p);
    OnCurveIs(q);
    ScaleProduct(k, q.x, q.x, p.x, p.x);
    ScaleProduct(k, q.y, q.y, p.y, p.y);
    ScaleProduct(k, q.z, q.z, p.z, p.z);
    ScaleProduct(k, q.t, q.t, p.t, p.t);
    ModTimes(p.y * p.y - p.x * p.x, p.z * p.z + DRES * (p.t * p.t), kk);
    CurveSides(q.x * q.x, q.y * q.y, q.z * q.z, q.t * q.t, kk, p.x * p.x, p.y * p.y, p.z * p.z, p.t * p.t, DRES);
  }

  lemma CurveSides(qx: int, qy: int, qz: int, qt: int, kk: int, px: int, py: int, pz: int, pt: int, d: int)
    requires Mod(qx) == Mod(kk * px) && Mod(qy) == Mod(kk * py) && Mod(qz) == Mod(kk * pz) && Mod(qt) == Mod(kk * pt)
    requires Mod((py - px) * kk) == Mod((pz + d * pt) * kk)
    ensures Mod(qy - qx) == Mod(qz + d * qt)
  {
    hide Mod;
    ModPlus(qy, kk * py, qx);
    ModPlus(qx, kk * px, kk * py);
    assert kk * py - kk * px == (py - px) * kk;
    ModTimes(qt, kk * pt, d);
    ModPlus(qz, kk * pz, d * qt);
    ModPlus(d * qt, d * (kk * pt), kk * pz);
    assert kk * pz + d * (kk * pt) == (pz + d * pt) * kk;
  }

  lemma DenScale<G(!new)>(g: Group<G>, den: Quad -> G, p: Quad, k: int, m: int)
    requires Interprets(g, den) && Valid(p) && Mod(k * m) == 1
    ensures Valid(Scale(p, k)) && den(Scale(p, k)) == den(p)
  {
    hide *;
    ScaleValid(p, k, m);
    DenEq(g, den, p, Scale(p, k));
  }

  // ---------------------------------------------------------------------------
  // Doubling, negation, identity
  // ---------------------------------------------------------------------------

  /** The inverse of -4, by which the doubling formula differs from self-addition. */
  const INV4: int := (P - 1) / 4

  lemma Inv4()
    ensures Mod(INV4 * -4) == 1
  {
    ModIs(INV4 * -4);
  }

  lemma ProductFactor(a: int, b: int, c: int, d: int, j: int, k: int)
    requires a == Mod(j * c) && b == Mod(k * d)
    ensures FMul(a, b) == FMul(j * k, FMul(c, d))
  {
    hide Mod;
    FMulOf(a, b, j * c, k * d);
    FMulMod(c, d);
    FMulMod(j * k, FMul(c, d));
    ModMul(j * k, c * d);
    assert (j * c) * (k * d) == (j * k) * (c * d);
  }

  /** Self-addition is the doubling formula scaled by -4. */
  lemma SelfSumScaled(p: Quad)
    requires OnCurve(p)
    ensures AddQ(p, p) == Scale(DoubleQ(p), -4)
  {
    hide AddCompleted, DoubleCompleted, FMul, Mod, OnCurve;
    SelfSum(p);
    var c, d := AddCompleted(p, p), DoubleCompleted(p.x, p.y, p.z);
    ProductFactor(c.e, c.f, d.e, d.f, -2, 2);
    ProductFactor(c.g, c.h, d.g, d.h, -2, 2);
    ProductFactor(c.f, c.g, d.f, d.g, 2, -2);
    ProductFactor(c.e, c.h, d.e, d.h, -2, 2);
  }

  lemma DoubleRange(p: Quad)
    ensures var d := DoubleQ(p); 0 <= d.x < P && 0 <= d.y < P && 0 <= d.z < P && 0 <= d.t < P
  {
    hide DoubleCompleted;
  }

  /** The doubling formula doubles. */
  lemma DenDouble<G(!new)>(g: Group<G>, den: Quad -> G, p: Quad)
    requires Interprets(g, den) && Valid(p)
    ensures Valid(DoubleQ(p)) && den(DoubleQ(p)) == g.add(den(p), den(p))
  {
    hide DoubleQ, AddQ, Interprets, OnCurve, Mod, FMul;
    var d := DoubleQ(p);
    DenAdd(g, den, p, p);
    SelfSumScaled(p);
    DoubleRange(p);
    Inv4();
    Unscale(d, -4, INV4);
    DenScale(g, den, AddQ(p, p), INV4, -4);
  }

  lemma Unscale(d: Quad, k: int, m: int)
    requires Mod(m * k) == 1 && 0 <= d.x < P && 0 <= d.y < P && 0 <= d.z < P && 0 <= d.t < P
    ensures Scale(Scale(d, k), m) == d
  {
    hide Mod, FMul;
    assert m * k == k * m;
    ScaleBack(d.x, k, m);
    ScaleBack(d.y, k, m);
    ScaleBack(d.z, k, m);
    ScaleBack(d.t, k, m);
  }

  lemma IdentityValid()
    ensures Valid(IDENTITYQ)
  {
  }

  /** Adding the identity only rescales the coordinates. */
  lemma AddIdentity(p: Quad)
    requires Valid(p) && Valid(AddQ(p, IDENTITYQ))
    ensures ProjEq(p, AddQ(p, IDENTITYQ))
  {
    hide AddCompleted, FMul, FAdd, FSub, Mod, OnCurve;
    var q, c := IDENTITYQ, AddCompleted(p, IDENTITYQ);
    AddParts(p, q);
    CrossProducts(p.x, p.y, q.x, q.y, FMul(FSub(p.y, p.x), FSub(q.y, q.x)), FMul(FAdd(p.y, p.x), FAdd(q.y, q.x)));
    DoubledTerms(p.z, q.z, p.t, q.t, D2RES);
    IdentityPolynomials(p);
    FMulOf(c.e, c.f, 2 * p.x, 2 * p.z);
    FMulOf(c.g, c.h, 2 * p.z, 2 * p.y);
    FMulOf(c.f, c.g, 2 * p.z, 2 * p.z);
    IdentityCross(p.x, p.z);
    IdentityCross(p.y, p.z);
    assert (2 * p.z) * (2 * p.y) == (2 * p.y) * (2 * p.z);
  }

  lemma IdentityPolynomials(p: Quad)
    ensures 2 * (p.x * IDENTITYQ.y + p.y * IDENTITYQ.x) == 2 * p.x
    ensures 2 * (p.y * IDENTITYQ.y + p.x * IDENTITYQ.x) == 2 * p.y
    ensures 2 * (p.z * IDENTITYQ.z) - p.t * D2RES * IDENTITYQ.t == 2 * p.z
    ensures 2 * (p.z * IDENTITYQ.z) + p.t * D2RES * IDENTITYQ.t == 2 * p.z
  {
  }

  lemma IdentityCross(x: int, z: int)
    ensures Mod(x * Mod((2 * z) * (2 * z))) == Mod(Mod((2 * x) * (2 * z)) * z)
  {
    hide Mod;
    ModMul(x, (2 * z) * (2 * z));
    ModMul((2 * x) * (2 * z), z);
    assert x * ((2 * z) * (2 * z)) == ((2 * x) * (2 * z)) * z;
  }

  lemma DenIdentity<G(!new)>(g: Group<G>, den: Quad -> G)
    requires Interprets(g, den)
    ensures Valid(IDENTITYQ) && den(IDENTITYQ) == g.zero
  {
    hide *;
    IdentityValid();
    DenAdd(g, den, IDENTITYQ, IDENTITYQ);
    AddIdentity(IDENTITYQ);
    DenEq(g, den, IDENTITYQ, AddQ(IDENTITYQ, IDENTITYQ));
    AbsorbedIsZero(g, den(IDENTITYQ), den(IDENTITYQ));
  }

  /** Negating X and T keeps both sides of every equation, for any d. */
  lemma NegatedSides(p: Quad, nx: int, nt: int, d: int)
    requires nx == FNeg(p.x) && nt == FNeg(p.t)
    ensures Mod(p.y * p.y - nx * nx) == Mod(p.y * p.y - p.x * p.x)
    ensures Mod(p.z * p.z + d * (nt * nt)) == Mod(p.z * p.z + d * (p.t * p.t))
    ensures Mod(p.x * p.y) == Mod(p.z * p.t) ==> Mod(nx * p.y) == Mod(p.z * nt)
  {
    hide Mod, FNeg;
    FNegMod(p.x);
    FNegMod(p.t);
    ModMul(-p.x, p.y);
    ModMul(p.z, -p.t);
    ModMul(-p.x, -p.x);
    ModMul(-p.t, -p.t);
    if Mod(p.x * p.y) == Mod(p.z * p.t) {
      ModTimes(p.x * p.y, p.z * p.t, -1);
    }
    assert (-p.x) * p.y == (p.x * p.y) * -1 && p.z * (-p.t) == (p.z * p.t) * -1;
    assert (-p.x) * (-p.x) == p.x * p.x && (-p.t) * (-p.t) == p.t * p.t;
    ModPlus(nx * nx, p.x * p.x, p.y * p.y);
    ModTimes(nt * nt, p.t * p.t, d);
    ModPlus(d * (nt * nt), d * (p.t * p.t), p.z * p.z);
  }

  lemma NegValid(p: Quad)
    requires Valid(p)
    ensures Valid(NegQ(p))
  {
    hide Mod, FNeg, OnCurve;
    var n := NegQ(p);
    NegatedSides(p, n.x, n.t, DRES);
    OnCurveIs(p);
    OnCurveIs(n);
  }

  lemma FNegMod(a: int)
    ensures FNeg(a) == Mod(-a)
  {
  }

  /** p + (-p): E vanishes and H equals F on the curve, so the sum is (0 : GH : GH). */
  lemma AddNeg(p: Quad)
    requires Valid(p) && Valid(AddQ(p, NegQ(p)))
    ensures ProjEq(AddQ(p, NegQ(p)), IDENTITYQ)
  {
    hide AddCompleted, FMul, FAdd, FSub, Mod, FNeg;
    var n := NegQ(p);
    var c := AddCompleted(p, n);
    AddParts(p, n);
    CrossProducts(p.x, p.y, n.x, n.y, FMul(FSub(p.y, p.x), FSub(n.y, n.x)), FMul(FAdd(p.y, p.x), FAdd(n.y, n.x)));
    DoubledTerms(p.z, n.z, p.t, n.t, D2RES);
    CrossCancels(p.x, p.y, n.x);
    OnCurveIs(p);
    CurveConstants();
    NegPolynomials(p, n.x, n.t, DRES, D2RES);
    FMulOf(c.e, c.f, 0, 2 * (p.z * n.z) - p.t * D2RES * n.t);
    ModZeroTimes(2 * (p.z * n.z) - p.t * D2RES * n.t);
    FMulComm(c.g, c.h);
    ModIdentityCross(AddQ(p, n));
  }

  lemma CrossCancels(x: int, y: int, nx: int)
    requires nx == FNeg(x)
    ensures Mod(2 * (x * y + y * nx)) == Mod(0)
  {
    hide Mod, FNeg;
    FNegMod(x);
    ModMul(y, -x);
    assert y * (-x) == -(x * y);
    ModPlus(y * nx, -(x * y), x * y);
    ModTimes(x * y + y * nx, 0, 2);
  }

  /** With X2 = -X1 and T2 = -T1 on the curve, H is F, for any d and d2 = 2d. */
  lemma NegPolynomials(p: Quad, nx: int, nt: int, d: int, d2: int)
    requires Mod(p.y * p.y - p.x * p.x) == Mod(p.z * p.z + d * (p.t * p.t)) && d2 == Mod(2 * d)
    requires nx == FNeg(p.x) && nt == FNeg(p.t)
    ensures Mod(2 * (p.y * p.y + p.x * nx)) == Mod(2 * (p.z * p.z) - p.t * d2 * nt)
  {
    hide Mod, FNeg;
    var xx, yy, zz, tt := p.x * p.x, p.y * p.y, p.z * p.z, p.t * p.t;
    FNegMod(p.x);
    FNegMod(p.t);
    ModMul(p.x, -p.x);
    assert p.x * (-p.x) == -xx;
    ModPlus(p.x * nx, -xx, yy);
    ModTimes(yy + p.x * nx, yy - xx, 2);
    ModMul(p.t * d2, -p.t);
    assert (p.t * d2) * (-p.t) == -(d2 * tt);
    ModPlus(p.t * d2 * nt, -(d2 * tt), 2 * zz);
    TwiceSides(xx, yy, zz, tt, d, d2);
    assert 2 * (yy - xx) == -2 * (xx - yy);
  }

  lemma ModZeroTimes(a: int)
    ensures Mod(0 * a) == 0 && Mod(0) == 0
  {
  }

  lemma ModIdentityCross(s: Quad)
    requires s.x == Mod(0) && s.y == s.z
    ensures ProjEq(s, IDENTITYQ)
  {
  }

  lemma DenNeg<G(!new)>(g: Group<G>, den: Quad -> G, p: Quad, n: Quad)
    requires Interprets(g, den) && Valid(p) && n == NegQ(p)
    ensures Valid(n) && den(n) == g.neg(den(p))
  {
    hide *;
    NegValid(p);
    DenAdd(g, den, p, n);
    AddNeg(p);
    DenIdentity(g, den);
    DenEq(g, den, AddQ(p, n), IDENTITYQ);
    InverseUnique(g, den(p), den(n));
  }
}
