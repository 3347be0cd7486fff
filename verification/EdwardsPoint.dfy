/** Points on limbs (edwards/point.rs, edwards/niels.rs): every operation computes its formula's residues. */
module EdwardsPoint {
  import opened FieldLimbs
  import FE = FieldLimbs
  import opened FieldPow
  import opened FieldResidues
  import opened FieldSqrt
  import F = EdwardsFormulas

  const D := Fe(0x00034dca135978a3, 0x0001a8283b156ebd, 0x0005e7a26001c029, 0x000739c663a03cbb, 0x00052036cee2b6ff)
  const D2 := Fe(0x00069b9426b2f159, 0x00035050762add7a, 0x0003cf44c0038052, 0x0006738cc7407977, 0x0002406d9dc56dff)

  datatype ProjectivePoint = ProjectivePoint(x: Fe, y: Fe, z: Fe) {
    ghost predicate Ok() {
      FE.Ok(x) && FE.Ok(y) && FE.Ok(z)
    }

    /** `dbl-2008-hwcd` up to the completed coordinates, T never formed. */
    function Double(): (r: CompletedPoint)
      requires Ok()
      ensures r.Ok()
    {
      hide *;
      ProjectiveOk(this);
      var a, b, c := FE.Square(x), FE.Square(y), FE.Square(z);
      var c2, h := FE.Add(c, c), FE.Add(a, b);
      var e, g := FE.Sub(h, FE.Square(FE.Add(x, y))), FE.Sub(a, b);
      CompletedOk(CompletedPoint(e, h, FE.Add(c2, g), g));
      CompletedPoint(e, h, FE.Add(c2, g), g)
    }
  }

  /** A sum or double before it is multiplied back: x = E / G, y = H / F. */
  datatype CompletedPoint = CompletedPoint(e: Fe, h: Fe, f: Fe, g: Fe) {
    ghost predicate Ok() {
      FE.Ok(e) && FE.Ok(h) && FE.Ok(f) && FE.Ok(g)
    }

    /** Three multiplications; enough when the next operation is a doubling. */
    function ToProjective(): (r: ProjectivePoint)
      requires Ok()
      ensures r.Ok()
    {
      hide Mul, FE.Ok;
      ProjectivePoint(Mul(e, f), Mul(g, h), Mul(f, g))
    }

    /** Four multiplications; needed when the next operation is an addition. */
    function ToExtended(): (r: EdwardsPoint)
      requires Ok()
      ensures r.Ok()
    {
      hide Mul, FE.Ok;
      EdwardsPoint(Mul(e, f), Mul(g, h), Mul(f, g), Mul(e, h))
    }
  }

  /** A point cached for repeated addition: Y + X, Y - X, Z, 2dT. */
  datatype ProjectiveNiels = ProjectiveNiels(yPlusX: Fe, yMinusX: Fe, z: Fe, t2d: Fe) {
    ghost predicate Ok() {
      FE.Ok(yPlusX) && FE.Ok(yMinusX) && FE.Ok(z) && FE.Ok(t2d)
    }

    function Negate(): (r: ProjectiveNiels)
      requires Ok()
      ensures r.Ok()
    {
      hide Neg, FE.Ok;
      ProjectiveNiels(yMinusX, yPlusX, z, Neg(t2d))
    }
  }

  /** A point with Z = 1, cached as Y + X, Y - X, 2dXY. */
  datatype AffineNiels = AffineNiels(yPlusX: Fe, yMinusX: Fe, xy2d: Fe) {
    ghost predicate Ok() {
      FE.Ok(yPlusX) && FE.Ok(yMinusX) && FE.Ok(xy2d)
    }

    function Negate(): (r: AffineNiels)
      requires Ok()
      ensures r.Ok()
    {
      hide Neg, FE.Ok;
      AffineNiels(yMinusX, yPlusX, Neg(xy2d))
    }
  }

  /** A point in extended coordinates (X : Y : Z : T). */
  datatype EdwardsPoint = EdwardsPoint(x: Fe, y: Fe, z: Fe, t: Fe) {
    ghost predicate Ok() {
      FE.Ok(x) && FE.Ok(y) && FE.Ok(z) && FE.Ok(t)
    }

    /** Point addition (`add-2008-hwcd-3`). */
    function Add(q: EdwardsPoint): (r: EdwardsPoint)
      requires Ok() && q.Ok()
      ensures r.Ok()
    {
      hide Mul, FE.Add, FE.Sub, FE.Ok, D2;
      ConstantsOk();
      var a := Mul(FE.Sub(y, x), FE.Sub(q.y, q.x));
      var b := Mul(FE.Add(y, x), FE.Add(q.y, q.x));
      var c := Mul(Mul(t, D2), q.t);
      var zz := Mul(z, q.z);
      var d := FE.Add(zz, zz);
      var e, f, g, h := FE.Sub(b, a), FE.Sub(d, c), FE.Add(d, c), FE.Add(b, a);
      EdwardsPoint(Mul(e, f), Mul(g, h), Mul(f, g), Mul(e, h))
    }

    function Negate(): (r: EdwardsPoint)
      requires Ok()
      ensures r.Ok()
    {
      hide Neg, FE.Ok;
      EdwardsPoint(Neg(x), y, z, Neg(t))
    }

    function Sub(q: EdwardsPoint): (r: EdwardsPoint)
      requires Ok() && q.Ok()
      ensures r.Ok()
    {
      Add(q.Negate())
    }

    /** Point doubling (`dbl-2008-hwcd`), which does not read T. */
    function Double(): (r: EdwardsPoint)
      requires Ok()
      ensures r.Ok()
    {
      hide Mul, FE.Add, FE.Sub, FE.Square, FE.Ok;
      var a, b, c := FE.Square(x), FE.Square(y), FE.Square(z);
      var c2, h := FE.Add(c, c), FE.Add(a, b);
      var e, g := FE.Sub(h, FE.Square(FE.Add(x, y))), FE.Sub(a, b);
      var f := FE.Add(c2, g);
      EdwardsPoint(Mul(e, f), Mul(g, h), Mul(f, g), Mul(e, h))
    }

    function MulByCofactor(): (r: EdwardsPoint)
      requires Ok()
      ensures r.Ok()
    {
      hide *;
      Double().Double().Double()
    }

    /** x/z == 0 and y/z == 1, tested without inverting z. */
    function IsIdentity(): bool {
      IsZero(x) && CtEq(y, z)
    }

    function IsSmallOrder(): bool
      requires Ok()
    {
      MulByCofactor().IsIdentity()
    }

    function ToProjectiveNiels(): (r: ProjectiveNiels)
      requires Ok()
      ensures r.Ok()
    {
      hide Mul, FE.Add, FE.Sub, FE.Ok, D2;
      ConstantsOk();
      ProjectiveNiels(FE.Add(y, x), FE.Sub(y, x), z, Mul(t, D2))
    }

    /** Four multiplications to a completed point. */
    function AddProjectiveNiels(n: ProjectiveNiels): (r: CompletedPoint)
      requires Ok() && n.Ok()
      ensures r.Ok()
    {
      hide Mul, FE.Add, FE.Sub, FE.Ok;
      var pp, mm := Mul(FE.Add(y, x), n.yPlusX), Mul(FE.Sub(y, x), n.yMinusX);
      var tt2d, zz := Mul(t, n.t2d), Mul(z, n.z);
      var zz2 := FE.Add(zz, zz);
      CompletedPoint(FE.Sub(pp, mm), FE.Add(pp, mm), FE.Sub(zz2, tt2d), FE.Add(zz2, tt2d))
    }

    /** Three multiplications to a completed point. */
    function AddAffineNiels(n: AffineNiels): (r: CompletedPoint)
      requires Ok() && n.Ok()
      ensures r.Ok()
    {
      hide Mul, FE.Add, FE.Sub, FE.Ok;
      var pp, mm := Mul(FE.Add(y, x), n.yPlusX), Mul(FE.Sub(y, x), n.yMinusX);
      var txy2d, z2 := Mul(t, n.xy2d), FE.Add(z, z);
      CompletedPoint(FE.Sub(pp, mm), FE.Add(pp, mm), FE.Sub(z2, txy2d), FE.Add(z2, txy2d))
    }
  }

  const BASEPOINT := EdwardsPoint(
    Fe(0x00062d608f25d51a, 0x000412a4b4f6592a, 0x00075b7171a4b31d, 0x0001ff60527118fe, 0x000216936d3cd6e5),
    Fe(0x0006666666666658, 0x0004cccccccccccc, 0x0001999999999999, 0x0003333333333333, 0x0006666666666666),
    ONE,
    Fe(0x00068ab3a5b7dda3, 0x00000eea2a5eadbb, 0x0002af8df483c27e, 0x000332b375274732, 0x00067875f0fd78b7))

  const IDENTITY := EdwardsPoint(ZERO, ONE, ONE, ZERO)

  // The residues behind each representation.

  function PointRes(p: EdwardsPoint): F.Quad {
    F.Quad(Res(p.x), Res(p.y), Res(p.z), Res(p.t))
  }

  function CompletedRes(c: CompletedPoint): F.Completed {
    F.Completed(Res(c.e), Res(c.h), Res(c.f), Res(c.g))
  }

  function NielsRes(n: ProjectiveNiels): F.Niels {
    F.Niels(Res(n.yPlusX), Res(n.yMinusX), Res(n.z), Res(n.t2d))
  }

  /** An affine cached point stands for a cached point with Z = 1. */
  function AffineRes(n: AffineNiels): F.Niels {
    F.Niels(Res(n.yPlusX), Res(n.yMinusX), 1, Res(n.xy2d))
  }

  lemma ProjectiveOk(p: ProjectivePoint)
    ensures p.Ok() <==> FE.Ok(p.x) && FE.Ok(p.y) && FE.Ok(p.z)
  {
    hide FE.Ok;
  }

  lemma CompletedOk(c: CompletedPoint)
    ensures c.Ok() <==> FE.Ok(c.e) && FE.Ok(c.h) && FE.Ok(c.f) && FE.Ok(c.g)
  {
    hide FE.Ok;
  }

  /** The invariant of a point, coordinate by coordinate. */
  lemma PointOk(p: EdwardsPoint)
    ensures p.Ok() <==> FE.Ok(p.x) && FE.Ok(p.y) && FE.Ok(p.z) && FE.Ok(p.t)
  {
    hide FE.Ok;
  }

  lemma ConstantsOk()
    ensures Ok(D) && Ok(D2) && IDENTITY.Ok() && BASEPOINT.Ok()
    ensures Res(D) == F.DRES && Res(D2) == F.D2RES && PointRes(IDENTITY) == F.IDENTITYQ
  {
  }

  const BX: int := 0x216936d3cd6e53fec0a4e231fdd6dc5c692cc7609525a7b2c9562d608f25d51a
  const BY: int := 0x6666666666666666666666666666666666666666666666666666666666666658
  const BT: int := 0x67875f0fd78b766566ea4e8e64abe37d20f09f80775152f56dde8ab3a5b7dda3

  lemma BasepointRes()
    ensures PointRes(BASEPOINT) == F.Quad(BX, BY, 1, BT)
  {
    hide Mod;
    ModSmall(BX);
    ModSmall(BY);
    ModSmall(BT);
    ModSmall(1);
  }

  /** y is 4/5 and x is the even one of the two roots: the base point of section 5.1 of RFC 8032, not its negative. */
  lemma BasepointIs()
    ensures 0 <= BX < P && 0 <= BY < P && BX % 2 == 0 && Mod(5 * BY) == 4
    ensures Res(BASEPOINT.x) == BX && Res(BASEPOINT.y) == BY && BASEPOINT.z == ONE
  {
    hide Mod;
    BasepointRes();
    ModIs(5 * BY);
  }

  lemma BasepointEquations()
    ensures Mod(BX * BY) == Mod(1 * BT) && Mod(BY * BY - BX * BX) == Mod(1 * 1 + F.DRES * (BT * BT))
  {
    hide *;
    BasepointQuotients();
    ModShift(BX * BY, BT, 0x1aba92430abea9989a1d81c197df16b05423d2b3aa848628a111bde6d8eb10e1);
    ModShift(BY * BY - BX * BX, SIDE, 0x4932ee5d776beb664d1f9c33cfb9f26a26b67752e722564d6f2645ffcb8fe84f);
    ModShift(BT * BT, BT2, 0x53bc6c284ae8a2a1e2eb8ae30160ae5dafb97c74aa906d089e313955dd5ce727);
    ModShift(1 + F.DRES * BT2, SIDE, 0x2b6cc59a99944230931f709dd6154114df3773c14313160c6e0001c240b8a35a);
    ModTimes(BT * BT, BT2, F.DRES);
    ModPlus(F.DRES * (BT * BT), F.DRES * BT2, 1);
  }

  /** T^2 and both sides of the curve equation at the base point, reduced. */
  const BT2: int := 0x43c62db565e3d3bfdce7c49981fd913f4f49fda745a0e7fe57b577142ad1fdae
  const SIDE: int := 0x1805ddb3491df0a9558e2ebbaa02855effa18262f5201aa14f4661759bd03579

  lemma BasepointQuotients()
    ensures BX * BY == BT + 0x1aba92430abea9989a1d81c197df16b05423d2b3aa848628a111bde6d8eb10e1 * P
    ensures BY * BY - BX * BX == SIDE + 0x4932ee5d776beb664d1f9c33cfb9f26a26b67752e722564d6f2645ffcb8fe84f * P
    ensures BT * BT == BT2 + 0x53bc6c284ae8a2a1e2eb8ae30160ae5dafb97c74aa906d089e313955dd5ce727 * P
    ensures 1 + F.DRES * BT2 == SIDE + 0x2b6cc59a99944230931f709dd6154114df3773c14313160c6e0001c240b8a35a * P
  {
  }

  /** The base point is on the curve, with T = XY and Z = 1. */
  lemma BasepointValid()
    ensures F.Valid(PointRes(BASEPOINT))
  {
    hide PointRes, Mod;
    BasepointRes();
    BasepointEquations();
  }

  // ---------------------------------------------------------------------------
  // Refinement of the residue formulas
  // ---------------------------------------------------------------------------

  lemma ExtendedRes(c: CompletedPoint)
    requires c.Ok()
    ensures PointRes(c.ToExtended()) == F.ToExtended(CompletedRes(c))
    ensures Res(c.ToProjective().x) == F.ToExtended(CompletedRes(c)).x
    ensures Res(c.ToProjective().y) == F.ToExtended(CompletedRes(c)).y
    ensures Res(c.ToProjective().z) == F.ToExtended(CompletedRes(c)).z
  {
    hide Mul, Ok, Res, FMul;
    ResMul(c.e, c.f);
    ResMul(c.g, c.h);
    ResMul(c.f, c.g);
    ResMul(c.e, c.h);
  }

  lemma AddRes(p: EdwardsPoint, q: EdwardsPoint)
    requires p.Ok() && q.Ok()
    ensures PointRes(p.Add(q)) == F.AddQ(PointRes(p), PointRes(q))
  {
    hide Mul, FE.Add, FE.Sub, Ok, Res, FMul, FAdd, FSub, D2;
    ConstantsOk();
    var ym, yp := FE.Sub(p.y, p.x), FE.Add(p.y, p.x);
    var qm, qp := FE.Sub(q.y, q.x), FE.Add(q.y, q.x);
    var a, b, td, zz := Mul(ym, qm), Mul(yp, qp), Mul(p.t, D2), Mul(p.z, q.z);
    var c, d := Mul(td, q.t), FE.Add(zz, zz);
    ResSub(p.y, p.x);
    ResAdd(p.y, p.x);
    ResSub(q.y, q.x);
    ResAdd(q.y, q.x);
    ResMul(ym, qm);
    ResMul(yp, qp);
    ResMul(p.t, D2);
    ResMul(td, q.t);
    ResMul(p.z, q.z);
    ResAdd(zz, zz);
    ResSub(b, a);
    ResAdd(b, a);
    ResSub(d, c);
    ResAdd(d, c);
    ExtendedRes(CompletedPoint(FE.Sub(b, a), FE.Add(b, a), FE.Sub(d, c), FE.Add(d, c)));
  }

  lemma ProjectiveDoubleRes(p: ProjectivePoint)
    requires p.Ok()
    ensures CompletedRes(p.Double()) == F.DoubleCompleted(Res(p.x), Res(p.y), Res(p.z))
  {
    hide FE.Square, FE.Add, FE.Sub, FE.Mul, FE.Val, FE.Mod, FE.Ok, ProjectivePoint.Ok, CompletedPoint.Ok, Res, FMul,
      FAdd, FSub;
    ProjectiveOk(p);
    var a, b, c := FE.Square(p.x), FE.Square(p.y), FE.Square(p.z);
    var c2, h, xy := FE.Add(c, c), FE.Add(a, b), FE.Add(p.x, p.y);
    ResSquare(p.x);
    ResSquare(p.y);
    ResSquare(p.z);
    ResAdd(c, c);
    ResAdd(a, b);
    ResAdd(p.x, p.y);
    ResSquare(xy);
    ResSub(h, FE.Square(xy));
    ResSub(a, b);
    ResAdd(c2, FE.Sub(a, b));
  }

  /** The extended doubling is the T-free doubling multiplied back. */
  lemma DoubleRes(p: EdwardsPoint)
    requires p.Ok()
    ensures PointRes(p.Double()) == F.DoubleQ(PointRes(p))
  {
    hide Mul, FE.Square, FE.Add, FE.Sub, Ok, Res, FMul, FAdd, FSub;
    var pp := ProjectivePoint(p.x, p.y, p.z);
    ProjectiveDoubleRes(pp);
    ExtendedRes(pp.Double());
  }

  lemma NegRes(p: EdwardsPoint)
    requires p.Ok()
    ensures PointRes(p.Negate()) == F.NegQ(PointRes(p))
  {
    hide Neg, Ok, Res, FNeg;
    ResNeg(p.x);
    ResNeg(p.t);
  }

  lemma NielsOfPoint(p: EdwardsPoint)
    requires p.Ok()
    ensures NielsRes(p.ToProjectiveNiels()) == F.ToNiels(PointRes(p))
  {
    hide Mul, FE.Add, FE.Sub, Ok, Res, FMul, FAdd, FSub, D2;
    ConstantsOk();
    ResAdd(p.y, p.x);
    ResSub(p.y, p.x);
    ResMul(p.t, D2);
  }

  lemma NielsNegRes(n: ProjectiveNiels, a: AffineNiels)
    requires n.Ok() && a.Ok()
    ensures NielsRes(n.Negate()) == F.NegNiels(NielsRes(n))
    ensures AffineRes(a.Negate()) == F.NegNiels(AffineRes(a))
  {
    hide Neg, Ok, Res, FNeg;
    ResNeg(n.t2d);
    ResNeg(a.xy2d);
  }

  lemma AddNielsRes(p: EdwardsPoint, n: ProjectiveNiels)
    requires p.Ok() && n.Ok()
    ensures CompletedRes(p.AddProjectiveNiels(n)) == F.AddNielsCompleted(PointRes(p), NielsRes(n))
  {
    hide Mul, FE.Add, FE.Sub, Ok, Res, FMul, FAdd, FSub;
    var yp, ym := FE.Add(p.y, p.x), FE.Sub(p.y, p.x);
    var pp, mm, tt, zz := Mul(yp, n.yPlusX), Mul(ym, n.yMinusX), Mul(p.t, n.t2d), Mul(p.z, n.z);
    ResAdd(p.y, p.x);
    ResSub(p.y, p.x);
    ResMul(yp, n.yPlusX);
    ResMul(ym, n.yMinusX);
    ResMul(p.t, n.t2d);
    ResMul(p.z, n.z);
    ResAdd(zz, zz);
    ResSub(pp, mm);
    ResAdd(pp, mm);
    ResSub(FE.Add(zz, zz), tt);
    ResAdd(FE.Add(zz, zz), tt);
  }

  lemma AddAffineRes(p: EdwardsPoint, n: AffineNiels)
    requires p.Ok() && n.Ok()
    ensures CompletedRes(p.AddAffineNiels(n)) == F.AddAffineCompleted(PointRes(p), AffineRes(n))
  {
    hide Mul, FE.Add, FE.Sub, Ok, Res, FMul, FAdd, FSub;
    var yp, ym := FE.Add(p.y, p.x), FE.Sub(p.y, p.x);
    var pp, mm, tt := Mul(yp, n.yPlusX), Mul(ym, n.yMinusX), Mul(p.t, n.xy2d);
    ResAdd(p.y, p.x);
    ResSub(p.y, p.x);
    ResMul(yp, n.yPlusX);
    ResMul(ym, n.yMinusX);
    ResMul(p.t, n.xy2d);
    ResAdd(p.z, p.z);
    ResSub(pp, mm);
    ResAdd(pp, mm);
    ResSub(FE.Add(p.z, p.z), tt);
    ResAdd(FE.Add(p.z, p.z), tt);
  }
}
