/** What each of the five point representations denotes in a group, and how the limb operations act on it. */
module EdwardsDenotes {
  import opened FieldLimbs
  import FE = FieldLimbs
  import opened FieldPow
  import opened FieldResidues
  import opened FieldSqrt
  import F = EdwardsFormulas
  import opened EdwardsPoint
  import opened EdwardsGroup
  import opened Groups

  /** The extended point p is on the curve and denotes e. */
  ghost predicate Denotes<G(!new)>(den: F.Quad -> G, p: EdwardsPoint, e: G) {
    p.Ok() && F.Valid(PointRes(p)) && den(PointRes(p)) == e
  }

  /** A completed point denotes what its extended form denotes. */
  ghost predicate CompletedDenotes<G(!new)>(den: F.Quad -> G, c: CompletedPoint, e: G) {
    c.Ok() && F.Valid(F.ToExtended(CompletedRes(c))) && den(F.ToExtended(CompletedRes(c))) == e
  }

  /** A projective point denotes e when some T completes it to an extended point that does. */
  ghost predicate ProjectiveDenotes<G(!new)>(den: F.Quad -> G, p: ProjectivePoint, e: G) {
    p.Ok() && exists q: F.Quad :: ProjectiveOf(p, q) && F.Valid(q) && den(q) == e
  }

  ghost predicate ProjectiveOf(p: ProjectivePoint, q: F.Quad) {
    q.x == Res(p.x) && q.y == Res(p.y) && q.z == Res(p.z)
  }

  /** A cached point denotes what the point it caches denotes. */
  ghost predicate NielsDenotes<G(!new)>(den: F.Quad -> G, n: ProjectiveNiels, e: G) {
    n.Ok() && exists q: F.Quad :: NielsRes(n) == F.ToNiels(q) && F.Valid(q) && den(q) == e
  }

  ghost predicate AffineDenotes<G(!new)>(den: F.Quad -> G, n: AffineNiels, e: G) {
    n.Ok() && exists q: F.Quad :: AffineRes(n) == F.ToNiels(q) && q.z == 1 && F.Valid(q) && den(q) == e
  }

  lemma DenotesOk<G(!new)>(den: F.Quad -> G, p: EdwardsPoint, e: G)
    requires Denotes(den, p, e)
    ensures p.Ok() && FE.Ok(p.x) && FE.Ok(p.y) && FE.Ok(p.z) && FE.Ok(p.t) && 0 < Res(p.z)
  {
    hide Res, FE.Ok;
    PointOk(p);
  }

  lemma AddDenotes<G(!new)>(g: Group<G>, den: F.Quad -> G, p: EdwardsPoint, q: EdwardsPoint, a: G, b: G)
    requires Interprets(g, den) && Denotes(den, p, a) && Denotes(den, q, b)
    ensures p.Ok() && q.Ok() && Denotes(den, p.Add(q), g.add(a, b))
  {
    hide Interprets, FE.Ok, F.Valid, PointRes, F.AddQ, EdwardsPoint.Add, EdwardsPoint.Ok;
    AddRes(p, q);
    DenAdd(g, den, PointRes(p), PointRes(q));
  }

  lemma DoubleDenotes<G(!new)>(g: Group<G>, den: F.Quad -> G, p: EdwardsPoint, a: G)
    requires Interprets(g, den) && Denotes(den, p, a)
    ensures p.Ok() && Denotes(den, p.Double(), g.add(a, a))
  {
    hide Interprets, FE.Ok, F.Valid, PointRes, F.DoubleQ, EdwardsPoint.Double, EdwardsPoint.Ok;
    DoubleRes(p);
    DenDouble(g, den, PointRes(p));
  }

  lemma NegateDenotes<G(!new)>(g: Group<G>, den: F.Quad -> G, p: EdwardsPoint, a: G)
    requires Interprets(g, den) && Denotes(den, p, a)
    ensures p.Ok() && Denotes(den, p.Negate(), g.neg(a))
  {
    hide Interprets, FE.Ok, F.Valid, PointRes, F.NegQ, EdwardsPoint.Negate, EdwardsPoint.Ok;
    NegRes(p);
    DenNeg(g, den, PointRes(p), F.NegQ(PointRes(p)));
  }

  lemma IdentityDenotes<G(!new)>(g: Group<G>, den: F.Quad -> G)
    requires Interprets(g, den)
    ensures Denotes(den, IDENTITY, g.zero)
    ensures ProjectiveDenotes(den, PROJECTIVE_IDENTITY, g.zero)
  {
    hide Interprets, FE.Ok, F.Valid;
    ConstantsOk();
    PointOk(IDENTITY);
    IdentityValid();
    DenIdentity(g, den);
    assert ProjectiveOf(PROJECTIVE_IDENTITY, F.IDENTITYQ);
  }

  const PROJECTIVE_IDENTITY := ProjectivePoint(ZERO, ONE, ONE)

  /** Multiplying a completed point back keeps what it denotes. */
  lemma ToExtendedDenotes<G(!new)>(den: F.Quad -> G, c: CompletedPoint, e: G)
    requires CompletedDenotes(den, c, e)
    ensures c.Ok() && Denotes(den, c.ToExtended(), e)
    ensures ProjectiveDenotes(den, c.ToProjective(), e)
  {
    hide FE.Ok, F.Valid, PointRes, Res, CompletedRes, F.ToExtended, CompletedPoint.ToExtended,
      CompletedPoint.ToProjective,
         CompletedPoint.Ok, ProjectivePoint.Ok, EdwardsPoint.Ok;
    ExtendedRes(c);
    var q := F.ToExtended(CompletedRes(c));
    assert ProjectiveOf(c.ToProjective(), q);
  }

  /** Doubling from projective coordinates, T never formed. */
  lemma ProjectiveDoubleDenotes<G(!new)>(g: Group<G>, den: F.Quad -> G, p: ProjectivePoint, a: G)
    requires Interprets(g, den) && ProjectiveDenotes(den, p, a)
    ensures p.Ok() && CompletedDenotes(den, p.Double(), g.add(a, a))
  {
    hide Interprets, FE.Ok, F.Valid, Res, F.DoubleCompleted, ProjectivePoint.Double, CompletedRes, F.ToExtended,
         CompletedPoint.Ok, ProjectivePoint.Ok;
    var q: F.Quad :| ProjectiveOf(p, q) && F.Valid(q) && den(q) == a;
    ProjectiveDoubleRes(p);
    DenDouble(g, den, q);
  }

  lemma ToNielsDenotes<G(!new)>(den: F.Quad -> G, p: EdwardsPoint, a: G)
    requires Denotes(den, p, a)
    ensures p.Ok() && NielsDenotes(den, p.ToProjectiveNiels(), a)
  {
    hide FE.Ok, F.Valid, PointRes, F.ToNiels, EdwardsPoint.ToProjectiveNiels, EdwardsPoint.Ok, NielsRes,
      ProjectiveNiels.Ok;
    NielsOfPoint(p);
  }

  lemma NielsNegateDenotes<G(!new)>(g: Group<G>, den: F.Quad -> G, n: ProjectiveNiels, a: G)
    requires Interprets(g, den) && NielsDenotes(den, n, a)
    ensures n.Ok() && NielsDenotes(den, n.Negate(), g.neg(a))
  {
    hide Interprets, F.Valid, F.ToNiels, F.NegNiels, NielsRes, ProjectiveNiels.Ok, ProjectiveNiels.Negate, F.NegQ,
      FE.Ok;
    var q: F.Quad :| NielsRes(n) == F.ToNiels(q) && F.Valid(q) && den(q) == a;
    NielsNegRes(n, AnyAffine());
    F.NegNielsIsNeg(q);
    DenNeg(g, den, q, F.NegQ(q));
  }

  lemma AffineNegateDenotes<G(!new)>(g: Group<G>, den: F.Quad -> G, n: AffineNiels, a: G)
    requires Interprets(g, den) && AffineDenotes(den, n, a)
    ensures n.Ok() && AffineDenotes(den, n.Negate(), g.neg(a))
  {
    hide Interprets, F.Valid, F.ToNiels, F.NegNiels, AffineRes, AffineNiels.Ok, AffineNiels.Negate, FE.Ok, FNeg;
    var q: F.Quad :| AffineRes(n) == F.ToNiels(q) && q.z == 1 && F.Valid(q) && den(q) == a;
    NielsNegRes(AnyNiels(), n);
    F.NegNielsIsNeg(q);
    DenNeg(g, den, q, F.NegQ(q));
  }

  function AnyAffine(): (n: AffineNiels)
    ensures n.Ok()
  {
    AffineNiels(ONE, ONE, ONE)
  }

  function AnyNiels(): (n: ProjectiveNiels)
    ensures n.Ok()
  {
    ProjectiveNiels(ONE, ONE, ONE, ONE)
  }

  /** Adding a cached point adds the point it caches. */
  lemma AddNielsDenotes<G(!new)>(g: Group<G>, den: F.Quad -> G, p: EdwardsPoint, n: ProjectiveNiels, a: G, b: G)
    requires Interprets(g, den) && Denotes(den, p, a) && NielsDenotes(den, n, b)
    ensures p.Ok() && n.Ok() && CompletedDenotes(den, p.AddProjectiveNiels(n), g.add(a, b))
  {
    hide Interprets, F.Valid, F.ToNiels, NielsRes, ProjectiveNiels.Ok, FE.Ok, EdwardsPoint.Ok, CompletedPoint.Ok,
         EdwardsPoint.AddProjectiveNiels, F.AddNielsCompleted, F.AddCompleted, CompletedRes, PointRes, F.ToExtended;
    var q: F.Quad :| NielsRes(n) == F.ToNiels(q) && F.Valid(q) && den(q) == b;
    AddNielsRes(p, n);
    F.NielsIsAdd(PointRes(p), q);
    DenAdd(g, den, PointRes(p), q);
  }

  lemma AddAffineDenotes<G(!new)>(g: Group<G>, den: F.Quad -> G, p: EdwardsPoint, n: AffineNiels, a: G, b: G)
    requires Interprets(g, den) && Denotes(den, p, a) && AffineDenotes(den, n, b)
    ensures p.Ok() && n.Ok() && CompletedDenotes(den, p.AddAffineNiels(n), g.add(a, b))
  {
    hide Interprets, F.ToNiels, AffineRes, AffineNiels.Ok, FE.Ok, EdwardsPoint.Ok, CompletedPoint.Ok, F.OnCurve, Mod,
         EdwardsPoint.AddAffineNiels, F.AddAffineCompleted, F.AddCompleted, CompletedRes, PointRes, F.ToExtended;
    var q: F.Quad :| AffineRes(n) == F.ToNiels(q) && q.z == 1 && F.Valid(q) && den(q) == b;
    AddAffineRes(p, n);
    F.AffineIsAdd(PointRes(p), q);
    DenAdd(g, den, PointRes(p), q);
  }
}
