/** Tables of precomputed multiples (edwards/tables.rs and the tables of scalar_mul.rs and vartime.rs). */
module EdwardsTables {
  import opened Arith
  import opened FieldLimbs
  import FE = FieldLimbs
  import opened FieldPow
  import opened FieldResidues
  import opened FieldSqrt
  import F = EdwardsFormulas
  import opened EdwardsPoint
  import EdwardsEncoding
  import opened EdwardsGroup
  import opened EdwardsDenotes
  import opened Groups

  /** Entry k is [k + 1]e. */
  ghost predicate IsMultiples<G(!new)>(g: Group<G>, den: F.Quad -> G, table: seq<EdwardsPoint>, e: G) {
    forall k :: 0 <= k < |table| ==> Denotes(den, table[k], Times(g, k + 1, e))
  }

  /** Entry k is [2k + 1]e. */
  ghost predicate IsOdd<G(!new)>(g: Group<G>, den: F.Quad -> G, table: seq<EdwardsPoint>, e: G) {
    forall k :: 0 <= k < |table| ==> Denotes(den, table[k], Times(g, 2 * k + 1, e))
  }

  ghost predicate IsOddNiels<G(!new)>(g: Group<G>, den: F.Quad -> G, table: seq<ProjectiveNiels>, e: G) {
    forall k :: 0 <= k < |table| ==> NielsDenotes(den, table[k], Times(g, 2 * k + 1, e))
  }

  ghost predicate IsOddAffine<G(!new)>(g: Group<G>, den: F.Quad -> G, table: seq<AffineNiels>, e: G) {
    forall k :: 0 <= k < |table| ==> AffineDenotes(den, table[k], Times(g, 2 * k + 1, e))
  }

  // ---------------------------------------------------------------------------
  // [1..8]P
  // ---------------------------------------------------------------------------

  lemma NextMultiple<G(!new)>(g: Group<G>, den: F.Quad -> G, table: seq<EdwardsPoint>, p: EdwardsPoint, e: G)
    requires Interprets(g, den) && IsMultiples(g, den, table, e) && table != [] && Denotes(den, p, e)
    ensures table[|table| - 1].Ok() && p.Ok() && IsMultiples(g, den, table + [table[|table| - 1].Add(p)], e)
  {
    hide Interprets, Denotes, Times, EdwardsPoint.Add, EdwardsPoint.Ok;
    var n := |table|;
    InterpretsAbelian(g, den);
    AddDenotes(g, den, table[n - 1], p, Times(g, n, e), e);
    TimesAdd(g, n, 1, e);
    TimesOne(g, e);
  }

  lemma InterpretsAbelian<G(!new)>(g: Group<G>, den: F.Quad -> G)
    requires Interprets(g, den)
    ensures IsAbelian(g)
  {
    hide IsAbelian;
  }

  lemma FirstMultiple<G(!new)>(g: Group<G>, den: F.Quad -> G, p: EdwardsPoint, e: G)
    requires Interprets(g, den) && Denotes(den, p, e)
    ensures IsMultiples(g, den, [p], e) && IsOdd(g, den, [p], e)
  {
    hide Interprets, Denotes, Times;
    InterpretsAbelian(g, den);
    TimesOne(g, e);
  }

  /** The table `mul` selects from: 1P, 2P, .., 8P. */
  method Multiples<G(!new)>(p: EdwardsPoint, ghost g: Group<G>, ghost den: F.Quad -> G, ghost e: G)
    returns (r: seq<EdwardsPoint>)
    requires Interprets(g, den) && Denotes(den, p, e)
    ensures |r| == 8 && IsMultiples(g, den, r, e)
  {
    hide *;
    var table := new EdwardsPoint[8](_ => IDENTITY);
    table[0] := p;
    FirstMultiple(g, den, p, e);
    assert table[..1] == [p];
    for i := 1 to 8
      invariant IsMultiples(g, den, table[..i], e)
    {
      ghost var before := table[..i];
      NextMultiple(g, den, before, p, e);
      assert before[i - 1] == table[i - 1];
      table[i] := table[i - 1].Add(p);
      assert table[..i + 1] == before + [table[i]];
    }
    r := table[..];
    assert r == table[..8];
  }

  // ---------------------------------------------------------------------------
  // Odd multiples
  // ---------------------------------------------------------------------------

  lemma NextOdd<G(!new)>(g: Group<G>, den: F.Quad -> G, p: EdwardsPoint, double: EdwardsPoint, k: nat, e: G)
    requires Interprets(g, den) && Denotes(den, p, Times(g, 2 * k + 1, e)) && Denotes(den, double, Times(g, 2, e))
    ensures p.Ok() && double.Ok() && Denotes(den, p.Add(double), Times(g, 2 * k + 3, e))
  {
    hide Interprets, Denotes, Times, EdwardsPoint.Add, EdwardsPoint.Ok;
    InterpretsAbelian(g, den);
    AddDenotes(g, den, p, double, Times(g, 2 * k + 1, e), Times(g, 2, e));
    TimesAdd(g, 2 * k + 1, 2, e);
  }

  lemma Twice<G(!new)>(g: Group<G>, den: F.Quad -> G, p: EdwardsPoint, e: G)
    requires Interprets(g, den) && Denotes(den, p, e)
    ensures p.Ok() && Denotes(den, p.Double(), Times(g, 2, e)) && Denotes(den, p, Times(g, 1, e))
  {
    hide Interprets, Denotes, Times, EdwardsPoint.Double, EdwardsPoint.Ok;
    InterpretsAbelian(g, den);
    DoubleDenotes(g, den, p, e);
    TimesAdd(g, 1, 1, e);
    TimesOne(g, e);
  }

  lemma AppendNiels<G(!new)>(g: Group<G>, den: F.Quad -> G, table: seq<ProjectiveNiels>, p: EdwardsPoint, e: G)
    requires IsOddNiels(g, den, table, e) && Denotes(den, p, Times(g, 2 * |table| + 1, e))
    ensures p.Ok() && IsOddNiels(g, den, table + [p.ToProjectiveNiels()], e)
  {
    hide Denotes, Times, EdwardsPoint.ToProjectiveNiels, EdwardsPoint.Ok, NielsDenotes;
    ToNielsDenotes(den, p, Times(g, 2 * |table| + 1, e));
  }

  lemma NoNiels<G(!new)>(g: Group<G>, den: F.Quad -> G, e: G)
    ensures IsOddNiels(g, den, [], e)
  {
  }

  /** 1A, 3A, .., 15A in projective-Niels form, for a key decompressed for one signature. */
  method OddMultiplesNiels<G(!new)>(bigA: EdwardsPoint, ghost g: Group<G>, ghost den: F.Quad -> G, ghost e: G)
    returns (r: seq<ProjectiveNiels>)
    requires Interprets(g, den) && Denotes(den, bigA, e)
    ensures |r| == 8 && IsOddNiels(g, den, r, e)
  {
    hide *;
    Twice(g, den, bigA, e);
    var doubleA := bigA.Double();
    var multiple := bigA;
    var oddA := new ProjectiveNiels[8](_ => AnyNiels());
    NoNiels(g, den, e);
    AppendNiels(g, den, [], multiple, e);
    oddA[0] := multiple.ToProjectiveNiels();
    assert oddA[..1] == [] + [oddA[0]];
    for i := 1 to 8
      invariant IsOddNiels(g, den, oddA[..i], e)
      invariant Denotes(den, multiple, Times(g, 2 * i - 1, e))
    {
      ghost var before := oddA[..i];
      NextOdd(g, den, multiple, doubleA, i - 1, e);
      multiple := multiple.Add(doubleA);
      AppendNiels(g, den, before, multiple, e);
      oddA[i] := multiple.ToProjectiveNiels();
      assert oddA[..i + 1] == before + [oddA[i]];
    }
    r := oddA[..];
    assert r == oddA[..8];
  }

  lemma AppendOdd<G(!new)>(g: Group<G>, den: F.Quad -> G, table: seq<EdwardsPoint>, double: EdwardsPoint, e: G)
    requires Interprets(g, den) && IsOdd(g, den, table, e) && table != [] && Denotes(den, double, Times(g, 2, e))
    ensures table[|table| - 1].Ok() && double.Ok() && IsOdd(g, den, table + [table[|table| - 1].Add(double)], e)
  {
    hide Interprets, Denotes, Times, EdwardsPoint.Add, EdwardsPoint.Ok;
    NextOdd(g, den, table[|table| - 1], double, |table| - 1, e);
  }

  /** 1P, 3P, .., 127P before normalisation. */
  method OddPoints<G(!new)>(point: EdwardsPoint, ghost g: Group<G>, ghost den: F.Quad -> G, ghost e: G)
    returns (r: seq<EdwardsPoint>)
    requires Interprets(g, den) && Denotes(den, point, e)
    ensures |r| == 64 && IsOdd(g, den, r, e)
  {
    hide *;
    var odd := new EdwardsPoint[64](_ => IDENTITY);
    odd[0] := point;
    Twice(g, den, point, e);
    FirstMultiple(g, den, point, e);
    var doubleP := point.Double();
    assert odd[..1] == [point];
    for i := 1 to 64
      invariant IsOdd(g, den, odd[..i], e)
    {
      ghost var before := odd[..i];
      AppendOdd(g, den, before, doubleP, e);
      assert before[i - 1] == odd[i - 1];
      odd[i] := odd[i - 1].Add(doubleP);
      assert odd[..i + 1] == before + [odd[i]];
    }
    r := odd[..];
    assert r == odd[..64];
  }

  // ---------------------------------------------------------------------------
  // Normalisation with one shared inversion
  // ---------------------------------------------------------------------------

  /** The product of the Z coordinates, modulo p. */
  function ZProduct(points: seq<EdwardsPoint>): (r: int)
    ensures 0 <= r < P
  {
    if points == [] then 1
    else FMul(ZProduct(points[..|points| - 1]), Res(points[|points| - 1].z))
  }

  lemma ZProductStep(points: seq<EdwardsPoint>, i: nat)
    requires i < |points|
    ensures ZProduct(points[..i + 1]) == FMul(ZProduct(points[..i]), Res(points[i].z))
  {
    hide FMul, Res;
    assert points[..i + 1][..i] == points[..i];
  }

  /** The table's limbs are in range and no Z vanishes. */
  ghost predicate Invertible(points: seq<EdwardsPoint>) {
    forall k {:trigger points[k]} :: 0 <= k < |points| ==> points[k].Ok() && Ok(points[k].z) && Res(points[k].z) != 0
  }

  lemma InvertibleAt(points: seq<EdwardsPoint>, k: nat)
    requires Invertible(points) && k < |points|
    ensures points[k].Ok() && Ok(points[k].z) && Res(points[k].z) != 0
  {
    hide Ok, Res, EdwardsPoint.Ok;
  }

  lemma {:induction false} ZProductNonzero(points: seq<EdwardsPoint>)
    requires PrimeModulus() && Invertible(points)
    ensures ZProduct(points) != 0
  {
    hide Res, PrimeModulus, Mod, Ok, EdwardsPoint.Ok;
    if points != [] {
      var n := |points|;
      InvertibleAt(points, n - 1);
      var a, b := ZProduct(points[..n - 1]), Res(points[n - 1].z);
      ZProductNonzero(points[..n - 1]);
      ModSmall(a);
      ModSmall(b);
      F.FMulMod(a, b);
      EdwardsEncoding.ProductNonzero(a, b);
    }
  }

  /** `f` is the inverse of the residue z. */
  ghost predicate IsInverse(f: Fe, z: int) {
    Ok(f) && Mod(Res(f) * z) == 1
  }

  lemma InverseOk(f: Fe, z: int)
    requires IsInverse(f, z)
    ensures Ok(f)
  {
    hide Ok, Mod, Res;
  }

  lemma WholeInverse(running: Fe, points: seq<EdwardsPoint>)
    requires PrimeModulus() && Invertible(points) && Ok(running) && Res(running) == ZProduct(points)
    ensures IsInverse(Invert(running), ZProduct(points))
  {
    hide Invert, Res, PrimeModulus, Mod, Ok, EdwardsPoint.Ok;
    ZProductNonzero(points);
    EdwardsEncoding.InvertIsInverse(running);
    EdwardsEncoding.FOne();
  }

  /** The inverse of a product times one part is the inverse of the other. */
  lemma UnwindInverse(f: Fe, part: Fe, a: int, b: int)
    requires IsInverse(f, FMul(a, b)) && Ok(part) && Res(part) == a
    ensures IsInverse(Mul(f, part), b)
  {
    hide Mul, Mod, Ok, Res;
    ResMul(f, part);
    F.FMulMod(Res(f), a);
    F.FMulMod(a, b);
    ModMul(Res(f) * a, b);
    ModMul(Res(f), a * b);
    assert (Res(f) * a) * b == Res(f) * (a * b);
  }

  /** z_inverse[i] inverts z[i], and the suffix inverse loses one factor. */
  lemma UnwindStep(points: seq<EdwardsPoint>, i: nat, suffix: Fe, prefix: Fe)
    requires Invertible(points) && i < |points| && Ok(prefix) && Res(prefix) == ZProduct(points[..i])
    requires IsInverse(suffix, ZProduct(points[..i + 1]))
    ensures Ok(suffix) && Ok(points[i].z)
    ensures IsInverse(Mul(suffix, prefix), Res(points[i].z))
    ensures IsInverse(Mul(suffix, points[i].z), ZProduct(points[..i]))
  {
    hide Mul, Mod, Ok, Res, EdwardsPoint.Ok, IsInverse, FMul, ZProduct;
    InvertibleAt(points, i);
    InverseOk(suffix, ZProduct(points[..i + 1]));
    ZProductStep(points, i);
    var a, b := ZProduct(points[..i]), Res(points[i].z);
    UnwindInverse(suffix, prefix, a, b);
    F.FMulComm(a, b);
    UnwindInverse(suffix, points[i].z, b, a);
  }

  ghost predicate AreInverses(inverses: seq<Fe>, points: seq<EdwardsPoint>, from: nat) {
    |inverses| == |points| && forall k :: from <= k < |points| ==> IsInverse(inverses[k], Res(points[k].z))
  }

  /** The prefix products computed so far. */
  ghost predicate ArePrefixes(prefix: seq<Fe>, points: seq<EdwardsPoint>, upto: nat) {
    |prefix| == |points| && upto <= |points|
    && forall k {:trigger prefix[k]} :: 0 <= k < upto ==> Ok(prefix[k]) && Res(prefix[k]) == ZProduct(points[..k])
  }

  lemma PrefixStep(prefix: seq<Fe>, points: seq<EdwardsPoint>, i: nat, running: Fe)
    requires ArePrefixes(prefix, points, i) && i < |points| && Invertible(points)
    requires Ok(running) && Res(running) == ZProduct(points[..i])
    ensures ArePrefixes(prefix[i := running], points, i + 1)
    ensures Ok(points[i].z) && Ok(Mul(running, points[i].z))
    ensures Res(Mul(running, points[i].z)) == ZProduct(points[..i + 1])
  {
    hide Mul, Ok, Res, ZProduct, EdwardsPoint.Ok;
    InvertibleAt(points, i);
    ZProductStep(points, i);
    ResMul(running, points[i].z);
  }

  lemma PrefixAt(prefix: seq<Fe>, points: seq<EdwardsPoint>, n: nat, k: nat)
    requires ArePrefixes(prefix, points, n) && k < n
    ensures Ok(prefix[k]) && Res(prefix[k]) == ZProduct(points[..k])
  {
    hide Ok, Res, ZProduct;
  }

  lemma EmptyProduct(points: seq<EdwardsPoint>)
    ensures ZProduct(points[..0]) == 1
  {
  }

  lemma InverseAppended(inverses: seq<Fe>, points: seq<EdwardsPoint>, i: nat, f: Fe)
    requires AreInverses(inverses, points, i + 1) && i < |points| && IsInverse(f, Res(points[i].z))
    ensures AreInverses(inverses[i := f], points, i)
  {
    hide IsInverse, Res;
  }

  /** Every inverse of 64 Z coordinates from a single field inversion. */
  method SharedInversion(points: seq<EdwardsPoint>) returns (r: seq<Fe>)
    requires PrimeModulus() && |points| == 64 && Invertible(points)
    ensures AreInverses(r, points, 0)
  {
    hide *;
    var prefix := new Fe[64](_ => ONE);
    var running := ONE;
    EdwardsEncoding.OneOk();
    EmptyProduct(points);
    NoPrefixes(prefix[..], points);
    for i := 0 to 64
      invariant ArePrefixes(prefix[..], points, i)
      invariant Ok(running) && Res(running) == ZProduct(points[..i])
    {
      PrefixStep(prefix[..], points, i, running);
      ghost var before := prefix[..];
      prefix[i] := running;
      assert prefix[..] == before[i := running];
      running := Mul(running, points[i].z);
    }
    assert points[..64] == points;
    WholeInverse(running, points);
    var suffixInverse := Invert(running);
    var zInverse := new Fe[64](_ => ONE);
    NoInverses(zInverse[..], points);
    ghost var prefixes := prefix[..];
    for i := 64 downto 0
      invariant IsInverse(suffixInverse, ZProduct(points[..i]))
      invariant AreInverses(zInverse[..], points, i)
      invariant prefix[..] == prefixes
    {
      PrefixAt(prefixes, points, 64, i);
      UnwindStep(points, i, suffixInverse, prefix[i]);
      ghost var before := zInverse[..];
      zInverse[i] := Mul(suffixInverse, prefix[i]);
      assert zInverse[..] == before[i := zInverse[i]];
      InverseAppended(before, points, i, zInverse[i]);
      suffixInverse := Mul(suffixInverse, points[i].z);
    }
    r := zInverse[..];
  }

  lemma NoPrefixes(prefix: seq<Fe>, points: seq<EdwardsPoint>)
    requires |prefix| == |points|
    ensures ArePrefixes(prefix, points, 0)
  {
  }

  lemma NoInverses(inverses: seq<Fe>, points: seq<EdwardsPoint>)
    requires |inverses| == |points|
    ensures AreInverses(inverses, points, |points|)
  {
  }

  /** The affine-Niels form of a point, given the inverse of its Z. */
  function Normalised(p: EdwardsPoint, zInverse: Fe): (r: AffineNiels)
    requires p.Ok() && Ok(zInverse)
    ensures r.Ok()
  {
    hide *;
    PointOk(p);
    ConstantsOk();
    var x, y := Mul(p.x, zInverse), Mul(p.y, zInverse);
    AffineOk(FE.Add(y, x), FE.Sub(y, x), Mul(Mul(x, y), D2));
    AffineNiels(FE.Add(y, x), FE.Sub(y, x), Mul(Mul(x, y), D2))
  }

  lemma AffineOk(a: Fe, b: Fe, c: Fe)
    ensures AffineNiels(a, b, c).Ok() <==> Ok(a) && Ok(b) && Ok(c)
  {
    hide Ok;
  }

  lemma NormalisedRes(p: EdwardsPoint, i: Fe)
    requires p.Ok() && Ok(i) && Ok(p.x) && Ok(p.y)
    ensures var x, y := FMul(Res(i), Res(p.x)), FMul(Res(i), Res(p.y));
      AffineRes(Normalised(p, i)) == F.ToNiels(F.Quad(x, y, 1, FMul(x, y)))
  {
    hide Mul, FE.Add, FE.Sub, Ok, EdwardsPoint.Ok, Res, FMul, FAdd, FSub, D2;
    ConstantsOk();
    var fx, fy := Mul(p.x, i), Mul(p.y, i);
    ResMul(p.x, i);
    ResMul(p.y, i);
    F.FMulComm(Res(p.x), Res(i));
    F.FMulComm(Res(p.y), Res(i));
    ResAdd(fy, fx);
    ResSub(fy, fx);
    ResMul(fx, fy);
    ResMul(Mul(fx, fy), D2);
  }

  /** Dividing by Z keeps what the point denotes. */
  lemma NormalisedDenotes<G(!new)>(g: Group<G>, den: F.Quad -> G, p: EdwardsPoint, i: Fe, e: G)
    requires Interprets(g, den) && Denotes(den, p, e) && IsInverse(i, Res(p.z))
    ensures p.Ok() && Ok(i) && AffineDenotes(den, Normalised(p, i), e)
  {
    hide Interprets, Ok, Res, FMul, Mod, Normalised, EdwardsPoint.Ok, F.OnCurve, AffineRes, AffineNiels.Ok, F.ToNiels;
    PointOk(p);
    NormalisedRes(p, i);
    var q, k := PointRes(p), Res(i);
    DenScale(g, den, q, k, Res(p.z));
    var s := Scale(q, k);
    ScaledIsAffine(s, k, Res(p.z));
    assert AffineRes(Normalised(p, i)) == F.ToNiels(s);
  }

  lemma ScaledIsAffine(s: F.Quad, k: int, z: int)
    requires F.Valid(s) && s.z == FMul(k, z) && Mod(k * z) == 1
    ensures s.z == 1 && s.t == FMul(s.x, s.y)
  {
    hide F.OnCurve;
    ModSmall(s.t);
  }

  lemma OddInvertible<G(!new)>(g: Group<G>, den: F.Quad -> G, points: seq<EdwardsPoint>, e: G)
    requires IsOdd(g, den, points, e)
    ensures Invertible(points)
  {
    hide Denotes, Ok, Res, EdwardsPoint.Ok;
    forall k {:trigger points[k]} | 0 <= k < |points| ensures points[k].Ok() && Ok(points[k].z)
        && Res(points[k].z) != 0 {
      DenotesOk(den, points[k], Times(g, 2 * k + 1, e));
    }
  }

  lemma NormalisedTable<G(!new)>(g: Group<G>, den: F.Quad -> G, points: seq<EdwardsPoint>, inverses: seq<Fe>,
                                 table: seq<AffineNiels>, e: G)
    requires Interprets(g, den) && IsOdd(g, den, points, e) && AreInverses(inverses, points, 0) && Invertible(points)
    requires |table| == |points|
    requires forall k {:trigger table[k]} :: 0 <= k < |points| ==>
               Ok(inverses[k]) && points[k].Ok() && table[k] == Normalised(points[k], inverses[k])
    ensures IsOddAffine(g, den, table, e)
  {
    hide Interprets, Denotes, IsInverse, Ok, Res, EdwardsPoint.Ok, Normalised, AffineDenotes;
    forall k {:trigger table[k]} | 0 <= k < |table| ensures AffineDenotes(den, table[k], Times(g, 2 * k + 1, e)) {
      NormalisedDenotes(g, den, points[k], inverses[k], Times(g, 2 * k + 1, e));
    }
  }

  /** 1P, 3P, .., 127P with Z = 1, all 64 normalised with one inversion. */
  method AffineOddMultiples<G(!new)>(point: EdwardsPoint, ghost g: Group<G>, ghost den: F.Quad -> G, ghost e: G)
    returns (r: seq<AffineNiels>)
    requires PrimeModulus() && Interprets(g, den) && Denotes(den, point, e)
    ensures |r| == 64 && IsOddAffine(g, den, r, e)
  {
    hide *;
    var odd := OddPoints(point, g, den, e);
    OddInvertible(g, den, odd, e);
    var zInverse := SharedInversion(odd);
    AllInverses(zInverse, odd);
    r := seq(64, i requires 0 <= i < 64 => Normalised(odd[i], zInverse[i]));
    NormalisedTable(g, den, odd, zInverse, r, e);
  }

  lemma AllInverses(inverses: seq<Fe>, points: seq<EdwardsPoint>)
    requires AreInverses(inverses, points, 0) && Invertible(points)
    ensures |inverses| == |points|
    ensures forall k {:trigger inverses[k]} {:trigger points[k]} :: 0 <= k < |points| ==>
              Ok(inverses[k]) && points[k].Ok()
  {
    hide Ok, Mod, Res, EdwardsPoint.Ok;
  }
}
