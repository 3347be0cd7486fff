/** Scalar multiplication (edwards/vartime.rs, edwards/scalar_mul.rs). */
module EdwardsMul {
  import opened Arith
  import opened Words
  import opened Bytes
  import opened ScalarReduce
  import opened Scalar
  import opened Naf
  import opened FieldLimbs
  import opened FieldResidues
  import opened FieldSqrt
  import F = EdwardsFormulas
  import opened EdwardsPoint
  import opened EdwardsGroup
  import opened EdwardsDenotes
  import opened EdwardsTables
  import opened Groups

  // ---------------------------------------------------------------------------
  // [m]A + [n]B in the group
  // ---------------------------------------------------------------------------

  function Comb<G>(g: Group<G>, m: int, a: G, n: int, b: G): G {
    g.add(Times(g, m, a), Times(g, n, b))
  }

  lemma CombDouble<G(!new)>(g: Group<G>, m: int, a: G, n: int, b: G)
    requires IsAbelian(g)
    ensures g.add(Comb(g, m, a, n, b), Comb(g, m, a, n, b)) == Comb(g, 2 * m, a, 2 * n, b)
  {
    hide IsAbelian, Times;
    Interchange(g, Times(g, m, a), Times(g, n, b), Times(g, m, a), Times(g, n, b));
    TimesAdd(g, m, m, a);
    TimesAdd(g, n, n, b);
  }

  lemma CombAddLeft<G(!new)>(g: Group<G>, m: int, a: G, n: int, b: G, k: int)
    requires IsAbelian(g)
    ensures g.add(Comb(g, m, a, n, b), Times(g, k, a)) == Comb(g, m + k, a, n, b)
  {
    hide IsAbelian, Times;
    TimesAdd(g, m, k, a);
    var x, y, z := Times(g, m, a), Times(g, n, b), Times(g, k, a);
    Assoc(g, x, y, z);
    Comm(g, y, z);
    Assoc(g, x, z, y);
  }

  lemma CombAddRight<G(!new)>(g: Group<G>, m: int, a: G, n: int, b: G, k: int)
    requires IsAbelian(g)
    ensures g.add(Comb(g, m, a, n, b), Times(g, k, b)) == Comb(g, m, a, n + k, b)
  {
    hide IsAbelian, Times;
    TimesAdd(g, n, k, b);
    Assoc(g, Times(g, m, a), Times(g, n, b), Times(g, k, b));
  }

  lemma CombZero<G(!new)>(g: Group<G>, a: G, b: G)
    requires IsAbelian(g)
    ensures Comb(g, 0, a, 0, b) == g.zero
  {
    TimesZero(g, a);
    TimesZero(g, b);
    Zero(g, g.zero);
  }

  /** A digit string from position i on: the digit, plus the base times the rest. */
  lemma Horner(d: seq<int>, base: int, i: nat)
    requires i < |d|
    ensures DigitSum(d[i..], base) == d[i] + base * DigitSum(d[i + 1..], base)
  {
    assert d[i..][1..] == d[i + 1..];
  }

  lemma NoDigits(d: seq<int>, base: int)
    ensures DigitSum(d[|d|..], base) == 0
  {
  }

  // ---------------------------------------------------------------------------
  // Signed lookups in tables of odd multiples
  // ---------------------------------------------------------------------------

  /** The two tables the verification loop adds from. */
  datatype OddMultiples = FromKey(niels: seq<ProjectiveNiels>) | Prepared(affine: seq<AffineNiels>) {
    /** The window width that matches the table's size. */
    function Width(): nat {
      if FromKey? then 5 else 8
    }

    ghost predicate Ok() {
      match this
      case FromKey(t) => |t| == 8 && forall k :: 0 <= k < 8 ==> t[k].Ok()
      case Prepared(t) => |t| == 64 && forall k :: 0 <= k < 64 ==> t[k].Ok()
    }

    /** A nonzero digit this table has an entry for. */
    ghost predicate HasDigit(digit: int) {
      digit % 2 == 1 && if FromKey? then -16 < digit < 16 else -128 < digit < 128
    }

    function AddSigned(point: EdwardsPoint, digit: i8): (r: CompletedPoint)
      requires Ok() && point.Ok() && HasDigit(digit)
      ensures r.Ok()
    {
      hide EdwardsPoint.AddProjectiveNiels, EdwardsPoint.AddAffineNiels, ProjectiveNiels.Negate, AffineNiels.Negate,
           EdwardsPoint.Ok, ProjectiveNiels.Ok, AffineNiels.Ok, CompletedPoint.Ok;
      match this
      case FromKey(t) =>
        if digit > 0 then point.AddProjectiveNiels(t[digit / 2])
        else point.AddProjectiveNiels(t[(-digit) / 2].Negate())
      case Prepared(t) =>
        if digit > 0 then point.AddAffineNiels(t[digit / 2])
        else point.AddAffineNiels(t[(-digit) / 2].Negate())
    }
  }

  ghost predicate OddTable<G(!new)>(g: Group<G>, den: F.Quad -> G, t: OddMultiples, e: G) {
    && t.Ok()
    && match t
       case FromKey(s) => IsOddNiels(g, den, s, e)
       case Prepared(s) => IsOddAffine(g, den, s, e)
  }

  lemma KeyTable<G(!new)>(g: Group<G>, den: F.Quad -> G, s: seq<ProjectiveNiels>, e: G)
    requires |s| == 8 && IsOddNiels(g, den, s, e)
    ensures OddTable(g, den, FromKey(s), e)
  {
    hide ProjectiveNiels.Ok, F.Valid, F.ToNiels, NielsRes;
  }

  lemma PreparedTable<G(!new)>(g: Group<G>, den: F.Quad -> G, s: seq<AffineNiels>, e: G)
    requires |s| == 64 && IsOddAffine(g, den, s, e)
    ensures OddTable(g, den, Prepared(s), e)
  {
    hide AffineNiels.Ok, F.Valid, F.ToNiels, AffineRes;
  }

  /** A signed lookup adds [digit]e, whichever cached form the table holds. */
  lemma AddSignedDenotes<G(!new)>(g: Group<G>, den: F.Quad -> G, t: OddMultiples, point: EdwardsPoint, digit: i8, a: G,
                                  e: G)
    requires Interprets(g, den) && OddTable(g, den, t, e) && Denotes(den, point, a) && t.HasDigit(digit)
    ensures t.Ok() && point.Ok() && CompletedDenotes(den, t.AddSigned(point, digit), g.add(a, Times(g, digit, e)))
  {
    hide Interprets, Denotes, NielsDenotes, AffineDenotes, CompletedDenotes, Times, EdwardsPoint.AddProjectiveNiels,
         EdwardsPoint.AddAffineNiels, ProjectiveNiels.Negate, AffineNiels.Negate, EdwardsPoint.Ok, ProjectiveNiels.Ok,
         AffineNiels.Ok, CompletedPoint.Ok;
    DenotesOk(den, point, a);
    InterpretsAbelian(g, den);
    var k := if digit > 0 then digit / 2 else (-digit) / 2;
    var m := Times(g, 2 * k + 1, e);
    assert digit > 0 ==> 2 * k + 1 == digit;
    assert digit < 0 ==> 2 * k + 1 == -digit;
    TimesNeg(g, 2 * k + 1, e);
    match t
    case FromKey(s) =>
      NielsNegateDenotes(g, den, s[k], m);
      AddNielsDenotes(g, den, point, if digit > 0 then s[k] else s[k].Negate(), a, Times(g, digit, e));
    case Prepared(s) =>
      AffineNegateDenotes(g, den, s[k], m);
      AddAffineDenotes(g, den, point, if digit > 0 then s[k] else s[k].Negate(), a, Times(g, digit, e));
  }

  /** Every nonzero digit of a non-adjacent form of the table's width is in the table. */
  lemma NafDigit(t: OddMultiples, d: seq<int>, i: nat)
    requires IsNaf(d, t.Width()) && i < |d| && d[i] != 0
    ensures t.HasDigit(d[i])
  {
    SmallPow2();
  }

  lemma SmallPow2()
    ensures Pow2(4) == 16 && Pow2(7) == 128
  {
  }

  // ---------------------------------------------------------------------------
  // [a]A + [b]B
  // ---------------------------------------------------------------------------

  /** The group element of the base point. */
  ghost function BaseElement<G>(den: F.Quad -> G): G {
    den(PointRes(BASEPOINT))
  }

  lemma BaseDenotes<G(!new)>(den: F.Quad -> G)
    ensures Denotes(den, BASEPOINT, BaseElement(den))
  {
    hide PointRes, F.Valid;
    ConstantsOk();
    BasepointValid();
  }

  /** [m]A + [n]B with B the base point, spelled out. */
  lemma CombMeaning<G>(g: Group<G>, den: F.Quad -> G, m: int, a: G, n: int)
    ensures Comb(g, m, a, n, BaseElement(den)) == g.add(Times(g, m, a), Times(g, n, den(PointRes(BASEPOINT))))
    ensures BaseElement(den) == den(PointRes(BASEPOINT))
  {
    hide Times, PointRes, BASEPOINT;
  }

  /** What the accumulator holds once the digits from i on are used. */
  ghost function Upper<G>(g: Group<G>, aNaf: seq<int>, a: G, bNaf: seq<int>, b: G, i: nat): G
    requires i <= |aNaf| == |bNaf|
  {
    Comb(g, DigitSum(aNaf[i..], 2), a, DigitSum(bNaf[i..], 2), b)
  }

  /** One position: double, then add the digits that are not zero. */
  method DigitStep<G(!new)>(acc: ProjectivePoint, oddA: OddMultiples, oddB: OddMultiples, digitA: i8, digitB: i8,
                            ghost g: Group<G>, ghost den: F.Quad -> G, ghost a: G, ghost b: G, ghost m: int,
                            ghost n: int)
    returns (completed: CompletedPoint)
    requires Interprets(g, den) && OddTable(g, den, oddA, a) && OddTable(g, den, oddB, b)
    requires digitA != 0 ==> oddA.HasDigit(digitA)
    requires digitB != 0 ==> oddB.HasDigit(digitB)
    requires ProjectiveDenotes(den, acc, Comb(g, m, a, n, b))
    ensures CompletedDenotes(den, completed, Comb(g, 2 * m + digitA, a, 2 * n + digitB, b))
  {
    hide *;
    InterpretsAbelian(g, den);
    ProjectiveDoubleDenotes(g, den, acc, Comb(g, m, a, n, b));
    CombDouble(g, m, a, n, b);
    completed := acc.Double();
    ToExtendedDenotes(den, completed, Comb(g, 2 * m, a, 2 * n, b));
    if digitA != 0 || digitB != 0 {
      var extended := completed.ToExtended();
      if digitA != 0 {
        AddSignedDenotes(g, den, oddA, extended, digitA, Comb(g, 2 * m, a, 2 * n, b), a);
        CombAddLeft(g, 2 * m, a, 2 * n, b, digitA);
        completed := oddA.AddSigned(extended, digitA);
      }
      if digitB != 0 {
        if digitA != 0 {
          ToExtendedDenotes(den, completed, Comb(g, 2 * m + digitA, a, 2 * n, b));
          extended := completed.ToExtended();
        }
        AddSignedDenotes(g, den, oddB, extended, digitB, Comb(g, 2 * m + digitA, a, 2 * n, b), b);
        CombAddRight(g, 2 * m + digitA, a, 2 * n, b, digitB);
        completed := oddB.AddSigned(extended, digitB);
      }
    }
  }

  lemma UpperStep<G>(g: Group<G>, aNaf: seq<int>, a: G, bNaf: seq<int>, b: G, i: nat)
    requires i < |aNaf| == |bNaf|
    ensures Upper(g, aNaf, a, bNaf, b, i + 1) == Comb(g, DigitSum(aNaf[i + 1..], 2), a, DigitSum(bNaf[i + 1..], 2), b)
    ensures Upper(g, aNaf, a, bNaf, b, i)
         == Comb(g, 2 * DigitSum(aNaf[i + 1..], 2) + aNaf[i], a, 2 * DigitSum(bNaf[i + 1..], 2) + bNaf[i], b)
  {
    hide Comb, DigitSum;
    Horner(aNaf, 2, i);
    Horner(bNaf, 2, i);
  }

  /** The accumulator starts above the highest nonzero digit, where it denotes the identity. */
  lemma UpperZero<G(!new)>(g: Group<G>, aNaf: seq<int>, a: G, bNaf: seq<int>, b: G, i: nat)
    requires IsAbelian(g) && i <= |aNaf| == |bNaf|
    requires DigitSum(aNaf[i..], 2) == 0 && DigitSum(bNaf[i..], 2) == 0
    ensures Upper(g, aNaf, a, bNaf, b, i) == g.zero
  {
    hide IsAbelian, Comb, DigitSum;
    CombZero(g, a, b);
  }

  lemma UpperAll<G(!new)>(g: Group<G>, aNaf: seq<int>, a: G, bNaf: seq<int>, b: G, m: int, n: int)
    requires |aNaf| == |bNaf| && DigitSum(aNaf, 2) == m && DigitSum(bNaf, 2) == n
    ensures Upper(g, aNaf, a, bNaf, b, 0) == Comb(g, m, a, n, b)
  {
    hide Comb, DigitSum;
    assert aNaf[0..] == aNaf && bNaf[0..] == bNaf;
  }

  lemma WidthInRange(t: OddMultiples)
    ensures 2 <= t.Width() <= 8 && (t.Prepared? ==> t.Width() == 8)
  {
  }

  /** Variable-time `[a]A + [b]B`, for reduced scalars and either table of odd multiples of A. */
  method DoubleScalarMul<G(!new)>(a: Limbs4, oddA: OddMultiples, b: Limbs4,
                                  ghost g: Group<G>, ghost den: F.Quad -> G, ghost bigA: G)
    returns (r: EdwardsPoint)
    requires PrimeModulus() && Interprets(g, den) && OddTable(g, den, oddA, bigA)
    requires Nat(a) < ORDER && Nat(b) < ORDER
    ensures Denotes(den, r, Comb(g, Nat(a), bigA, Nat(b), BaseElement(den)))
    ensures Denotes(den, r, g.add(Times(g, Nat(a), bigA), Times(g, Nat(b), den(PointRes(BASEPOINT)))))
  {
    hide *;
    CombMeaning(g, den, Nat(a), bigA, Nat(b));
    ghost var base := BaseElement(den);
    BaseDenotes(den);
    var baseTable := AffineOddMultiples(BASEPOINT, g, den, base);
    PreparedTable(g, den, baseTable, base);
    var oddB := Prepared(baseTable);
    WidthInRange(oddA);
    WidthInRange(oddB);
    var aNaf := NonAdjacentForm(a, oddA.Width());
    var bNaf := NonAdjacentForm(b, oddB.Width());
    ReducedIsExact(Nat(a));
    ReducedIsExact(Nat(b));
    NoDigits(aNaf, 2);
    NoDigits(bNaf, 2);
    var i := 255;
    while i > 0 && aNaf[i] == 0 && bNaf[i] == 0
      invariant 0 <= i <= 255
      invariant DigitSum(aNaf[i + 1..], 2) == 0 && DigitSum(bNaf[i + 1..], 2) == 0
    {
      Horner(aNaf, 2, i);
      Horner(bNaf, 2, i);
      i := i - 1;
    }
    InterpretsAbelian(g, den);
    IdentityDenotes(g, den);
    UpperZero(g, aNaf, bigA, bNaf, base, i + 1);
    var acc := PROJECTIVE_IDENTITY;
    while true
      invariant 0 <= i <= 255
      invariant ProjectiveDenotes(den, acc, Upper(g, aNaf, bigA, bNaf, base, i + 1))
      decreases i
    {
      if aNaf[i] != 0 {
        NafDigit(oddA, aNaf, i);
      }
      if bNaf[i] != 0 {
        NafDigit(oddB, bNaf, i);
      }
      UpperStep(g, aNaf, bigA, bNaf, base, i);
      var completed := DigitStep(acc, oddA, oddB, aNaf[i], bNaf[i], g, den, bigA, base,
                                 DigitSum(aNaf[i + 1..], 2), DigitSum(bNaf[i + 1..], 2));
      ToExtendedDenotes(den, completed, Upper(g, aNaf, bigA, bNaf, base, i));
      if i == 0 {
        UpperAll(g, aNaf, bigA, bNaf, base, Nat(a), Nat(b));
        return completed.ToExtended();
      }
      acc := completed.ToProjective();
      i := i - 1;
    }
  }

  /** `[a]A + [b]B` for a key decompressed for this signature. */
  method VartimeDoubleScalarMulBasepoint<G(!new)>(a: Limbs4, bigA: EdwardsPoint, b: Limbs4,
                                                  ghost g: Group<G>, ghost den: F.Quad -> G, ghost e: G)
    returns (r: EdwardsPoint)
    requires PrimeModulus() && Interprets(g, den) && Denotes(den, bigA, e)
    requires Nat(a) < ORDER && Nat(b) < ORDER
    ensures Denotes(den, r, Comb(g, Nat(a), e, Nat(b), BaseElement(den)))
  {
    hide *;
    var oddA := OddMultiplesNiels(bigA, g, den, e);
    KeyTable(g, den, oddA, e);
    r := DoubleScalarMul(a, FromKey(oddA), b, g, den, e);
  }

  /** The same sum from a table prepared ahead of time. */
  method VartimeDoubleScalarMulPrepared<G(!new)>(a: Limbs4, oddA: seq<AffineNiels>, b: Limbs4,
                                                 ghost g: Group<G>, ghost den: F.Quad -> G, ghost e: G)
    returns (r: EdwardsPoint)
    requires PrimeModulus() && Interprets(g, den) && |oddA| == 64 && IsOddAffine(g, den, oddA, e)
    requires Nat(a) < ORDER && Nat(b) < ORDER
    ensures Denotes(den, r, Comb(g, Nat(a), e, Nat(b), BaseElement(den)))
  {
    hide *;
    PreparedTable(g, den, oddA, e);
    r := DoubleScalarMul(a, Prepared(oddA), b, g, den, e);
  }

  // ---------------------------------------------------------------------------
  // Table lookup by a signed radix-16 digit
  // ---------------------------------------------------------------------------

  /** Coordinate-wise select. */
  function SelectPoint(a: EdwardsPoint, b: EdwardsPoint, choice: bool): (r: EdwardsPoint)
    ensures r == if choice then b else a
  {
    EdwardsPoint(Select(a.x, b.x, choice), Select(a.y, b.y, choice), Select(a.z, b.z, choice), Select(a.t, b.t, choice))
  }

  /** `|digit| * P` read by touching every entry, negated when the digit is negative. */
  method SelectSigned<G(!new)>(table: seq<EdwardsPoint>, digit: i8, ghost g: Group<G>, ghost den: F.Quad -> G,
                               ghost e: G)
    returns (r: EdwardsPoint)
    requires Interprets(g, den) && |table| == 8 && IsMultiples(g, den, table, e) && -8 <= digit <= 8
    ensures Denotes(den, r, Times(g, digit, e))
  {
    hide *;
    var negative := digit < 0;
    var magnitude: int := if negative then -digit else digit;
    var selected := IDENTITY;
    InterpretsAbelian(g, den);
    IdentityDenotes(g, den);
    TimesZero(g, e);
    for i := 0 to 8
      invariant Denotes(den, selected, Times(g, if magnitude <= i then magnitude else 0, e))
    {
      MultipleAt(g, den, table, i, e);
      selected := SelectPoint(selected, table[i], magnitude == i + 1);
    }
    NegateDenotes(g, den, selected, Times(g, magnitude, e));
    TimesNeg(g, magnitude, e);
    var negated := selected.Negate();
    NegatedParts(selected);
    r := EdwardsPoint(Select(selected.x, negated.x, negative), selected.y, selected.z,
                      Select(selected.t, negated.t, negative));
    Selected(selected.x, negated.x, negative);
    Selected(selected.t, negated.t, negative);
  }

  lemma Selected(a: Fe, b: Fe, choice: bool)
    ensures Select(a, b, choice) == if choice then b else a
  {
  }

  lemma NegatedParts(p: EdwardsPoint)
    requires p.Ok()
    ensures p.Negate().y == p.y && p.Negate().z == p.z
  {
  }

  lemma MultipleAt<G(!new)>(g: Group<G>, den: F.Quad -> G, table: seq<EdwardsPoint>, i: nat, e: G)
    requires IsMultiples(g, den, table, e) && i < |table|
    ensures Denotes(den, table[i], Times(g, i + 1, e))
  {
    hide Denotes, Times;
  }

  // ---------------------------------------------------------------------------
  // [s]P and [s]B
  // ---------------------------------------------------------------------------

  /** Four doublings multiply by sixteen. */
  lemma SixteenTimes<G(!new)>(g: Group<G>, den: F.Quad -> G, p: EdwardsPoint, n: int, e: G)
    requires Interprets(g, den) && Denotes(den, p, Times(g, n, e))
    ensures p.Ok() && Denotes(den, p.Double().Double().Double().Double(), Times(g, 16 * n, e))
  {
    hide *;
    DoubleTimes(g, den, p, n, e);
    DoubleTimes(g, den, p.Double(), 2 * n, e);
    DoubleTimes(g, den, p.Double().Double(), 4 * n, e);
    DoubleTimes(g, den, p.Double().Double().Double(), 8 * n, e);
  }

  lemma DoubleTimes<G(!new)>(g: Group<G>, den: F.Quad -> G, p: EdwardsPoint, n: int, e: G)
    requires Interprets(g, den) && Denotes(den, p, Times(g, n, e))
    ensures p.Ok() && Denotes(den, p.Double(), Times(g, 2 * n, e))
  {
    hide Interprets, Denotes, Times, EdwardsPoint.Double, EdwardsPoint.Ok;
    InterpretsAbelian(g, den);
    DoubleDenotes(g, den, p, Times(g, n, e));
    TimesAdd(g, n, n, e);
  }

  lemma AddTimes<G(!new)>(g: Group<G>, den: F.Quad -> G, p: EdwardsPoint, q: EdwardsPoint, m: int, n: int, e: G)
    requires Interprets(g, den) && Denotes(den, p, Times(g, m, e)) && Denotes(den, q, Times(g, n, e))
    ensures p.Ok() && q.Ok() && Denotes(den, p.Add(q), Times(g, m + n, e))
  {
    hide Interprets, Denotes, Times, EdwardsPoint.Add, EdwardsPoint.Ok;
    InterpretsAbelian(g, den);
    AddDenotes(g, den, p, q, Times(g, m, e), Times(g, n, e));
    TimesAdd(g, m, n, e);
  }

  /** Multiplication by a secret scalar: signed radix-16 digits from the top. */
  method Mul<G(!new)>(p: EdwardsPoint, scalar: Limbs4, ghost g: Group<G>, ghost den: F.Quad -> G, ghost e: G)
    returns (acc: EdwardsPoint)
    requires Interprets(g, den) && Denotes(den, p, e) && Nat(scalar) < ORDER
    ensures Denotes(den, acc, Times(g, Nat(scalar), e))
  {
    hide *;
    var table := Multiples(p, g, den, e);
    var digits := Radix16(scalar);
    acc := IDENTITY;
    InterpretsAbelian(g, den);
    IdentityDenotes(g, den);
    TimesZero(g, e);
    NoDigits(digits, 16);
    for i := 64 downto 0
      invariant Denotes(den, acc, Times(g, DigitSum(digits[i..], 16), e))
    {
      ghost var above := DigitSum(digits[i + 1..], 16);
      SixteenTimes(g, den, acc, above, e);
      DenotesOk(den, acc, Times(g, above, e));
      acc := acc.Double().Double().Double().Double();
      var term := SelectSigned(table, digits[i], g, den, e);
      AddTimes(g, den, acc, term, 16 * above, digits[i], e);
      acc := acc.Add(term);
      Horner(digits, 16, i);
    }
    assert digits[0..] == digits;
  }

  // ---------------------------------------------------------------------------
  // The fixed-base table
  // ---------------------------------------------------------------------------

  /** Row i holds [1..8] * 16^i * B. */
  ghost predicate IsRow<G(!new)>(g: Group<G>, den: F.Quad -> G, row: seq<EdwardsPoint>, i: nat) {
    |row| == 8 && IsMultiples(g, den, row, Times(g, IntPow(16, i), BaseElement(den)))
  }

  ghost predicate AreRows<G(!new)>(g: Group<G>, den: F.Quad -> G, rows: seq<seq<EdwardsPoint>>) {
    forall i :: 0 <= i < |rows| ==> IsRow(g, den, rows[i], i)
  }

  lemma AppendRow<G(!new)>(g: Group<G>, den: F.Quad -> G, rows: seq<seq<EdwardsPoint>>, row: seq<EdwardsPoint>)
    requires AreRows(g, den, rows) && IsRow(g, den, row, |rows|)
    ensures AreRows(g, den, rows + [row])
  {
    hide IsRow;
  }

  lemma RowAt<G(!new)>(g: Group<G>, den: F.Quad -> G, rows: seq<seq<EdwardsPoint>>, i: nat)
    requires AreRows(g, den, rows) && i < |rows|
    ensures |rows[i]| == 8 && IsMultiples(g, den, rows[i], Times(g, IntPow(16, i), BaseElement(den)))
  {
    hide IsMultiples, Times, IntPow;
  }

  lemma RowOf<G(!new)>(g: Group<G>, den: F.Quad -> G, row: seq<EdwardsPoint>, i: nat)
    requires |row| == 8 && IsMultiples(g, den, row, Times(g, IntPow(16, i), BaseElement(den)))
    ensures IsRow(g, den, row, i)
  {
  }

  lemma NoRows<G(!new)>(g: Group<G>, den: F.Quad -> G)
    ensures AreRows(g, den, [])
  {
  }

  lemma PowStep(i: nat)
    ensures IntPow(16, 0) == 1 && IntPow(16, i + 1) == 16 * IntPow(16, i)
  {
  }

  /** The 64 rows, built by four doublings per row. */
  method BasepointTable<G(!new)>(ghost g: Group<G>, ghost den: F.Quad -> G) returns (rows: seq<seq<EdwardsPoint>>)
    requires Interprets(g, den)
    ensures |rows| == 64 && AreRows(g, den, rows)
  {
    hide *;
    ghost var e := BaseElement(den);
    var base := BASEPOINT;
    rows := [];
    BaseDenotes(den);
    InterpretsAbelian(g, den);
    TimesOne(g, e);
    PowStep(0);
    NoRows(g, den);
    for i := 0 to 64
      invariant |rows| == i && AreRows(g, den, rows)
      invariant Denotes(den, base, Times(g, IntPow(16, i), e))
    {
      var row := Multiples(base, g, den, Times(g, IntPow(16, i), e));
      RowOf(g, den, row, i);
      AppendRow(g, den, rows, row);
      rows := rows + [row];
      SixteenTimes(g, den, base, IntPow(16, i), e);
      PowStep(i);
      DenotesOk(den, base, Times(g, IntPow(16, i), e));
      base := base.Double().Double().Double().Double();
    }
  }

  lemma {:induction false} DigitAppend(d: seq<int>, base: int, v: int)
    ensures DigitSum(d + [v], base) == DigitSum(d, base) + v * IntPow(base, |d|)
  {
    if d == [] {
      assert [v][1..] == [];
    } else {
      assert (d + [v])[1..] == d[1..] + [v];
      DigitAppend(d[1..], base, v);
      MulSwap(base, v, IntPow(base, |d| - 1));
    }
  }

  lemma DigitPrefix(d: seq<int>, base: int, i: nat)
    requires i < |d|
    ensures DigitSum(d[..i + 1], base) == DigitSum(d[..i], base) + d[i] * IntPow(base, i)
  {
    assert d[..i + 1] == d[..i] + [d[i]];
    DigitAppend(d[..i], base, d[i]);
  }

  /** [m][n]e for a signed m. */
  lemma TimesProduct<G(!new)>(g: Group<G>, m: int, n: int, e: G)
    requires IsAbelian(g)
    ensures Times(g, m, Times(g, n, e)) == Times(g, m * n, e)
  {
    hide IsAbelian, Times;
    if m >= 0 {
      TimesTimes(g, m, n, e);
    } else {
      TimesTimes(g, -m, n, e);
      TimesNeg(g, -m, Times(g, n, e));
      TimesNeg(g, -m * n, e);
      assert -(-m * n) == m * n;
    }
  }

  lemma EmptySum(d: seq<int>)
    ensures DigitSum(d[..0], 16) == 0
  {
  }

  /** Multiplication of the base point: one table row per digit and no doubling. */
  method MulBase<G(!new)>(scalar: Limbs4, ghost g: Group<G>, ghost den: F.Quad -> G) returns (acc: EdwardsPoint)
    requires Interprets(g, den) && Nat(scalar) < ORDER
    ensures Denotes(den, acc, Times(g, Nat(scalar), BaseElement(den)))
    ensures Denotes(den, acc, Times(g, Nat(scalar), den(PointRes(BASEPOINT))))
  {
    hide *;
    CombMeaning(g, den, 0, g.zero, 0);
    ghost var e := BaseElement(den);
    var table := BasepointTable(g, den);
    var digits := Radix16(scalar);
    acc := IDENTITY;
    InterpretsAbelian(g, den);
    IdentityDenotes(g, den);
    TimesZero(g, e);
    EmptySum(digits);
    for i := 0 to 64
      invariant Denotes(den, acc, Times(g, DigitSum(digits[..i], 16), e))
    {
      ghost var unit := Times(g, IntPow(16, i), e);
      RowAt(g, den, table, i);
      var term := SelectSigned(table[i], digits[i], g, den, unit);
      TimesProduct(g, digits[i], IntPow(16, i), e);
      AddTimes(g, den, acc, term, DigitSum(digits[..i], 16), digits[i] * IntPow(16, i), e);
      acc := acc.Add(term);
      DigitPrefix(digits, 16, i);
    }
    assert digits[..64] == digits;
  }
}
