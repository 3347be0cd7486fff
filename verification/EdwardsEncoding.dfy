/** The 32-byte point encoding (edwards/point.rs, `compress` and `decompress`). */
module EdwardsEncoding {
  import opened Arith
  import opened Words
  import opened Bytes
  import opened FieldLimbs
  import FE = FieldLimbs
  import opened FieldPow
  import opened FieldEncoding
  import opened FieldResidues
  import opened FieldSqrt
  import F = EdwardsFormulas
  import opened EdwardsPoint
  import opened Scalar

  // ---------------------------------------------------------------------------
  // The encoding of an affine point
  // ---------------------------------------------------------------------------

  /** Section 5.1.2 of RFC 8032: y in 255 bits, the parity of x in bit 255. */
  function EncodeAffine(x: int, y: int): (r: seq<u8>)
    requires y >= 0
    ensures |r| == 32
  {
    LeBytes(y + TWO255 * (x % 2), 32)
  }

  /** The affine curve equation -x^2 + y^2 = 1 + d x^2 y^2, the extended one at Z = 1 and T = xy. */
  ghost predicate OnAffineCurve(x: int, y: int) {
    F.OnCurve(F.Quad(x, y, 1, x * y))
  }

  /** The byte a conditional `^= 0x80` leaves. */
  function FlipTop(b: u8, flip: bool): u8 {
    if !flip then b else if b < 0x80 then b + 0x80 else b - 0x80
  }

  function SetSign(bytes: seq<u8>, negative: bool): (r: seq<u8>)
    requires |bytes| == 32
    ensures |r| == 32
  {
    bytes[31 := FlipTop(bytes[31], negative)]
  }

  /** Compress to the 32-byte encoding. */
  function Compress(p: EdwardsPoint): (r: seq<u8>)
    requires p.Ok()
    ensures |r| == 32
  {
    hide *;
    PointOk(p);
    var zInv := Invert(p.z);
    var x, y := Mul(p.x, zInv), Mul(p.y, zInv);
    SetSign(Encode(y), IsNegative(x))
  }

  /** u = y^2 - 1 and v = d y^2 + 1, whose ratio is x^2 on the curve. */
  function CurveRatio(y: Fe): (r: (Fe, Fe))
    requires FE.Ok(y)
    ensures FE.Ok(r.0) && FE.Ok(r.1)
  {
    hide *;
    ConstantsOk();
    OneOk();
    var y2 := FE.Square(y);
    (FE.Sub(y2, ONE), FE.Add(Mul(y2, D), ONE))
  }

  /** The point with this y and the given sign of x. */
  function WithSign(x: Fe, y: Fe, sign: bool): (r: EdwardsPoint)
    requires FE.Ok(x) && FE.Ok(y)
    ensures r.Ok()
  {
    hide *;
    OneOk();
    var x' := ConditionalNegate(x, IsNegative(x) != sign);
    PointOk(EdwardsPoint(x', y, ONE, Mul(x', y)));
    EdwardsPoint(x', y, ONE, Mul(x', y))
  }

  /** Decompress from the 32-byte encoding, or refuse it. */
  function Decompress(bytes: seq<u8>): Option<EdwardsPoint>
    requires |bytes| == 32
  {
    hide *;
    var sign := bytes[31] / 0x80 == 1;
    var yBytes := bytes[31 := bytes[31] % 0x80];
    var y := FromBytes(yBytes);
    if Encode(y) != yBytes then None
    else
      var (u, v) := CurveRatio(y);
      var (x, isSquare) := SqrtRatio(u, v);
      if !isSquare then None
      else if IsZero(x) && sign then None
      else Some(WithSign(x, y, sign))
  }

  lemma OneOk()
    ensures FE.Ok(ONE) && Res(ONE) == 1 && Val(ONE) == 1
  {
  }

  // ---------------------------------------------------------------------------
  // Bytes
  // ---------------------------------------------------------------------------

  lemma TopByte()
    ensures BytePow(31) * 0x80 == TWO255
  {
    hide BytePow;
    Bytes32();
    BytePowAdd(31, 1);
    assert BytePow(1) == 0x100 by { OneByte(); }
  }

  lemma OneByte()
    ensures BytePow(1) == 0x100
  {
  }

  /** Bit 255 is the top bit of the last byte. */
  lemma SplitTop(bytes: seq<u8>, low: seq<u8>)
    requires |bytes| == 32 && low == bytes[31 := bytes[31] % 0x80]
    ensures LeVal(bytes) == LeVal(low) + TWO255 * (bytes[31] / 0x80) && LeVal(low) < TWO255
  {
    hide LeVal, BytePow;
    TopByte();
    assert bytes == bytes[..31] + [bytes[31]] && low == bytes[..31] + [low[31]];
    LeAppend(bytes[..31], [bytes[31]]);
    LeAppend(bytes[..31], [low[31]]);
    SingleByte(bytes[31]);
    SingleByte(low[31]);
    LeBound(bytes[..31]);
    TopArithmetic(BytePow(31), bytes[31], LeVal(bytes[..31]));
  }

  lemma SingleByte(b: u8)
    ensures LeVal([b]) == b
  {
  }

  lemma TopArithmetic(p: int, b: u8, low: int)
    requires p * 0x80 == TWO255 && 0 <= low < p
    ensures p * (b as int) == p * (b as int % 0x80) + TWO255 * (b as int / 0x80)
    ensures low + p * (b as int % 0x80) < TWO255
  {
  }

  /** Setting the sign of a canonical encoding adds 2^255. */
  lemma SetSignValue(y: Fe, negative: bool)
    ensures SetSign(Encode(y), negative) == LeBytes(Res(y) + TWO255 * (if negative then 1 else 0), 32)
  {
    hide Encode, Mod, LeVal, LeBytes, Val;
    ResIs(y);
    var e := Encode(y);
    EncodeValue(y);
    var low := e[31 := e[31] % 0x80];
    SplitTop(e, low);
    assert e[31] / 0x80 == 0;
    assert low == e;
    var s := SetSign(e, negative);
    assert s[31 := s[31] % 0x80] == e;
    SplitTop(s, e);
    LeBytesOfVal(s);
  }

  /** The affine point a point in projective coordinates stands for. */
  lemma CompressValue(p: EdwardsPoint)
    requires p.Ok()
    ensures Compress(p) == EncodeAffine(Res(Mul(p.x, Invert(p.z))), Res(Mul(p.y, Invert(p.z))))
  {
    hide Mul, Invert, Res, Encode, SetSign, FE.Ok;
    SetSignValue(Mul(p.y, Invert(p.z)), IsNegative(Mul(p.x, Invert(p.z))));
  }

  // ---------------------------------------------------------------------------
  // Soundness of decompress
  // ---------------------------------------------------------------------------

  lemma {:induction false} PowOne(e: nat)
    ensures Pow(1, e) == 1
    decreases e
  {
    if e > 0 {
      PowOne(e - 1);
    }
  }

  lemma InvertOne()
    ensures FE.Ok(ONE) && Res(Invert(ONE)) == 1
  {
    hide Invert, Pow, Mod;
    ResIs(Invert(ONE));
    OneOk();
    InvertIsPow(ONE);
    PowOne(P - 2);
  }

  /** With Z = 1 the affine coordinates are X and Y themselves. */
  lemma CompressAffine(p: EdwardsPoint)
    requires p.Ok() && p.z == ONE
    ensures Compress(p) == EncodeAffine(Res(p.x), Res(p.y))
  {
    hide Mul, Invert, Mod, Val, Compress, FE.Ok, ONE, EncodeAffine;
    InvertOne();
    CompressValue(p);
    ResMul(p.x, Invert(ONE));
    ResMul(p.y, Invert(ONE));
    F.FMulOne(Res(p.x));
    F.FMulOne(Res(p.y));
    ModSmall(Res(p.x));
    ModSmall(Res(p.y));
  }

  lemma {:induction false} RepeatedByte(n: nat, b: u8)
    ensures 255 * LeVal(seq(n, _ => b)) == b * (BytePow(n) - 1)
  {
    if n > 0 {
      assert seq(n, _ => b)[1..] == seq(n - 1, _ => b);
      RepeatedByte(n - 1, b);
    }
  }

  /** The base point is the one whose encoding is 58 66 .. 66. */
  lemma BasepointEncoding()
    ensures BASEPOINT.Ok() && Compress(BASEPOINT) == [0x58] + seq(31, _ => 0x66)
  {
    hide Compress, Res, ONE, BASEPOINT, LeVal, EncodeAffine, Mod, EdwardsPoint.Ok;
    ConstantsOk();
    BasepointIs();
    CompressAffine(BASEPOINT);
    AffineValue(BX, BY);
    BasepointBytes();
    LeInjective(EncodeAffine(BX, BY), [0x58] + seq(31, _ => 0x66));
  }

  lemma BasepointBytes()
    ensures LeVal([0x58] + seq(31, _ => 0x66)) == BY
  {
    RepeatedByte(31, 0x66);
    var s: seq<u8> := [0x58] + seq(31, _ => 0x66);
    assert s[1..] == seq(31, _ => 0x66);
    Bytes32();
  }

  /** v x^2 = u with u = y^2 - 1 and v = d y^2 + 1 is the affine curve equation. */
  lemma RootEquation(x: int, y: int, d: int)
    ensures Mod((d * (y * y) + 1) * (x * x)) == Mod(y * y - 1)
       <==> Mod(y * y - x * x) == Mod(1 + d * ((x * x) * (y * y)))
  {
    hide Mod;
    var xx, yy := x * x, y * y;
    var w := d * (xx * yy);
    assert (d * yy + 1) * xx == w + xx;
    if Mod(w + xx) == Mod(yy - 1) {
      ModPlus(w + xx, yy - 1, 1 - xx);
    }
    if Mod(yy - xx) == Mod(1 + w) {
      ModPlus(yy - xx, 1 + w, xx - 1);
    }
  }

  lemma CurveIs(x: int, y: int)
    ensures OnAffineCurve(x, y) <==> Mod(y * y - x * x) == Mod(1 + F.DRES * ((x * x) * (y * y)))
  {
    hide Mod;
    F.OnCurveIs(F.Quad(x, y, 1, x * y));
    SquareScaled(x, y);
  }

  lemma CurveRatioRes(y: Fe)
    requires FE.Ok(y)
    ensures RatioAt(CurveRatio(y).0, CurveRatio(y).1, Res(y))
  {
    hide Mul, FE.Square, FE.Add, FE.Sub, FE.Ok, Mod, Val, ONE, D, FMul, FAdd, FSub;
    ConstantsOk();
    OneOk();
    var y2 := FE.Square(y);
    ResSquare(y);
    ResMul(y2, D);
    ResSub(y2, ONE);
    ResAdd(Mul(y2, D), ONE);
    FOne();
  }

  /** The same as polynomials, for any d. */
  lemma RatioResidues(y: int, d: int)
    ensures FSub(FMul(y, y), 1) == Mod(y * y - 1) && FAdd(FMul(FMul(y, y), d), 1) == Mod(d * (y * y) + 1)
  {
    hide Mod, FMul, FAdd, FSub;
    FOne();
    F.FMulMod(y, y);
    FSubOf(FMul(y, y), 1, y * y, 1);
    F.FMulLeft(FMul(y, y), y * y, d);
    Commute(y * y, d);
    FAddOf(FMul(FMul(y, y), d), 1, d * (y * y), 1);
  }

  lemma FOne()
    ensures Mod(1) == 1 && Mod(0) == 0
  {
  }

  /** u and v have the residues of the curve ratio at y. */
  ghost predicate RatioAt(u: Fe, v: Fe, y: int) {
    Res(u) == FSub(FMul(y, y), 1) && Res(v) == FAdd(FMul(FMul(y, y), F.DRES), 1)
  }

  /** Both signs of a residue have one square, and the sign taken is its parity. */
  lemma SignedRoot(c: int, rx: int, r: int, sign: bool)
    requires 0 <= rx < P && rx % 2 == 0 && !(rx == 0 && sign)
    requires r == if sign then FNeg(rx) else rx
    ensures Mod(c * (r * r)) == Mod(c * (rx * rx)) && (r % 2 == 1 <==> sign)
  {
    hide Mod, FNeg;
    FNegIs(rx);
    NegParity(rx);
    NegSquare(c, rx);
  }

  /** A root of the residues of y^2 - 1 and d y^2 + 1 solves the affine equation, for any d. */
  lemma RatioSolution(u: Fe, v: Fe, r: int, y: int, d: int)
    requires Res(u) == Mod(y * y - 1) && Res(v) == Mod(d * (y * y) + 1) && Mod(Res(v) * (r * r)) == Res(u)
    ensures Mod(y * y - r * r) == Mod(1 + d * ((r * r) * (y * y)))
  {
    hide Mod, Res;
    ModMul(d * (y * y) + 1, r * r);
    RootEquation(r, y, d);
  }

  lemma RootOnCurve(u: Fe, v: Fe, r: int, y: int)
    requires RatioAt(u, v, y) && Mod(Res(v) * (r * r)) == Res(u)
    ensures OnAffineCurve(r, y)
  {
    hide Mod, Res, FMul, FAdd, FSub, OnAffineCurve;
    RatioResidues(y, F.DRES);
    RatioSolution(u, v, r, y, F.DRES);
    CurveIs(r, y);
  }

  lemma WithSignParts(x: Fe, y: Fe, sign: bool)
    requires FE.Ok(x) && FE.Ok(y)
    ensures var x' := ConditionalNegate(x, IsNegative(x) != sign);
      WithSign(x, y, sign) == EdwardsPoint(x', y, ONE, Mul(x', y))
  {
    hide Mul, ConditionalNegate, IsNegative;
  }

  lemma NegateRes(x: Fe, choice: bool)
    requires FE.Ok(x)
    ensures Res(ConditionalNegate(x, choice)) == if choice then FNeg(Res(x)) else Res(x)
  {
    hide Neg, FE.Ok, Res, FNeg;
    ResNeg(x);
  }

  lemma FNegIs(a: int)
    ensures FNeg(a) == Mod(-a)
  {
  }

  /** With T = XY and Z = 1 the affine curve equation is the extended one, for any d. */
  lemma AffineExtended(x: int, y: int, t: int, d: int)
    requires Mod(y * y - x * x) == Mod(1 + d * ((x * x) * (y * y))) && t == FMul(x, y)
    ensures Mod(x * y) == Mod(1 * t) && Mod(y * y - x * x) == Mod(1 * 1 + d * (t * t))
  {
    hide Mod;
    F.FMulMod(x, y);
    ModIdem(x * y);
    ModMul(x * y, x * y);
    assert (x * y) * (x * y) == (x * x) * (y * y);
    ModTimes(t * t, (x * x) * (y * y), d);
    ModPlus(d * (t * t), d * ((x * x) * (y * y)), 1);
  }

  /** An affine point with T = XY and Z = 1 is a valid point. */
  lemma AffineValid(x: int, y: int)
    requires 0 <= x < P && 0 <= y < P && OnAffineCurve(x, y)
    ensures F.Valid(F.Quad(x, y, 1, FMul(x, y)))
  {
    hide Mod, FMul, OnAffineCurve, F.OnCurve;
    CurveIs(x, y);
    AffineExtended(x, y, FMul(x, y), F.DRES);
    F.OnCurveIs(F.Quad(x, y, 1, FMul(x, y)));
  }

  /** What a successful decompression returns. */
  ghost predicate Decoded(bytes: seq<u8>, p: EdwardsPoint)
    requires |bytes| == 32
  {
    && p.Ok() && p.z == ONE && F.Valid(PointRes(p)) && OnAffineCurve(Res(p.x), Res(p.y))
    && EncodeAffine(Res(p.x), Res(p.y)) == bytes
  }

  /** A successful decompression is a point of the curve whose only encoding is the input. */
  lemma DecompressSound(bytes: seq<u8>)
    requires |bytes| == 32 && Decompress(bytes).Some?
    ensures Decoded(bytes, Decompress(bytes).value)
  {
    hide FE.Ok, Encode, FromBytes, SqrtRatio, IsZero, IsNegative, WithSign, CurveRatio, RatioAt, Res, FMul, FNeg, ONE,
         ConditionalNegate, Mod, OnAffineCurve, F.Valid, EncodeAffine;
    var sign := bytes[31] / 0x80 == 1;
    var yBytes := bytes[31 := bytes[31] % 0x80];
    var y := FromBytes(yBytes);
    var (u, v) := CurveRatio(y);
    var (x, isSquare) := SqrtRatio(u, v);
    var p := WithSign(x, y, sign);
    CurveRatioRes(y);
    SqrtRatioSound(u, v);
    WithSignParts(x, y, sign);
    NegateRes(x, IsNegative(x) != sign);
    SignedRoot(Res(v), Res(x), Res(p.x), sign);
    ResMul(p.x, y);
    RootOnCurve(u, v, Res(p.x), Res(y));
    AffineValid(Res(p.x), Res(y));
    OneOk();
    EncodesBack(bytes, y, Res(p.x));
  }

  /** Canonical y and the right parity give the input bytes back. */
  lemma EncodesBack(bytes: seq<u8>, y: Fe, x: int)
    requires |bytes| == 32 && Encode(y) == bytes[31 := bytes[31] % 0x80]
    requires x % 2 == bytes[31] / 0x80
    ensures EncodeAffine(x, Res(y)) == bytes
  {
    hide Encode, Mod, LeVal, Val;
    ResIs(y);
    EncodeValue(y);
    SplitTop(bytes, Encode(y));
    LeBytesOfVal(bytes);
  }

  /** `compress` undoes `decompress`. */
  lemma CompressDecompress(bytes: seq<u8>)
    requires |bytes| == 32 && Decompress(bytes).Some?
    ensures Decompress(bytes).value.Ok() && Compress(Decompress(bytes).value) == bytes
  {
    hide Decompress, Compress, F.Valid, Res, EncodeAffine, OnAffineCurve, FE.Ok, ONE;
    DecompressSound(bytes);
    CompressAffine(Decompress(bytes).value);
  }

  /** Two accepted strings for the same affine point are the same string. */
  lemma DecompressInjective(a: seq<u8>, b: seq<u8>)
    requires |a| == 32 && |b| == 32 && Decompress(a).Some? && Decompress(b).Some?
    requires F.ProjEq(PointRes(Decompress(a).value), PointRes(Decompress(b).value))
    ensures a == b
  {
    hide Decompress, F.Valid, EncodeAffine, OnAffineCurve, FE.Ok, Mod, Val;
    DecompressSound(a);
    DecompressSound(b);
    var p, q := Decompress(a).value, Decompress(b).value;
    OneOk();
    ModSmall(Res(p.x));
    ModSmall(Res(p.y));
    ModSmall(Res(q.x));
    ModSmall(Res(q.y));
  }

  // ---------------------------------------------------------------------------
  // Completeness of decompress, with the primality of p as a hypothesis
  // ---------------------------------------------------------------------------

  /** Every affine point of the curve has an accepted encoding, and decoding it gives the point back. */
  lemma DecompressComplete(x: int, y: int)
    requires PrimeModulus() && 0 <= x < P && 0 <= y < P && OnAffineCurve(x, y)
    ensures Decompress(EncodeAffine(x, y)).Some?
  {
    hide FE.Ok, Encode, FromBytes, SqrtRatio, IsNegative, WithSign, CurveRatio, IsRoot, Res, ONE,
         OnAffineCurve, EncodeAffine, PrimeModulus, Mod;
    var bytes := EncodeAffine(x, y);
    var sign := bytes[31] / 0x80 == 1;
    var yBytes := bytes[31 := bytes[31] % 0x80];
    var fy := FromBytes(yBytes);
    AffineBytes(x, y);
    var (u, v) := CurveRatio(fy);
    CurveRatioRes(fy);
    var c, e := F.DRES * (y * y) + 1, y * y - 1;
    CurveIs(x, y);
    RootEquation(x, y, F.DRES);
    RatioResidues(y, F.DRES);
    RootOfRatio(u, v, x, c, e);
    SqrtRatioComplete(u, v, x);
    SqrtRatioSound(u, v);
    DPlusOne();
    NonzeroDenominator(x, y, F.DRES);
    ZeroRootUnsigned(u, v, SqrtRatio(u, v).0, x, c, e);
  }

  /** The bytes of an affine point: y below, the parity of x on top. */
  lemma AffineBytes(x: int, y: int)
    requires 0 <= x < P && 0 <= y < P
    ensures var bytes := EncodeAffine(x, y); var low := bytes[31 := bytes[31] % 0x80];
      && bytes[31] / 0x80 == x % 2
      && Res(FromBytes(low)) == y && Encode(FromBytes(low)) == low
  {
    hide LeVal, Encode, FromBytes, EncodeAffine, Mod, Val, BytePow;
    var bytes := EncodeAffine(x, y);
    var low := bytes[31 := bytes[31] % 0x80];
    SplitTop(bytes, low);
    AffineValue(x, y);
    EncodeFrom(low);
    EncodeValue(FromBytes(low));
    ResIs(FromBytes(low));
  }

  lemma AffineValue(x: int, y: int)
    requires 0 <= x < P && 0 <= y < P
    ensures LeVal(EncodeAffine(x, y)) == y + TWO255 * (x % 2)
  {
    hide LeVal, LeBytes, BytePow;
    Bytes32();
    LeValOfBytes(y + TWO255 * (x % 2), 32);
  }

  lemma RootOfRatio(u: Fe, v: Fe, x: int, c: int, e: int)
    requires Res(u) == Mod(e) && Res(v) == Mod(c) && Mod(c * (x * x)) == Mod(e)
    ensures HasRoot(Res(u), Res(v), x)
  {
    hide Mod, Res;
    ModMul(c, x * x);
  }

  /** If the root found is zero then so is x, and its sign bit is clear. */
  lemma ZeroRootUnsigned(u: Fe, v: Fe, root: Fe, x: int, c: int, e: int)
    requires PrimeModulus() && 0 <= x < P && Res(u) == Mod(e) && Mod(c * (x * x)) == Mod(e) && Mod(c) != 0
    requires IsRoot(u, v, root)
    ensures Res(root) == 0 ==> x % 2 == 0
  {
    hide Mod, Val, PrimeModulus;
    if Res(root) == 0 {
      FOne();
      assert Res(v) * (Res(root) * Res(root)) == 0;
      ProductZero(c, x * x);
      ProductZero(x, x);
      ModSmall(x);
    }
  }

  /** d y^2 + 1 does not vanish at a point of the curve. */
  lemma NonzeroDenominator(x: int, y: int, d: int)
    requires PrimeModulus() && Mod((d * (y * y) + 1) * (x * x)) == Mod(y * y - 1) && Mod(d + 1) != 0
    ensures Mod(d * (y * y) + 1) != 0
  {
    hide Mod, PrimeModulus;
    if Mod(d * (y * y) + 1) == 0 {
      FOne();
      ModTimes(d * (y * y) + 1, 0, x * x);
      ModPlus(y * y - 1, 0, 1);
      ModTimes(y * y, 1, d);
      ModPlus(d * (y * y), d, 1);
      assert false;
    }
  }

  /** d is not -1. */
  lemma DPlusOne()
    ensures Mod(F.DRES + 1) != 0
  {
    ModIs(F.DRES + 1);
  }

  // ---------------------------------------------------------------------------
  // Compression of any representative
  // ---------------------------------------------------------------------------

  /** Dividing by Z: with p prime, the affine coordinates of a point do not depend on its Z. */
  lemma AffineCoordinate(x: Fe, z: Fe)
    requires PrimeModulus() && FE.Ok(x) && FE.Ok(z) && Res(z) != 0
    ensures Mod(Res(Mul(x, Invert(z))) * Res(z)) == Mod(Res(x))
  {
    hide Mul, Invert, Mod, Val, Pow, PrimeModulus, FE.Ok, FMul;
    var i := Invert(z);
    ResMul(x, i);
    F.FMulMod(Res(x), Res(i));
    ModMul(Res(x) * Res(i), Res(z));
    InvertIsInverse(z);
    ModTimes(Res(i) * Res(z), 1, Res(x));
    assert (Res(x) * Res(i)) * Res(z) == Res(x) * (Res(i) * Res(z));
  }

  lemma InvertIsInverse(z: Fe)
    requires PrimeModulus() && FE.Ok(z) && Res(z) != 0
    ensures Mod(Res(Invert(z)) * Res(z)) == Mod(1)
  {
    hide Invert, Mod, Pow, PrimeModulus, FE.Ok, Val;
    ResIs(z);
    ResIs(Invert(z));
    InvertIsPow(z);
    PowOneMore(Val(z), P - 2);
    Fermat(Val(z));
    ModMul(Pow(Val(z), P - 2), Val(z));
    assert Pow(Val(z), P - 2) * Val(z) == Val(z) * Pow(Val(z), P - 2);
    FOne();
  }

  /** With no zero divisors a nonzero factor cancels. */
  lemma Cancel(a: int, b: int, c: int)
    requires PrimeModulus() && Mod(a * c) == Mod(b * c) && Mod(c) != 0
    ensures Mod(a) == Mod(b)
  {
    hide Mod, PrimeModulus;
    ModPlus(a * c, b * c, b * c);
    assert a * c - b * c == (a - b) * c;
    FOne();
    ProductZero(a - b, c);
    ModPlus(a - b, 0, b);
  }

  /** Affine coordinates (x, y) of the extended point (X : Y : Z : T). */
  ghost predicate AffineOf(x: int, y: int, p: F.Quad) {
    0 <= x < P && 0 <= y < P && Mod(x * p.z) == Mod(p.x) && Mod(y * p.z) == Mod(p.y)
  }

  /** Dividing a solution of the extended equations by Z solves the affine one, for any d. */
  lemma AffineSolution(x: int, y: int, p: F.Quad, d: int)
    requires PrimeModulus() && 0 < p.z < P && AffineOf(x, y, p) && Mod(p.x * p.y) == Mod(p.z * p.t)
    requires Mod(p.y * p.y - p.x * p.x) == Mod(p.z * p.z + d * (p.t * p.t))
    ensures Mod(y * y - x * x) == Mod(1 + d * ((x * x) * (y * y)))
  {
    hide Mod, PrimeModulus;
    var z, t, xy := p.z, p.t, x * y;
    ModSmall(z);
    ModMulBoth(x * z, p.x, y * z, p.y);
    assert (x * z) * (y * z) == (xy * z) * z;
    Commute(z, t);
    Cancel(xy * z, t, z);
    ModMulBoth(x * z, p.x, x * z, p.x);
    ModMulBoth(y * z, p.y, y * z, p.y);
    ModMulBoth(xy * z, t, xy * z, t);
    SquareScaled(x, z);
    SquareScaled(y, z);
    SquareScaled(xy, z);
    var zz := z * z;
    CurveDivided(x * x, y * y, xy * xy, zz, p.x * p.x, p.y * p.y, t * t, d);
    ProductNonzero(z, z);
    Cancel(y * y - x * x, 1 + d * (xy * xy), zz);
    SquareScaled(x, y);
  }

  /** The affine coordinates of a valid point are on the affine curve. */
  lemma AffineOnCurve(x: int, y: int, p: F.Quad)
    requires PrimeModulus() && F.Valid(p) && AffineOf(x, y, p)
    ensures OnAffineCurve(x, y)
  {
    hide Mod, PrimeModulus, OnAffineCurve, F.OnCurve;
    F.OnCurveIs(p);
    AffineSolution(x, y, p, F.DRES);
    CurveIs(x, y);
  }

  lemma ModMulBoth(a: int, a': int, b: int, b': int)
    requires Mod(a) == Mod(a') && Mod(b) == Mod(b')
    ensures Mod(a * b) == Mod(a' * b')
  {
    hide Mod;
    ModTimes(a, a', b);
    ModTimes(b, b', a');
  }

  lemma SquareScaled(x: int, z: int)
    ensures (x * z) * (x * z) == (x * x) * (z * z)
  {
  }

  lemma ProductNonzero(a: int, b: int)
    requires PrimeModulus() && Mod(a) != 0 && Mod(b) != 0
    ensures Mod(a * b) != 0
  {
  }

  lemma CurveDivided(xx: int, yy: int, ww: int, zz: int, pxx: int, pyy: int, ptt: int, d: int)
    requires Mod(pyy - pxx) == Mod(zz + d * ptt)
    requires Mod(xx * zz) == Mod(pxx) && Mod(yy * zz) == Mod(pyy) && Mod(ww * zz) == Mod(ptt)
    ensures Mod((yy - xx) * zz) == Mod((1 + d * ww) * zz)
  {
    hide Mod;
    ModPlus(yy * zz, pyy, xx * zz);
    ModPlus(xx * zz, pxx, pyy);
    assert yy * zz - xx * zz == (yy - xx) * zz;
    ModTimes(ww * zz, ptt, d);
    ModPlus(d * (ww * zz), d * ptt, zz);
    assert zz + d * (ww * zz) == (1 + d * ww) * zz;
  }

  lemma ValidZ(p: EdwardsPoint)
    requires p.Ok() && F.Valid(PointRes(p))
    ensures FE.Ok(p.z) && Res(p.z) != 0
  {
    hide FE.Ok, F.OnCurve;
  }

  /** Compression prints the affine coordinates. */
  lemma CompressAffineOf(p: EdwardsPoint) returns (x: int, y: int)
    requires PrimeModulus() && p.Ok() && Ok(p.z) && Res(p.z) != 0
    ensures AffineOf(x, y, PointRes(p)) && Compress(p) == EncodeAffine(x, y)
  {
    hide Mul, Invert, Val, PrimeModulus, FE.Ok, Compress, EncodeAffine, Mod;
    x, y := Res(Mul(p.x, Invert(p.z))), Res(Mul(p.y, Invert(p.z)));
    CompressValue(p);
    AffineCoordinate(p.x, p.z);
    AffineCoordinate(p.y, p.z);
  }

  /** Representatives of one affine point compress to the same bytes. */
  lemma CompressRespects(p: EdwardsPoint, q: EdwardsPoint)
    requires PrimeModulus() && p.Ok() && q.Ok() && F.Valid(PointRes(p)) && F.Valid(PointRes(q))
    requires F.ProjEq(PointRes(p), PointRes(q))
    ensures Compress(p) == Compress(q)
  {
    hide PrimeModulus, FE.Ok, Compress, EncodeAffine, F.OnCurve, OnAffineCurve, Mod, Res;
    var x, y := CompressAffineOf(p);
    var x', y' := CompressAffineOf(q);
    SameAffine(x, Res(p.x), Res(p.z), x', Res(q.x), Res(q.z));
    SameAffine(y, Res(p.y), Res(p.z), y', Res(q.y), Res(q.z));
  }

  lemma SameAffine(x: int, px: int, pz: int, x': int, qx: int, qz: int)
    requires PrimeModulus() && 0 <= x < P && 0 <= x' < P && 0 < pz < P && 0 < qz < P
    requires Mod(x * pz) == Mod(px) && Mod(x' * qz) == Mod(qx) && Mod(px * qz) == Mod(qx * pz)
    ensures x == x'
  {
    hide PrimeModulus, Mod;
    ModTimes(x * pz, px, qz);
    ModTimes(x' * qz, qx, pz);
    assert (x * pz) * qz == x * (pz * qz) && (x' * qz) * pz == x' * (pz * qz);
    ModSmall(pz);
    ModSmall(qz);
    ProductNonzero(pz, qz);
    Cancel(x, x', pz * qz);
    ModSmall(x);
    ModSmall(x');
  }

  /** What `compress` prints, `decompress` accepts. */
  lemma CompressIsAccepted(p: EdwardsPoint)
    requires PrimeModulus() && p.Ok() && F.Valid(PointRes(p))
    ensures Decompress(Compress(p)).Some?
  {
    hide *;
    ValidZ(p);
    var x, y := CompressAffineOf(p);
    AffineRange(x, y, PointRes(p));
    AffineOnCurve(x, y, PointRes(p));
    DecompressComplete(x, y);
  }

  lemma AffineRange(x: int, y: int, p: F.Quad)
    requires AffineOf(x, y, p)
    ensures 0 <= x < P && 0 <= y < P
  {
  }

  /** Points of the curve with one y and one parity of x are the same point. */
  lemma AffineUnique(x: int, x': int, y: int)
    requires PrimeModulus() && 0 <= x < P && 0 <= x' < P && 0 <= y < P
    requires OnAffineCurve(x, y) && OnAffineCurve(x', y) && x % 2 == x' % 2
    ensures x == x'
  {
    hide *;
    CurveIs(x, y);
    CurveIs(x', y);
    RootEquation(x, y, F.DRES);
    RootEquation(x', y, F.DRES);
    DPlusOne();
    NonzeroDenominator(x, y, F.DRES);
    SameRoot(x, x', F.DRES * (y * y) + 1);
  }

  /** v x^2 = v x'^2 for an invertible v leaves x' = x or x' = -x, and only the first has the parity of x. */
  lemma SameRoot(x: int, x': int, v: int)
    requires PrimeModulus() && 0 <= x < P && 0 <= x' < P && x % 2 == x' % 2
    requires Mod(v * (x * x)) == Mod(v * (x' * x')) && Mod(v) != 0
    ensures x == x'
  {
    hide PrimeModulus, Mod;
    Commute(v, x * x);
    Commute(v, x' * x');
    Cancel(x * x, x' * x', v);
    ModPlus(x * x, x' * x', x' * x');
    SquareDifference(x, x');
    FOne();
    ProductZero(x - x', x + x');
    ZeroResidue(x - x');
    ZeroResidue(x + x');
  }

  lemma SquareDifference(x: int, y: int)
    ensures x * x - y * y == (x - y) * (x + y)
  {
  }

  lemma Commute(a: int, b: int)
    ensures a * b == b * a
  {
  }

  /** `compress` is injective on affine points. */
  lemma CompressInjective(p: EdwardsPoint, q: EdwardsPoint)
    requires PrimeModulus() && p.Ok() && q.Ok() && F.Valid(PointRes(p)) && F.Valid(PointRes(q))
    requires Compress(p) == Compress(q)
    ensures F.ProjEq(PointRes(p), PointRes(q))
  {
    hide PrimeModulus, FE.Ok, Compress, EncodeAffine, F.OnCurve, OnAffineCurve, Mod, Res;
    var x, y := CompressAffineOf(p);
    var x', y' := CompressAffineOf(q);
    AffineValue(x, y);
    AffineValue(x', y');
    assert y == y' && x % 2 == x' % 2;
    AffineOnCurve(x, y, PointRes(p));
    AffineOnCurve(x', y, PointRes(q));
    AffineUnique(x, x', y);
    SameQuad(x, Res(p.x), Res(p.z), Res(q.x), Res(q.z));
    SameQuad(y, Res(p.y), Res(p.z), Res(q.y), Res(q.z));
  }

  lemma SameQuad(x: int, px: int, pz: int, qx: int, qz: int)
    requires Mod(x * pz) == Mod(px) && Mod(x * qz) == Mod(qx)
    ensures Mod(px * qz) == Mod(qx * pz)
  {
    hide Mod;
    ModTimes(x * pz, px, qz);
    ModTimes(x * qz, qx, pz);
    assert (x * pz) * qz == (x * qz) * pz;
  }
}
