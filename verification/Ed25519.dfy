/** Ed25519 keys (edwards/keys.rs). SHA-512 is the parameter `sha`. */
module Ed25519 {
  // Verification is specified as section 5.1.7 of RFC 8032 states it, on group elements;
  // the code compares compressed bytes and never decodes R on success.

  import opened Arith
  import opened Words
  import opened Bytes
  import opened ScalarReduce
  import opened Scalar
  import opened FieldLimbs
  import opened FieldPow
  import opened FieldResidues
  import opened FieldSqrt
  import F = EdwardsFormulas
  import opened EdwardsPoint
  import opened EdwardsGroup
  import opened EdwardsDenotes
  import opened EdwardsTables
  import opened EdwardsEncoding
  import EdwardsMul
  import opened Groups

  type Digest = s: seq<u8> | |s| == 64 witness seq(64, _ => 0)

  datatype SignatureError =
    | InvalidPublicKey
    | SmallOrderPublicKey
    | InvalidSignatureR
    | NonCanonicalSignatureS
    | VerificationFailed

  datatype Result<+T> = Ok(value: T) | Err(error: SignatureError)

  // ---------------------------------------------------------------------------
  // Verification as a property of group elements
  // ---------------------------------------------------------------------------

  /** The bytes are the encoding of the group element e. */
  ghost predicate Encodes<G(!new)>(den: F.Quad -> G, bytes: seq<u8>, e: G)
    requires |bytes| == 32
  {
    Decompress(bytes).Some? && den(PointRes(Decompress(bytes).value)) == e
  }

  /** The challenge scalar k = SHA-512(R || A || M) mod L. */
  function Challenge(sha: seq<u8> -> Digest, r: seq<u8>, publicKey: seq<u8>, message: seq<u8>): (k: int)
    ensures 0 <= k < ORDER
  {
    LeVal(sha(r + publicKey + message)) % ORDER
  }

  /** [s]B - [k]A. */
  ghost function Recomputed<G(!new)>(g: Group<G>, den: F.Quad -> G, k: int, a: G, s: int): G {
    EdwardsMul.Comb(g, k, g.neg(a), s, EdwardsMul.BaseElement(den))
  }

  /** The verdict on R and S once the key stands for the group element a. */
  ghost function TailVerdict<G(!new)>(sha: seq<u8> -> Digest, g: Group<G>, den: F.Quad -> G, a: G,
                                      publicKey: seq<u8>, message: seq<u8>, signature: seq<u8>): Result<()>
    requires |publicKey| == 32 && |signature| == 64
  {
    var r, s := signature[..32], LeVal(signature[32..]);
    if s >= ORDER then Err(NonCanonicalSignatureS)
    else if Encodes(den, r, Recomputed(g, den, Challenge(sha, r, publicKey, message), a, s)) then Ok(())
    else if Decompress(r).None? then Err(InvalidSignatureR)
    else Err(VerificationFailed)
  }

  /** The group element of an accepted key, or the reason it is refused. */
  ghost function KeyVerdict<G(!new)>(g: Group<G>, den: F.Quad -> G, publicKey: seq<u8>): Result<G>
    requires |publicKey| == 32
  {
    if Decompress(publicKey).None? then Err(InvalidPublicKey)
    else
      var a := den(PointRes(Decompress(publicKey).value));
      if Times(g, 8, a) == g.zero then Err(SmallOrderPublicKey) else Ok(a)
  }

  lemma KeyMeaning<G(!new)>(g: Group<G>, den: F.Quad -> G, publicKey: seq<u8>)
    requires |publicKey| == 32
    ensures KeyVerdict(g, den, publicKey) == Err(InvalidPublicKey) <==> Decompress(publicKey).None?
    ensures Decompress(publicKey).Some? ==>
              var a := den(PointRes(Decompress(publicKey).value));
              KeyVerdict(g, den, publicKey) == if Times(g, 8, a) == g.zero then Err(SmallOrderPublicKey) else Ok(a)
  {
    hide Decompress, Times, PointRes;
  }

  ghost function Verdict<G(!new)>(sha: seq<u8> -> Digest, g: Group<G>, den: F.Quad -> G,
                                  publicKey: seq<u8>, message: seq<u8>, signature: seq<u8>): Result<()>
    requires |publicKey| == 32 && |signature| == 64
  {
    match KeyVerdict(g, den, publicKey)
    case Err(e) => Err(e)
    case Ok(a) => TailVerdict(sha, g, den, a, publicKey, message, signature)
  }

  /**
   Each verdict and its exact condition: the key decompresses to an A with [8]A != 0, S is
   below L, R decompresses, and what it decompresses to is [k](-A) + [S]B.
   */
  lemma VerdictMeaning<G(!new)>(sha: seq<u8> -> Digest, g: Group<G>, den: F.Quad -> G,
                                publicKey: seq<u8>, message: seq<u8>, signature: seq<u8>)
    requires |publicKey| == 32 && |signature| == 64
    ensures Verdict(sha, g, den, publicKey, message, signature) == Err(InvalidPublicKey)
       <==> Decompress(publicKey).None?
    ensures Decompress(publicKey).Some? ==>
              var verdict := Verdict(sha, g, den, publicKey, message, signature);
              var a, b := den(PointRes(Decompress(publicKey).value)), den(PointRes(BASEPOINT));
              var r, s := Decompress(signature[..32]), LeVal(signature[32..]);
              var k := LeVal(sha(signature[..32] + publicKey + message)) % ORDER;
              var small := Times(g, 8, a) == g.zero;
              var expected := g.add(Times(g, k, g.neg(a)), Times(g, s, b));
              && (verdict == Err(SmallOrderPublicKey) <==> small)
              && (verdict == Err(NonCanonicalSignatureS) <==> !small && s >= ORDER)
              && (verdict == Err(InvalidSignatureR) <==> !small && s < ORDER && r.None?)
              && (verdict == Err(VerificationFailed)
                  <==> !small && s < ORDER && r.Some? && den(PointRes(r.value)) != expected)
              && (verdict == Ok(()) <==> !small && s < ORDER && r.Some? && den(PointRes(r.value)) == expected)
  {
    hide Decompress, Times, LeVal, PointRes;
  }

  // ---------------------------------------------------------------------------
  // Encodings and group elements
  // ---------------------------------------------------------------------------

  /** An accepted string decodes to a point that denotes something. */
  lemma DecodedDenotes<G(!new)>(den: F.Quad -> G, bytes: seq<u8>)
    requires |bytes| == 32 && Decompress(bytes).Some?
    ensures Denotes(den, Decompress(bytes).value, den(PointRes(Decompress(bytes).value)))
  {
    hide Decompress, EncodeAffine, OnAffineCurve, ONE, Res, EdwardsPoint.Ok, F.Valid, PointRes;
    DecompressSound(bytes);
  }

  lemma SamePoint<G(!new)>(g: Group<G>, den: F.Quad -> G, p: EdwardsPoint, q: EdwardsPoint, a: G, b: G)
    requires PrimeModulus() && Interprets(g, den) && Denotes(den, p, a) && Denotes(den, q, b)
    ensures p.Ok() && q.Ok() && (a == b <==> Compress(p) == Compress(q))
  {
    hide PrimeModulus, Interprets, Compress, EdwardsPoint.Ok, F.Valid, PointRes, F.ProjEq;
    DenEq(g, den, PointRes(p), PointRes(q));
    if a == b {
      CompressRespects(p, q);
    }
    if Compress(p) == Compress(q) {
      CompressInjective(p, q);
    }
  }

  /** Comparing compressed bytes is comparing group elements, and only accepted strings can match. */
  lemma CompressedMatch<G(!new)>(g: Group<G>, den: F.Quad -> G, p: EdwardsPoint, e: G, bytes: seq<u8>)
    requires PrimeModulus() && Interprets(g, den) && Denotes(den, p, e) && |bytes| == 32
    ensures p.Ok() && (Compress(p) == bytes <==> Encodes(den, bytes, e))
  {
    hide PrimeModulus, Interprets, Compress, Decompress, EdwardsPoint.Ok, F.Valid, PointRes;
    if Compress(p) == bytes {
      CompressIsAccepted(p);
    }
    if Decompress(bytes).Some? {
      var q := Decompress(bytes).value;
      DecodedDenotes(den, bytes);
      CompressDecompress(bytes);
      SamePoint(g, den, p, q, e, den(PointRes(q)));
    }
  }

  /** The projective identity test is the group's. */
  lemma IdentityTest<G(!new)>(g: Group<G>, den: F.Quad -> G, p: EdwardsPoint, e: G)
    requires Interprets(g, den) && Denotes(den, p, e)
    ensures p.IsIdentity() <==> e == g.zero
  {
    hide Interprets, EdwardsPoint.Ok, Mod, Val, F.OnCurve;
    IdentityValid();
    DenIdentity(g, den);
    DenEq(g, den, PointRes(p), F.IDENTITYQ);
    IdentityCrossed(Res(p.x), Res(p.y), Res(p.z));
  }

  lemma IdentityCrossed(x: int, y: int, z: int)
    requires 0 <= x < P && 0 <= y < P && 0 <= z < P
    ensures F.ProjEq(F.Quad(x, y, z, 0), F.IDENTITYQ) <==> x == 0 && y == z
  {
    ModSmall(x);
    ModSmall(y);
    ModSmall(z);
  }

  /** The code's small-order test is [8]A == 0. */
  lemma SmallOrderTest<G(!new)>(g: Group<G>, den: F.Quad -> G, p: EdwardsPoint, e: G)
    requires Interprets(g, den) && Denotes(den, p, e)
    ensures p.Ok() && (p.IsSmallOrder() <==> Times(g, 8, e) == g.zero)
  {
    hide Interprets, Denotes, Times, EdwardsPoint.Ok, EdwardsPoint.Double, EdwardsPoint.IsIdentity;
    DenotesOk(den, p, e);
    InterpretsAbelian(g, den);
    TimesOne(g, e);
    EdwardsMul.DoubleTimes(g, den, p, 1, e);
    EdwardsMul.DoubleTimes(g, den, p.Double(), 2, e);
    EdwardsMul.DoubleTimes(g, den, p.Double().Double(), 4, e);
    IdentityTest(g, den, p.MulByCofactor(), Times(g, 8, e));
  }

  // ---------------------------------------------------------------------------
  // Verification
  // ---------------------------------------------------------------------------

  /** Decompress the key and refuse a small-order one. */
  method ParseKey<G(!new)>(publicKey: seq<u8>, ghost g: Group<G>, ghost den: F.Quad -> G)
      returns (r: Result<EdwardsPoint>)
    requires Interprets(g, den) && |publicKey| == 32
    ensures r.Err? ==> KeyVerdict(g, den, publicKey) == Err(r.error)
    ensures r.Ok? ==> KeyVerdict(g, den, publicKey).Ok? && Denotes(den, r.value, KeyVerdict(g, den, publicKey).value)
  {
    hide Interprets, Decompress, Denotes, Times, EdwardsPoint.Ok, EdwardsPoint.IsSmallOrder, PointRes;
    var bigA := Decompress(publicKey);
    if bigA.None? {
      return Err(InvalidPublicKey);
    }
    DecodedDenotes(den, publicKey);
    SmallOrderTest(g, den, bigA.value, den(PointRes(bigA.value)));
    if bigA.value.IsSmallOrder() {
      return Err(SmallOrderPublicKey);
    }
    return Ok(bigA.value);
  }

  /** The recomputation `verify_tail` is handed: from the key itself, or from its prepared table. */
  datatype Recompute = FromPoint(negatedA: EdwardsPoint) | FromTable(negatedOdd: seq<AffineNiels>)

  ghost predicate RecomputesFor<G(!new)>(g: Group<G>, den: F.Quad -> G, how: Recompute, a: G) {
    match how
    case FromPoint(p) => Denotes(den, p, g.neg(a))
    case FromTable(t) => |t| == 64 && IsOddAffine(g, den, t, g.neg(a))
  }

  /** [s]B - [k]A by either route. */
  method RunRecompute<G(!new)>(how: Recompute, k: Limbs4, s: Limbs4, ghost g: Group<G>, ghost den: F.Quad -> G,
                               ghost a: G)
    returns (r: EdwardsPoint)
    requires PrimeModulus() && Interprets(g, den) && RecomputesFor(g, den, how, a)
    requires Nat(k) < ORDER && Nat(s) < ORDER
    ensures Denotes(den, r, Recomputed(g, den, Nat(k), a, Nat(s)))
  {
    hide PrimeModulus, Interprets, Denotes, IsOddAffine, EdwardsMul.Comb, EdwardsMul.BaseElement, Nat;
    match how
    case FromPoint(p) =>
      r := EdwardsMul.VartimeDoubleScalarMulBasepoint(k, p, s, g, den, g.neg(a));
    case FromTable(t) =>
      r := EdwardsMul.VartimeDoubleScalarMulPrepared(k, t, s, g, den, g.neg(a));
  }

  /** The tail every strict verification shares. */
  method VerifyTail<G(!new)>(sha: seq<u8> -> Digest, publicKey: seq<u8>, message: seq<u8>, signature: seq<u8>,
                             how: Recompute,
                             ghost g: Group<G>, ghost den: F.Quad -> G, ghost a: G) returns (r: Result<()>)
    requires PrimeModulus() && Interprets(g, den) && RecomputesFor(g, den, how, a)
    requires |publicKey| == 32 && |signature| == 64
    ensures r == TailVerdict(sha, g, den, a, publicKey, message, signature)
  {
    hide PrimeModulus, Interprets, RecomputesFor, Denotes, Encodes, Recomputed, Nat, LeVal, Compress, Decompress,
         EdwardsPoint.Ok;
    var rBytes, sBytes := signature[..32], signature[32..];
    var s := FromCanonicalBytes(sBytes);
    if s.None? {
      return Err(NonCanonicalSignatureS);
    }
    var k := FromWideBytes(sha(rBytes + publicKey + message));
    var recomputed := RunRecompute(how, k, s.value, g, den, a);
    CompressedMatch(g, den, recomputed, Recomputed(g, den, Nat(k), a, Nat(s.value)), rBytes);
    if Compress(recomputed) == rBytes {
      return Ok(());
    } else if Decompress(rBytes).None? {
      return Err(InvalidSignatureR);
    } else {
      return Err(VerificationFailed);
    }
  }

  /** Strict verification from the 32-byte key. */
  method VerifyStrict<G(!new)>(sha: seq<u8> -> Digest, publicKey: seq<u8>, message: seq<u8>, signature: seq<u8>,
                               ghost g: Group<G>, ghost den: F.Quad -> G) returns (r: Result<()>)
    requires PrimeModulus() && Interprets(g, den) && |publicKey| == 32 && |signature| == 64
    ensures r == Verdict(sha, g, den, publicKey, message, signature)
  {
    hide PrimeModulus, Interprets, Denotes, TailVerdict, KeyVerdict, EdwardsPoint.Negate, EdwardsPoint.Ok;
    var key := ParseKey(publicKey, g, den);
    if key.Err? {
      return Err(key.error);
    }
    ghost var a := KeyVerdict(g, den, publicKey).value;
    NegateDenotes(g, den, key.value, a);
    r := VerifyTail(sha, publicKey, message, signature, FromPoint(key.value.Negate()), g, den, a);
  }

  /** A public key prepared for repeated strict verification. */
  datatype PreparedVerifier = PreparedVerifier(public: seq<u8>, negatedOdd: seq<AffineNiels>) {
    ghost predicate For<G(!new)>(g: Group<G>, den: F.Quad -> G, publicKey: seq<u8>)
      requires |publicKey| == 32
    {
      && public == publicKey && KeyVerdict(g, den, publicKey).Ok?
      && RecomputesFor(g, den, FromTable(negatedOdd), KeyVerdict(g, den, publicKey).value)
    }
  }

  /** Decompress the key, reject small-order points, build the table. */
  method NewPrepared<G(!new)>(publicKey: seq<u8>, ghost g: Group<G>, ghost den: F.Quad -> G)
    returns (r: Result<PreparedVerifier>)
    requires PrimeModulus() && Interprets(g, den) && |publicKey| == 32
    ensures r == Err(InvalidPublicKey) <==> Decompress(publicKey).None?
    ensures r == Err(SmallOrderPublicKey)
       <==> Decompress(publicKey).Some? && Times(g, 8, den(PointRes(Decompress(publicKey).value))) == g.zero
    ensures r.Err? ==> r.error == InvalidPublicKey || r.error == SmallOrderPublicKey
    ensures r.Ok? ==> r.value.For(g, den, publicKey) && r.value.public == publicKey
  {
    hide PrimeModulus, Interprets, Denotes, KeyVerdict, EdwardsPoint.Negate, EdwardsPoint.Ok, IsOddAffine, Decompress,
      Times, PointRes;
    KeyMeaning(g, den, publicKey);
    var key := ParseKey(publicKey, g, den);
    if key.Err? {
      return Err(key.error);
    }
    ghost var a := KeyVerdict(g, den, publicKey).value;
    NegateDenotes(g, den, key.value, a);
    var table := AffineOddMultiples(key.value.Negate(), g, den, g.neg(a));
    return Ok(PreparedVerifier(publicKey, table));
  }

  /** Prepared verification returns what the free function returns, error for error. */
  method VerifyPrepared<G(!new)>(sha: seq<u8> -> Digest, verifier: PreparedVerifier, message: seq<u8>,
                                 signature: seq<u8>,
                                 ghost g: Group<G>, ghost den: F.Quad -> G) returns (r: Result<()>)
    requires PrimeModulus() && Interprets(g, den) && |verifier.public| == 32 && |signature| == 64
    requires verifier.For(g, den, verifier.public)
    ensures r == Verdict(sha, g, den, verifier.public, message, signature)
  {
    hide PrimeModulus, Interprets, TailVerdict, KeyVerdict, RecomputesFor;
    ghost var a := KeyVerdict(g, den, verifier.public).value;
    r := VerifyTail(sha, verifier.public, message, signature, FromTable(verifier.negatedOdd), g, den, a);
  }

  // ---------------------------------------------------------------------------
  // Keys and signing
  // ---------------------------------------------------------------------------

  /** The base point has order L: the one fact about the group that signing needs. */
  ghost predicate BaseOrder<G(!new)>(g: Group<G>, den: F.Quad -> G) {
    forall n {:trigger Times(g, n, EdwardsMul.BaseElement(den))} ::
      Times(g, n, EdwardsMul.BaseElement(den)) == g.zero <==> n % ORDER == 0
  }

  datatype SigningKey = SigningKey(seed: seq<u8>, scalar: Limbs4, prefix: seq<u8>, public: seq<u8>) {
    /** The scalar, the prefix and the public key all come from the seed. */
    ghost predicate For<G(!new)>(sha: seq<u8> -> Digest, g: Group<G>, den: F.Quad -> G) {
      && Nat(scalar) == LeVal(Clamp(sha(seed)[..32])) % ORDER
      && prefix == sha(seed)[32..]
      && |public| == 32
      && Encodes(den, public, Times(g, Nat(scalar), EdwardsMul.BaseElement(den)))
    }
  }

  method CompressMultiple<G(!new)>(s: Limbs4, ghost g: Group<G>, ghost den: F.Quad -> G) returns (r: seq<u8>)
    requires PrimeModulus() && Interprets(g, den) && Nat(s) < ORDER
    ensures |r| == 32 && Encodes(den, r, Times(g, Nat(s), EdwardsMul.BaseElement(den)))
  {
    hide PrimeModulus, Interprets, Denotes, Times, EdwardsMul.BaseElement, Nat, Compress, Encodes, EdwardsPoint.Ok;
    var p := EdwardsMul.MulBase(s, g, den);
    DenotesOk(den, p, Times(g, Nat(s), EdwardsMul.BaseElement(den)));
    CompressedMatch(g, den, p, Times(g, Nat(s), EdwardsMul.BaseElement(den)), Compress(p));
    r := Compress(p);
  }

  /** Derive a signing key from a 32-byte seed. */
  method FromSeed<G(!new)>(sha: seq<u8> -> Digest, seed: seq<u8>, ghost g: Group<G>, ghost den: F.Quad -> G)
    returns (key: SigningKey)
    requires PrimeModulus() && Interprets(g, den) && |seed| == 32
    ensures key.seed == seed && key.For(sha, g, den)
    ensures key.prefix == sha(seed)[32..] && Nat(key.scalar) == LeVal(Clamp(sha(seed)[..32])) % ORDER
    ensures |key.public| == 32 && Decompress(key.public).Some?
    ensures den(PointRes(Decompress(key.public).value)) == Times(g, Nat(key.scalar), den(PointRes(BASEPOINT)))
  {
    hide PrimeModulus, Interprets, Times, Nat, LeVal, Clamp, Decompress, PointRes;
    var expanded := sha(seed);
    var scalar := FromBytesModOrder(Clamp(expanded[..32]));
    var public := CompressMultiple(scalar, g, den);
    key := SigningKey(seed, scalar, expanded[32..], public);
  }

  /** What a signature is: R = [r]B and S = r + k a modulo L (section 5.1.6 of RFC 8032). */
  ghost predicate IsSignature<G(!new)>(sha: seq<u8> -> Digest, g: Group<G>, den: F.Quad -> G,
                                       key: SigningKey, message: seq<u8>, signature: seq<u8>) {
    && |signature| == 64
    && var r := LeVal(sha(key.prefix + message)) % ORDER;
       var k := Challenge(sha, signature[..32], key.public, message);
    && Encodes(den, signature[..32], Times(g, r, EdwardsMul.BaseElement(den)))
    && LeVal(signature[32..]) == (k * Nat(key.scalar) + r) % ORDER
  }

  method Sign<G(!new)>(sha: seq<u8> -> Digest, key: SigningKey, message: seq<u8>, ghost g: Group<G>,
                       ghost den: F.Quad -> G)
    returns (signature: seq<u8>)
    requires PrimeModulus() && Interprets(g, den)
    ensures IsSignature(sha, g, den, key, message, signature)
    ensures |signature| == 64 && Decompress(signature[..32]).Some?
    ensures var r := LeVal(sha(key.prefix + message)) % ORDER;
      den(PointRes(Decompress(signature[..32]).value)) == Times(g, r, den(PointRes(BASEPOINT)))
    ensures var r := LeVal(sha(key.prefix + message)) % ORDER;
      var k := LeVal(sha(signature[..32] + key.public + message)) % ORDER;
      LeVal(signature[32..]) == (r + k * Nat(key.scalar)) % ORDER
  {
    hide PrimeModulus, Interprets, Times, Nat, LeVal, Decompress, PointRes;
    var r := FromWideBytes(sha(key.prefix + message));
    var bigR := CompressMultiple(r, g, den);
    var k := FromWideBytes(sha(bigR + key.public + message));
    var s := MulAdd(k, key.scalar, r);
    var sBytes := ToBytes(s);
    signature := bigR + sBytes;
    assert signature[..32] == bigR && signature[32..] == sBytes;
  }

  // ---------------------------------------------------------------------------
  // What is signed verifies, and nothing else does for the same R
  // ---------------------------------------------------------------------------

  /** A clamped scalar is a multiple of 8 between 2^254 and 2^255. */
  lemma ClampedValue(bytes: seq<u8>)
    requires |bytes| == 32
    ensures LeVal(Clamp(bytes)) % 8 == 0
    ensures TWO254 <= LeVal(Clamp(bytes)) < 2 * TWO254
  {
    hide *;
    ClampedEnds(bytes);
    var c := Clamp(bytes);
    TopByteWeight();
    LeBound(c[..31]);
    assert c == c[..31] + [c[31]] && c == [c[0]] + c[1..];
    LeAppend(c[..31], [c[31]]);
    LeAppend([c[0]], c[1..]);
    SingleByte(c[0]);
    SingleByte(c[31]);
    OneByte();
    ClampBounds(LeVal(c[..31]), BytePow(31), c[31]);
    ClampLow(c[0], LeVal(c[1..]));
  }

  lemma ClampLow(b: u8, high: int)
    requires b % 8 == 0
    ensures (b + 0x100 * high) % 8 == 0
  {
    ModUnique(b + 0x100 * high, 8, b / 8 + 32 * high, 0);
  }

  lemma ClampedEnds(bytes: seq<u8>)
    requires |bytes| == 32
    ensures Clamp(bytes)[0] % 8 == 0 && 0x40 <= Clamp(bytes)[31] < 0x80
  {
  }

  lemma ClampBounds(low: int, w: int, top: int)
    requires w == TWO192 * 0x100_0000_0000_0000 && 0 <= low < w && 0x40 <= top < 0x80
    ensures TWO254 <= low + w * top < 2 * TWO254
  {
  }

  /** No clamped scalar is a multiple of the group order, nor is 8 times its residue. */
  lemma ClampedNotSmall(n: int)
    requires n % 8 == 0 && TWO254 <= n < 2 * TWO254
    ensures (8 * (n % ORDER)) % ORDER != 0
  {
    var a, q := n % ORDER, n / ORDER;
    if (8 * a) % ORDER == 0 {
      var m, k := (8 * a) / ORDER, ORDER / 8;
      assert ORDER == 8 * k + 5;
      ModUnique(8 * a, 8, a, 0);
      OddMultipleOfEight(k, m, 8 * a);
      OddMultipleOfEight(k, q, n);
    }
  }

  /** The order is odd, so of its first eight multiples only zero is a multiple of eight. */
  lemma OddMultipleOfEight(k: int, q: int, n: int)
    requires k >= 0 && 0 <= q < 8 && n == (8 * k + 5) * q && n % 8 == 0
    ensures q == 0
  {
    assert n == 8 * (k * q) + 5 * q;
    SameRemainder(n, 5 * q, k * q, 8);
  }

  lemma SignedScalar<G(!new)>(g: Group<G>, den: F.Quad -> G, k: int, a: int, r: int, s: int)
    requires Interprets(g, den) && BaseOrder(g, den) && s == (k * a + r) % ORDER
    ensures Recomputed(g, den, k, Times(g, a, EdwardsMul.BaseElement(den)), s)
        == Times(g, r, EdwardsMul.BaseElement(den))
  {
    hide *;
    var b := EdwardsMul.BaseElement(den);
    InterpretsAbelian(g, den);
    RecomputedIs(g, den, k, Times(g, a, b), s);
    TimesNeg(g, a, b);
    EdwardsMul.TimesProduct(g, k, -a, b);
    TimesAdd(g, k * (-a), s, b);
    var q := CongruentScalars(k, a, r, s);
    OrderShift(g, den, k * (-a) + s, r, q);
  }

  lemma RecomputedIs<G(!new)>(g: Group<G>, den: F.Quad -> G, k: int, a: G, s: int)
    ensures Recomputed(g, den, k, a, s) == g.add(Times(g, k, g.neg(a)), Times(g, s, EdwardsMul.BaseElement(den)))
  {
  }

  lemma CongruentScalars(k: int, a: int, r: int, s: int) returns (q: int)
    requires s == (k * a + r) % ORDER
    ensures k * (-a) + s == r - q * ORDER
  {
    q := (k * a + r) / ORDER;
    var n := k * a;
    assert k * (-a) == -n;
  }

  lemma OrderShift<G(!new)>(g: Group<G>, den: F.Quad -> G, m: int, n: int, q: int)
    requires Interprets(g, den) && BaseOrder(g, den) && m == n - q * ORDER
    ensures Times(g, m, EdwardsMul.BaseElement(den)) == Times(g, n, EdwardsMul.BaseElement(den))
  {
    hide Interprets, Times, EdwardsMul.BaseElement;
    var b := EdwardsMul.BaseElement(den);
    InterpretsAbelian(g, den);
    TimesAdd(g, m, q * ORDER, b);
    ModUnique(q * ORDER, ORDER, q, 0);
    Zero(g, Times(g, m, b));
  }

  /** Every signature made by a key verifies against that key. */
  lemma SignThenVerify<G(!new)>(sha: seq<u8> -> Digest, g: Group<G>, den: F.Quad -> G,
                                key: SigningKey, message: seq<u8>, signature: seq<u8>)
    requires Interprets(g, den) && BaseOrder(g, den)
    requires key.For(sha, g, den) && IsSignature(sha, g, den, key, message, signature)
    ensures Verdict(sha, g, den, key.public, message, signature) == Ok(())
  {
    hide Interprets, Times, EdwardsMul.BaseElement, Nat, LeVal, Clamp, Recomputed, Decompress, PointRes, Challenge;
    var b, a := EdwardsMul.BaseElement(den), Nat(key.scalar);
    var clamped := Clamp(sha(key.seed)[..32]);
    ClampedValue(sha(key.seed)[..32]);
    ClampedNotSmall(LeVal(clamped));
    InterpretsAbelian(g, den);
    TimesTimes(g, 8, a, b);
    SignedScalar(g, den, Challenge(sha, signature[..32], key.public, message), a,
                 LeVal(sha(key.prefix + message)) % ORDER, LeVal(signature[32..]));
  }

  /** Two accepted signatures of one message with the same R are the same bytes: S cannot be varied. */
  lemma SignatureUnique<G(!new)>(sha: seq<u8> -> Digest, g: Group<G>, den: F.Quad -> G, publicKey: seq<u8>,
                                 message: seq<u8>, s1: seq<u8>, s2: seq<u8>)
    requires Interprets(g, den) && BaseOrder(g, den)
    requires |publicKey| == 32 && |s1| == |s2| == 64 && s1[..32] == s2[..32]
    requires Verdict(sha, g, den, publicKey, message, s1) == Ok(())
        && Verdict(sha, g, den, publicKey, message, s2) == Ok(())
    ensures s1 == s2
  {
    hide Interprets, Times, EdwardsMul.BaseElement, LeVal, Decompress, PointRes, Challenge, BaseOrder;
    var a, k := KeyVerdict(g, den, publicKey).value, Challenge(sha, s1[..32], publicKey, message);
    InterpretsAbelian(g, den);
    SameScalar(g, den, Times(g, k, g.neg(a)), LeVal(s1[32..]), LeVal(s2[32..]));
    LeInjective(s1[32..], s2[32..]);
    assert s1 == s1[..32] + s1[32..] && s2 == s2[..32] + s2[32..];
  }

  lemma SameScalar<G(!new)>(g: Group<G>, den: F.Quad -> G, x: G, m: int, n: int)
    requires Interprets(g, den) && BaseOrder(g, den) && 0 <= m < ORDER && 0 <= n < ORDER
    requires g.add(x, Times(g, m, EdwardsMul.BaseElement(den))) == g.add(x, Times(g, n, EdwardsMul.BaseElement(den)))
    ensures m == n
  {
    hide Interprets, IsAbelian, Times, EdwardsMul.BaseElement;
    var b := EdwardsMul.BaseElement(den);
    InterpretsAbelian(g, den);
    TimesAdd(g, n, m - n, b);
    var u, v := Times(g, n, b), Times(g, m - n, b);
    Assoc(g, x, u, v);
    AbsorbedIsZero(g, g.add(x, u), v);
    assert (m - n) % ORDER == 0;
    SmallMultiple(m - n);
  }

  lemma SmallMultiple(d: int)
    requires -ORDER < d < ORDER && d % ORDER == 0
    ensures d == 0
  {
  }
}
