/** The bounds-checked parser (encode.rs), as functions of the bytes that remain. */
module WireParse {
  import opened Arith
  import opened Bytes
  import opened WireTypes
  import opened WireEncode

  datatype Parsed<+T> = Parsed(value: T, rest: seq<u8>)

  function ParseExact(s: seq<u8>, n: nat): Result<Parsed<seq<u8>>> {
    if n > |s| then Err(Truncated) else Ok(Parsed(s[..n], s[n..]))
  }

  function ParseNum(s: seq<u8>, k: nat): (r: Result<Parsed<nat>>)
    ensures r.Ok? ==> r.value.value < BytePow(k)
  {
    var Parsed(b, s) :- ParseExact(s, k);
    BeBound(b);
    Ok(Parsed(BeVal(b), s))
  }

  function ParseU16(s: seq<u8>): Result<Parsed<U16>> {
    Widths();
    var Parsed(n, s) :- ParseNum(s, 2);
    Ok(Parsed(n, s))
  }

  function ParseU32(s: seq<u8>): Result<Parsed<U32>> {
    Widths();
    var Parsed(n, s) :- ParseNum(s, 4);
    Ok(Parsed(n, s))
  }

  function ParseU64(s: seq<u8>): Result<Parsed<U64>> {
    Widths();
    var Parsed(n, s) :- ParseNum(s, 8);
    Ok(Parsed(n, s))
  }

  function Parse32(s: seq<u8>): Result<Parsed<Bytes32>> {
    var Parsed(b, s) :- ParseExact(s, 32);
    Ok(Parsed(b, s))
  }

  /** A length-prefixed string, refused when the length exceeds the policy's limit. */
  function ParseBytes(s: seq<u8>, p: ValidationPolicy): (r: Result<Parsed<Vec>>)
  {
    var Parsed(len, s) :- ParseU64(s);
    if len > p.Limit() then Err(LengthLimit(len))
    else
      var Parsed(b, s) :- ParseExact(s, len);
      Ok(Parsed(b, s))
  }

  function ParseText(s: seq<u8>, p: ValidationPolicy): Result<Parsed<Text>>
  {
    var Parsed(b, s) :- ParseBytes(s, p);
    if |b| > p.maxIdentifierBytes then Err(IdentifierLength(|b|))
    else if !ValidUtf8(b) then Err(InvalidUtf8)
    else Ok(Parsed(b, s))
  }

  function ParseCount(s: seq<u8>, max: nat): Result<Parsed<nat>> {
    var Parsed(n, s) :- ParseU64(s);
    if n > max then Err(LengthLimit(n)) else Ok(Parsed(n, s))
  }

  function ParseSuite(s: seq<u8>): Result<Parsed<Suite>> {
    var Parsed(code, s) :- ParseNum(s, 1);
    match code
    case 1 => Ok(Parsed(Aes256Gcm, s))
    case 2 => Ok(Parsed(XChaCha20Poly1305, s))
    case 3 => Ok(Parsed(ChaCha20Poly1305, s))
    case _ => Err(UnsupportedFormat(code))
  }

  /** The fields of a context, domain already read. */
  function ParseContextFields(s: seq<u8>, p: ValidationPolicy): Result<Parsed<RecordContext>>
  {
    var Parsed(tenant, s) :- ParseText(s, p);
    var Parsed(objectId, s) :- ParseText(s, p);
    var Parsed(field, s) :- ParseText(s, p);
    var Parsed(epoch, s) :- ParseU64(s);
    var Parsed(version, s) :- ParseU64(s);
    var Parsed(schemaVersion, s) :- ParseU32(s);
    Ok(Parsed(RecordContext(tenant, objectId, field, epoch, version, schemaVersion), s))
  }

  function ParseContext(bytes: seq<u8>, p: ValidationPolicy): Result<RecordContext>
  {
    var Parsed(domain, s) :- ParseBytes(bytes, p);
    if domain != CONTEXT_DOMAIN then Err(UnsupportedFormat(0))
    else
      var Parsed(context, s) :- ParseContextFields(s, p);
      if s != [] then Err(TrailingBytes) else Ok(context)
  }

  function ParseEnvelope(s: seq<u8>, p: ValidationPolicy): Result<Parsed<RecipientEnvelope>>
  {
    var Parsed(recipientId, s) :- ParseText(s, p);
    var Parsed(keyEpoch, s) :- ParseU64(s);
    var Parsed(recipientKeyId, s) :- Parse32(s);
    var Parsed(encapsulatedKey, s) :- ParseBytes(s, p);
    var Parsed(wrappedDek, s) :- ParseBytes(s, p);
    Ok(Parsed(RecipientEnvelope(recipientId, keyEpoch, recipientKeyId, encapsulatedKey, wrappedDek), s))
  }

  function ParseEnvelopes(s: seq<u8>, n: nat, p: ValidationPolicy): Result<Parsed<seq<RecipientEnvelope>>>
    decreases n
  {
    if n == 0 then Ok(Parsed([], s))
    else
      var Parsed(e, s) :- ParseEnvelope(s, p);
      var Parsed(es, s) :- ParseEnvelopes(s, n - 1, p);
      Ok(Parsed([e] + es, s))
  }

  function ParseIndex(s: seq<u8>, p: ValidationPolicy): Result<Parsed<BlindIndex>>
  {
    var Parsed(indexLabel, s) :- ParseText(s, p);
    var Parsed(schemaVersion, s) :- ParseU32(s);
    var Parsed(canonicalizerId, s) :- ParseText(s, p);
    var Parsed(canonicalizerVersion, s) :- ParseU16(s);
    var Parsed(keyEpoch, s) :- ParseU64(s);
    var Parsed(token, s) :- ParseExact(s, 16);
    Ok(Parsed(BlindIndex(indexLabel, schemaVersion, canonicalizerId, canonicalizerVersion, keyEpoch, token), s))
  }

  function ParseIndexes(s: seq<u8>, n: nat, p: ValidationPolicy): Result<Parsed<seq<BlindIndex>>>
    decreases n
  {
    if n == 0 then Ok(Parsed([], s))
    else
      var Parsed(x, s) :- ParseIndex(s, p);
      var Parsed(xs, s) :- ParseIndexes(s, n - 1, p);
      Ok(Parsed([x] + xs, s))
  }

  /** The domain, the version, the suite and the context. */
  datatype Front = Front(formatVersion: U16, suite: Suite, context: RecordContext)

  function ParseFront(s: seq<u8>, p: ValidationPolicy): Result<Parsed<Front>>
  {
    var Parsed(domain, s) :- ParseBytes(s, p);
    if domain != SIGNATURE_DOMAIN then Err(UnsupportedFormat(0))
    else
      var Parsed(formatVersion, s) :- ParseU16(s);
      if formatVersion != FORMAT_VERSION then Err(UnsupportedFormat(formatVersion))
      else
        var Parsed(suite, s) :- ParseSuite(s);
        var Parsed(contextBytes, s) :- ParseBytes(s, p);
        var context :- ParseContext(contextBytes, p);
        Ok(Parsed(Front(formatVersion, suite, context), s))
  }

  datatype Body = Body(manifestRevision: U64, previousManifestHash: Bytes32, keyCommitment: Bytes32, nonce: Vec,
                       ciphertext: Vec)

  function ParseBody(s: seq<u8>, p: ValidationPolicy): Result<Parsed<Body>>
  {
    var Parsed(manifestRevision, s) :- ParseU64(s);
    var Parsed(previousManifestHash, s) :- Parse32(s);
    var Parsed(keyCommitment, s) :- Parse32(s);
    var Parsed(nonce, s) :- ParseBytes(s, p);
    var Parsed(ciphertext, s) :- ParseBytes(s, p);
    Ok(Parsed(Body(manifestRevision, previousManifestHash, keyCommitment, nonce, ciphertext), s))
  }

  datatype Lists = Lists(recipients: seq<RecipientEnvelope>, indexes: seq<BlindIndex>, signerPublicKey: Bytes32)

  function ParseLists(s: seq<u8>, p: ValidationPolicy): Result<Parsed<Lists>>
  {
    var Parsed(n, s) :- ParseCount(s, p.maxRecipients);
    var Parsed(recipients, s) :- ParseEnvelopes(s, n, p);
    var Parsed(m, s) :- ParseCount(s, p.maxIndexes);
    var Parsed(indexes, s) :- ParseIndexes(s, m, p);
    var Parsed(signer, s) :- Parse32(s);
    Ok(Parsed(Lists(recipients, indexes, signer), s))
  }

  function Assemble(f: Front, b: Body, l: Lists, signature: Vec): SealedRecord {
    SealedRecord(f.formatVersion, f.suite, f.context, b.manifestRevision, b.previousManifestHash, b.keyCommitment,
                 b.nonce, b.ciphertext, l.recipients, l.indexes, l.signerPublicKey, signature)
  }

  /** Parsing to the end, before any check that needs the whole record. */
  function ParseRecord(s: seq<u8>, p: ValidationPolicy): Result<SealedRecord>
  {
    var Parsed(front, s) :- ParseFront(s, p);
    var Parsed(body, s) :- ParseBody(s, p);
    ParseRest(front, body, s, p)
  }

  function ParseRest(front: Front, body: Body, s: seq<u8>, p: ValidationPolicy): Result<SealedRecord> {
    var Parsed(lists, s) :- ParseLists(s, p);
    var Parsed(signature, s) :- ParseBytes(s, p);
    if s != [] then Err(TrailingBytes) else Ok(Assemble(front, body, lists, signature))
  }

  // ---------------------------------------------------------------------------
  // What each length prefix may announce
  // ---------------------------------------------------------------------------

  predicate TextWithin(t: Text, p: ValidationPolicy) {
    |t| <= p.Limit() && |t| <= p.maxIdentifierBytes
  }

  predicate ContextWithin(c: RecordContext, p: ValidationPolicy) {
    |ContextBytes(c)| <= p.Limit() && TextWithin(c.tenant, p) && TextWithin(c.objectId, p) && TextWithin(c.field, p)
  }

  predicate EnvelopeWithin(e: RecipientEnvelope, p: ValidationPolicy) {
    TextWithin(e.recipientId, p) && |e.encapsulatedKey| <= p.Limit() && |e.wrappedDek| <= p.Limit()
  }

  predicate IndexWithin(x: BlindIndex, p: ValidationPolicy) {
    TextWithin(x.indexLabel, p) && TextWithin(x.canonicalizerId, p)
  }

  /** Everything the parser compares with the policy. */
  predicate Within(r: SealedRecord, p: ValidationPolicy) {
    && r.formatVersion == FORMAT_VERSION && ContextWithin(r.context, p)
    && |r.nonce| <= p.Limit() && |r.ciphertext| <= p.Limit() && |r.signature| <= p.Limit()
    && |r.recipients| <= p.maxRecipients && |r.indexes| <= p.maxIndexes
    && (forall i :: 0 <= i < |r.recipients| ==> EnvelopeWithin(r.recipients[i], p))
    && (forall i :: 0 <= i < |r.indexes| ==> IndexWithin(r.indexes[i], p))
  }

  // ---------------------------------------------------------------------------
  // What each reader takes, and the error of each refusal
  // ---------------------------------------------------------------------------

  lemma ExactMeaning(s: seq<u8>, n: nat)
    ensures ParseExact(s, n) == if |s| < n then Err(Truncated) else Ok(Parsed(s[..n], s[n..]))
  {
  }

  /** A length of eight bytes, refused above the limit before anything else is looked at. */
  lemma BytesMeaning(s: seq<u8>, p: ValidationPolicy)
    ensures |s| < 8 ==> ParseBytes(s, p) == Err(Truncated)
    ensures |s| >= 8 ==>
              var n := BeVal(s[..8]);
              && (n > p.Limit() ==> ParseBytes(s, p) == Err(LengthLimit(n)))
              && (|s| - 8 < n <= p.Limit() ==> ParseBytes(s, p) == Err(Truncated))
              && (n <= p.Limit() && n <= |s| - 8 ==> ParseBytes(s, p) == Ok(Parsed(s[8..][..n], s[8..][n..])))
  {
    hide BeVal, BytePow;
  }

  /** A string is refused for its length first, then for its encoding. */
  lemma TextMeaning(s: seq<u8>, p: ValidationPolicy)
    ensures ParseBytes(s, p).Err? ==> ParseText(s, p) == Err(ParseBytes(s, p).error)
    ensures ParseBytes(s, p).Ok? ==>
              var b := ParseBytes(s, p).value.value;
              && (|b| > p.maxIdentifierBytes ==> ParseText(s, p) == Err(IdentifierLength(|b|)))
              && (|b| <= p.maxIdentifierBytes && !ValidUtf8(b) ==> ParseText(s, p) == Err(InvalidUtf8))
              && (|b| <= p.maxIdentifierBytes && ValidUtf8(b) ==>
                    ParseText(s, p) == Ok(Parsed(b, ParseBytes(s, p).value.rest)))
  {
    hide ParseBytes, ValidUtf8;
  }

  lemma CountMeaning(s: seq<u8>, max: nat)
    ensures |s| < 8 ==> ParseCount(s, max) == Err(Truncated)
    ensures |s| >= 8 ==>
              var n := BeVal(s[..8]);
              ParseCount(s, max) == if n > max then Err(LengthLimit(n)) else Ok(Parsed(n, s[8..]))
  {
    hide BeVal, BytePow;
  }

  lemma SuiteMeaning(s: seq<u8>)
    ensures s == [] ==> ParseSuite(s) == Err(Truncated)
    ensures s != [] && s[0] == 1 ==> ParseSuite(s) == Ok(Parsed(Aes256Gcm, s[1..]))
    ensures s != [] && s[0] == 2 ==> ParseSuite(s) == Ok(Parsed(XChaCha20Poly1305, s[1..]))
    ensures s != [] && s[0] == 3 ==> ParseSuite(s) == Ok(Parsed(ChaCha20Poly1305, s[1..]))
    ensures s != [] && !(1 <= s[0] <= 3) ==> ParseSuite(s) == Err(UnsupportedFormat(s[0]))
  {
    hide BytePow;
    if s != [] {
      assert s[..1] == [s[0]] && BeVal([s[0]]) == s[0];
    }
  }

  /** A wrong domain is an unsupported format 0, a wrong version that version. */
  lemma FrontErrors(s: seq<u8>, p: ValidationPolicy)
    ensures ParseBytes(s, p).Ok? && ParseBytes(s, p).value.value != SIGNATURE_DOMAIN
        ==> ParseRecord(s, p) == Err(UnsupportedFormat(0))
    ensures ParseBytes(s, p).Ok? && ParseBytes(s, p).value.value == SIGNATURE_DOMAIN ==>
              var t := ParseBytes(s, p).value.rest;
              |t| >= 2 && BeVal(t[..2]) != 1 ==> ParseRecord(s, p) == Err(UnsupportedFormat(BeVal(t[..2])))
  {
    hide BeVal, BytePow, ParseBytes, ParseSuite, ParseContext, SIGNATURE_DOMAIN;
  }

  // ---------------------------------------------------------------------------
  // Parsing what was printed
  // ---------------------------------------------------------------------------

  lemma NumPrinted(n: nat, k: nat, tail: seq<u8>)
    requires n < BytePow(k)
    ensures ParseNum(PutNum(n, k, tail), k) == Ok(Parsed(n, tail))
  {
    hide BeBytes, BytePow;
    var s := PutNum(n, k, tail);
    assert s[..k] == BeBytes(n, k) && s[k..] == tail;
    BeValOfBytes(n, k);
  }

  lemma NumsPrinted(a: U16, b: U32, c: U64, tail: seq<u8>)
    ensures ParseU16(PutNum(a, 2, tail)) == Ok(Parsed(a, tail))
    ensures ParseU32(PutNum(b, 4, tail)) == Ok(Parsed(b, tail))
    ensures ParseU64(PutNum(c, 8, tail)) == Ok(Parsed(c, tail))
  {
    hide ParseNum, PutNum, BytePow;
    Widths();
    NumPrinted(a, 2, tail);
    NumPrinted(b, 4, tail);
    NumPrinted(c, 8, tail);
  }

  lemma Fixed32Printed(b: Bytes32, tail: seq<u8>)
    ensures Parse32(b + tail) == Ok(Parsed(b, tail))
  {
    assert (b + tail)[..32] == b && (b + tail)[32..] == tail;
  }

  lemma BytesPrinted(b: Vec, tail: seq<u8>, p: ValidationPolicy)
    ensures ParseBytes(PutBytes(b, tail), p) == if |b| <= p.Limit() then Ok(Parsed(b, tail)) else Err(LengthLimit(|b|))
  {
    hide ParseU64, PutNum;
    NumsPrinted(0, 0, |b|, b + tail);
    assert (b + tail)[..|b|] == b && (b + tail)[|b|..] == tail;
  }

  lemma TextPrinted(t: Text, tail: seq<u8>, p: ValidationPolicy)
    requires TextWithin(t, p)
    ensures ParseText(PutBytes(t, tail), p) == Ok(Parsed(t, tail))
  {
    hide ParseBytes, PutBytes, ValidUtf8;
    BytesPrinted(t, tail, p);
  }

  lemma CountPrinted(n: nat, max: nat, tail: seq<u8>)
    requires n <= max < 0x1_0000_0000_0000_0000
    ensures ParseCount(PutNum(n, 8, tail), max) == Ok(Parsed(n, tail))
  {
    hide ParseU64, PutNum;
    NumsPrinted(0, 0, n, tail);
  }

  lemma SuitePrinted(suite: Suite, tail: seq<u8>)
    ensures ParseSuite(PutNum(suite.Code(), 1, tail)) == Ok(Parsed(suite, tail))
  {
    hide ParseNum, PutNum, BytePow;
    Widths();
    NumPrinted(suite.Code(), 1, tail);
  }

  lemma ContextPrinted(c: RecordContext, p: ValidationPolicy)
    requires ContextWithin(c, p)
    ensures ParseContext(ContextBytes(c), p) == Ok(c)
  {
    hide ParseBytes, ParseText, ParseU64, ParseU32, PutBytes, PutNum, CONTEXT_DOMAIN, ValidUtf8, ContextWithin;
    WithinParts(c, p);
    DomainLengths();
    var t0 := PutNum(c.schemaVersion, 4, []);
    var t1 := PutNum(c.version, 8, t0);
    var t2 := PutNum(c.epoch, 8, t1);
    var t3 := PutBytes(c.field, t2);
    var t4 := PutBytes(c.objectId, t3);
    var t5 := PutBytes(c.tenant, t4);
    BytesPrinted(CONTEXT_DOMAIN, t5, p);
    TextPrinted(c.tenant, t4, p);
    TextPrinted(c.objectId, t3, p);
    TextPrinted(c.field, t2, p);
    NumsPrinted(0, 0, c.epoch, t1);
    NumsPrinted(0, 0, c.version, t0);
    NumsPrinted(0, c.schemaVersion, 0, []);
  }

  lemma WithinParts(c: RecordContext, p: ValidationPolicy)
    requires ContextWithin(c, p)
    ensures TextWithin(c.tenant, p) && TextWithin(c.objectId, p) && TextWithin(c.field, p)
        && |ContextBytes(c)| <= p.Limit()
  {
    hide ContextBytes;
  }

  lemma EnvelopePrinted(e: RecipientEnvelope, tail: seq<u8>, p: ValidationPolicy)
    requires EnvelopeWithin(e, p)
    ensures ParseEnvelope(PutEnvelope(e, tail), p) == Ok(Parsed(e, tail))
  {
    hide ParseBytes, ParseText, ParseU64, Parse32, PutBytes, PutNum, ValidUtf8, TextWithin;
    var t0 := PutBytes(e.wrappedDek, tail);
    var t1 := PutBytes(e.encapsulatedKey, t0);
    TextPrinted(e.recipientId, PutNum(e.keyEpoch, 8, e.recipientKeyId + t1), p);
    NumsPrinted(0, 0, e.keyEpoch, e.recipientKeyId + t1);
    Fixed32Printed(e.recipientKeyId, t1);
    BytesPrinted(e.encapsulatedKey, t0, p);
    BytesPrinted(e.wrappedDek, tail, p);
  }

  lemma {:induction false} EnvelopesPrinted(es: seq<RecipientEnvelope>, tail: seq<u8>, p: ValidationPolicy)
    requires forall i :: 0 <= i < |es| ==> EnvelopeWithin(es[i], p)
    ensures ParseEnvelopes(PutEnvelopes(es, tail), |es|, p) == Ok(Parsed(es, tail))
  {
    hide ParseEnvelope, PutEnvelope, EnvelopeWithin;
    if es != [] {
      EnvelopePrinted(es[0], PutEnvelopes(es[1..], tail), p);
      EnvelopesPrinted(es[1..], tail, p);
      assert es == [es[0]] + es[1..];
    }
  }

  lemma TokenPrinted(b: Bytes16, tail: seq<u8>)
    ensures ParseExact(b + tail, 16) == Ok(Parsed(b, tail))
  {
    assert (b + tail)[..16] == b && (b + tail)[16..] == tail;
  }

  lemma IndexPrinted(x: BlindIndex, tail: seq<u8>, p: ValidationPolicy)
    requires IndexWithin(x, p)
    ensures ParseIndex(PutIndex(x, tail), p) == Ok(Parsed(x, tail))
  {
    hide ParseText, ParseU64, ParseU32, ParseU16, ParseExact, PutBytes, PutNum, ValidUtf8, TextWithin;
    var t0 := x.token + tail;
    var t1 := PutNum(x.keyEpoch, 8, t0);
    var t2 := PutNum(x.canonicalizerVersion, 2, t1);
    var t3 := PutBytes(x.canonicalizerId, t2);
    TextPrinted(x.indexLabel, PutNum(x.schemaVersion, 4, t3), p);
    NumsPrinted(0, x.schemaVersion, 0, t3);
    TextPrinted(x.canonicalizerId, t2, p);
    NumsPrinted(x.canonicalizerVersion, 0, 0, t1);
    NumsPrinted(0, 0, x.keyEpoch, t0);
    TokenPrinted(x.token, tail);
  }

  lemma {:induction false} IndexesPrinted(xs: seq<BlindIndex>, tail: seq<u8>, p: ValidationPolicy)
    requires forall i :: 0 <= i < |xs| ==> IndexWithin(xs[i], p)
    ensures ParseIndexes(PutIndexes(xs, tail), |xs|, p) == Ok(Parsed(xs, tail))
  {
    hide ParseIndex, PutIndex, IndexWithin;
    if xs != [] {
      IndexPrinted(xs[0], PutIndexes(xs[1..], tail), p);
      IndexesPrinted(xs[1..], tail, p);
      assert xs == [xs[0]] + xs[1..];
    }
  }

  lemma BodyPrinted(r: SealedRecord, tail: seq<u8>, p: ValidationPolicy)
    requires |r.nonce| <= p.Limit() && |r.ciphertext| <= p.Limit()
    ensures ParseBody(PutBody(r, tail), p)
         == Ok(Parsed(Body(r.manifestRevision, r.previousManifestHash, r.keyCommitment, r.nonce, r.ciphertext), tail))
  {
    hide ParseBytes, ParseU64, Parse32, PutBytes, PutNum;
    var t0 := PutBytes(r.ciphertext, tail);
    var t1 := PutBytes(r.nonce, t0);
    NumsPrinted(0, 0, r.manifestRevision, r.previousManifestHash + (r.keyCommitment + t1));
    Fixed32Printed(r.previousManifestHash, r.keyCommitment + t1);
    Fixed32Printed(r.keyCommitment, t1);
    BytesPrinted(r.nonce, t0, p);
    BytesPrinted(r.ciphertext, tail, p);
  }

  lemma ListsPrinted(r: SealedRecord, tail: seq<u8>, p: ValidationPolicy)
    requires Within(r, p)
    ensures ParseLists(PutLists(r, tail), p) == Ok(Parsed(Lists(r.recipients, r.indexes, r.signerPublicKey), tail))
  {
    hide ParseCount, ParseEnvelopes, ParseIndexes, Parse32, PutNum, PutEnvelopes, PutIndexes, EnvelopeWithin,
      IndexWithin, ContextWithin;
    var t0 := r.signerPublicKey + tail;
    var t1 := PutIndexes(r.indexes, t0);
    var t2 := PutNum(|r.indexes|, 8, t1);
    CountPrinted(|r.recipients|, p.maxRecipients, PutEnvelopes(r.recipients, t2));
    EnvelopesPrinted(r.recipients, t2, p);
    CountPrinted(|r.indexes|, p.maxIndexes, t1);
    IndexesPrinted(r.indexes, t0, p);
    Fixed32Printed(r.signerPublicKey, tail);
  }

  lemma FrontPrinted(r: SealedRecord, tail: seq<u8>, p: ValidationPolicy)
    requires r.formatVersion == FORMAT_VERSION && ContextWithin(r.context, p)
    ensures var s := PutBytes(SIGNATURE_DOMAIN,
                              PutNum(r.formatVersion, 2,
                                     PutNum(r.suite.Code(), 1, PutBytes(ContextBytes(r.context), tail))));
      ParseFront(s, p) == Ok(Parsed(Front(r.formatVersion, r.suite, r.context), tail))
  {
    hide ParseBytes, ParseU16, ParseSuite, ParseContext, PutBytes, PutNum, SIGNATURE_DOMAIN, ContextWithin,
      ContextBytes;
    DomainLengths();
    WithinParts(r.context, p);
    var t0 := PutBytes(ContextBytes(r.context), tail);
    var t1 := PutNum(r.suite.Code(), 1, t0);
    BytesPrinted(SIGNATURE_DOMAIN, PutNum(r.formatVersion, 2, t1), p);
    NumsPrinted(r.formatVersion, 0, 0, t1);
    SuitePrinted(r.suite, t0);
    BytesPrinted(ContextBytes(r.context), tail, p);
    ContextPrinted(r.context, p);
  }

  /** A record within the limits parses back from its encoding. */
  lemma RecordPrinted(r: SealedRecord, p: ValidationPolicy)
    requires Within(r, p)
    ensures ParseRecord(Encode(r), p) == Ok(r)
  {
    hide ParseFront, ParseBody, ParseLists, ParseBytes, PutBytes, PutBody, PutLists, PutNum, ContextBytes,
      EnvelopeWithin,
         IndexWithin, ContextWithin, SIGNATURE_DOMAIN;
    var t0 := PutBytes(r.signature, []);
    var t1 := PutLists(r, t0);
    FrontPrinted(r, PutBody(r, t1), p);
    BodyPrinted(r, t1, p);
    ListsPrinted(r, t0, p);
    BytesPrinted(r.signature, [], p);
  }

  // ---------------------------------------------------------------------------
  // Printing what was parsed
  // ---------------------------------------------------------------------------

  lemma NumParsed(s: seq<u8>, k: nat)
    requires ParseNum(s, k).Ok?
    ensures var Parsed(n, rest) := ParseNum(s, k).value; s == PutNum(n, k, rest)
  {
    hide BeBytes, BytePow;
    BeBytesOfVal(s[..k]);
    assert s == s[..k] + s[k..];
  }

  lemma U16Parsed(s: seq<u8>)
    requires ParseU16(s).Ok?
    ensures s == PutNum(ParseU16(s).value.value, 2, ParseU16(s).value.rest)
  {
    hide ParseNum, PutNum, BytePow;
    NumParsed(s, 2);
  }

  lemma U32Parsed(s: seq<u8>)
    requires ParseU32(s).Ok?
    ensures s == PutNum(ParseU32(s).value.value, 4, ParseU32(s).value.rest)
  {
    hide ParseNum, PutNum, BytePow;
    NumParsed(s, 4);
  }

  lemma U64Parsed(s: seq<u8>)
    requires ParseU64(s).Ok?
    ensures s == PutNum(ParseU64(s).value.value, 8, ParseU64(s).value.rest)
  {
    hide ParseNum, PutNum, BytePow;
    NumParsed(s, 8);
  }

  lemma Fixed32Parsed(s: seq<u8>)
    requires Parse32(s).Ok?
    ensures s == Parse32(s).value.value + Parse32(s).value.rest
  {
  }

  lemma BytesParsed(s: seq<u8>, p: ValidationPolicy)
    requires ParseBytes(s, p).Ok?
    ensures var Parsed(b, rest) := ParseBytes(s, p).value; s == PutBytes(b, rest) && |b| <= p.Limit()
  {
    hide ParseU64, PutNum;
    U64Parsed(s);
    var Parsed(len, t) := ParseU64(s).value;
    assert t == t[..len] + t[len..];
  }

  lemma TextParsed(s: seq<u8>, p: ValidationPolicy)
    requires ParseText(s, p).Ok?
    ensures var Parsed(t, rest) := ParseText(s, p).value; s == PutBytes(t, rest) && TextWithin(t, p)
  {
    hide ParseBytes, PutBytes, ValidUtf8;
    BytesParsed(s, p);
  }

  lemma SuiteParsed(s: seq<u8>)
    requires ParseSuite(s).Ok?
    ensures s == PutNum(ParseSuite(s).value.value.Code(), 1, ParseSuite(s).value.rest)
  {
    hide ParseNum, PutNum, BytePow;
    NumParsed(s, 1);
  }

  lemma CountParsed(s: seq<u8>, max: nat)
    requires ParseCount(s, max).Ok?
    ensures var Parsed(n, rest) := ParseCount(s, max).value; s == PutNum(n, 8, rest) && n <= max
  {
    hide ParseU64, PutNum;
    U64Parsed(s);
  }

  lemma ContextParsed(s: seq<u8>, p: ValidationPolicy)
    requires ParseContext(s, p).Ok?
    ensures s == ContextBytes(ParseContext(s, p).value)
    ensures var c := ParseContext(s, p).value;
    TextWithin(c.tenant, p) && TextWithin(c.objectId, p) && TextWithin(c.field, p)
  {
    hide ParseBytes, ParseText, ParseU64, ParseU32, PutBytes, PutNum, CONTEXT_DOMAIN, ValidUtf8, TextWithin;
    BytesParsed(s, p);
    var s1 := ParseBytes(s, p).value.rest;
    TextParsed(s1, p);
    var s2 := ParseText(s1, p).value.rest;
    TextParsed(s2, p);
    var s3 := ParseText(s2, p).value.rest;
    TextParsed(s3, p);
    var s4 := ParseText(s3, p).value.rest;
    U64Parsed(s4);
    var s5 := ParseU64(s4).value.rest;
    U64Parsed(s5);
    U32Parsed(ParseU64(s5).value.rest);
  }

  lemma EnvelopeParsed(s: seq<u8>, p: ValidationPolicy)
    requires ParseEnvelope(s, p).Ok?
    ensures var Parsed(e, rest) := ParseEnvelope(s, p).value; s == PutEnvelope(e, rest) && EnvelopeWithin(e, p)
  {
    hide ParseBytes, ParseText, ParseU64, Parse32, PutBytes, PutNum, ValidUtf8, TextWithin;
    TextParsed(s, p);
    var s1 := ParseText(s, p).value.rest;
    U64Parsed(s1);
    var s2 := ParseU64(s1).value.rest;
    Fixed32Parsed(s2);
    var s3 := Parse32(s2).value.rest;
    BytesParsed(s3, p);
    BytesParsed(ParseBytes(s3, p).value.rest, p);
  }

  lemma {:induction false} EnvelopesParsed(s: seq<u8>, n: nat, p: ValidationPolicy)
    requires ParseEnvelopes(s, n, p).Ok?
    ensures var Parsed(es, rest) := ParseEnvelopes(s, n, p).value;
      && s == PutEnvelopes(es, rest) && |es| == n
      && forall i :: 0 <= i < n ==> EnvelopeWithin(es[i], p)
    decreases n
  {
    hide ParseEnvelope, PutEnvelope, EnvelopeWithin;
    if n > 0 {
      EnvelopeParsed(s, p);
      var Parsed(e, t) := ParseEnvelope(s, p).value;
      EnvelopesParsed(t, n - 1, p);
      var Parsed(es, rest) := ParseEnvelopes(t, n - 1, p).value;
      assert ([e] + es)[1..] == es;
    }
  }

  lemma IndexParsed(s: seq<u8>, p: ValidationPolicy)
    requires ParseIndex(s, p).Ok?
    ensures var Parsed(x, rest) := ParseIndex(s, p).value; s == PutIndex(x, rest) && IndexWithin(x, p)
  {
    hide ParseText, ParseU64, ParseU32, ParseU16, PutBytes, PutNum, ValidUtf8, TextWithin;
    TextParsed(s, p);
    var s1 := ParseText(s, p).value.rest;
    U32Parsed(s1);
    var s2 := ParseU32(s1).value.rest;
    TextParsed(s2, p);
    var s3 := ParseText(s2, p).value.rest;
    U16Parsed(s3);
    var s4 := ParseU16(s3).value.rest;
    U64Parsed(s4);
    var s5 := ParseU64(s4).value.rest;
    assert s5 == s5[..16] + s5[16..];
  }

  lemma {:induction false} IndexesParsed(s: seq<u8>, n: nat, p: ValidationPolicy)
    requires ParseIndexes(s, n, p).Ok?
    ensures var Parsed(xs, rest) := ParseIndexes(s, n, p).value;
      && s == PutIndexes(xs, rest) && |xs| == n
      && forall i :: 0 <= i < n ==> IndexWithin(xs[i], p)
    decreases n
  {
    hide ParseIndex, PutIndex, IndexWithin;
    if n > 0 {
      IndexParsed(s, p);
      var Parsed(x, t) := ParseIndex(s, p).value;
      IndexesParsed(t, n - 1, p);
      var Parsed(xs, rest) := ParseIndexes(t, n - 1, p).value;
      assert ([x] + xs)[1..] == xs;
    }
  }

  lemma FrontParsed(s: seq<u8>, p: ValidationPolicy)
    requires ParseFront(s, p).Ok?
    ensures var Parsed(f, rest) := ParseFront(s, p).value;
      && s == PutBytes(SIGNATURE_DOMAIN,
                       PutNum(f.formatVersion, 2, PutNum(f.suite.Code(), 1, PutBytes(ContextBytes(f.context), rest))))
      && f.formatVersion == FORMAT_VERSION && ContextWithin(f.context, p)
  {
    hide ParseBytes, ParseU16, ParseSuite, ParseContext, PutBytes, PutNum, SIGNATURE_DOMAIN, ContextBytes, TextWithin;
    BytesParsed(s, p);
    var s1 := ParseBytes(s, p).value.rest;
    U16Parsed(s1);
    var s2 := ParseU16(s1).value.rest;
    SuiteParsed(s2);
    var s3 := ParseSuite(s2).value.rest;
    BytesParsed(s3, p);
    ContextParsed(ParseBytes(s3, p).value.value, p);
  }

  lemma BodyParsed(s: seq<u8>, p: ValidationPolicy)
    requires ParseBody(s, p).Ok?
    ensures var Parsed(b, rest) := ParseBody(s, p).value;
      && s == PutNum(b.manifestRevision, 8, b.previousManifestHash
                     + (b.keyCommitment + PutBytes(b.nonce, PutBytes(b.ciphertext, rest))))
      && |b.nonce| <= p.Limit() && |b.ciphertext| <= p.Limit()
  {
    hide ParseBytes, ParseU64, Parse32, PutBytes, PutNum;
    U64Parsed(s);
    var s1 := ParseU64(s).value.rest;
    Fixed32Parsed(s1);
    var s2 := Parse32(s1).value.rest;
    Fixed32Parsed(s2);
    var s3 := Parse32(s2).value.rest;
    BytesParsed(s3, p);
    BytesParsed(ParseBytes(s3, p).value.rest, p);
  }

  lemma ListsParsed(s: seq<u8>, p: ValidationPolicy)
    requires ParseLists(s, p).Ok?
    ensures var Parsed(l, rest) := ParseLists(s, p).value;
      && s == PutNum(|l.recipients|, 8,
                     PutEnvelopes(l.recipients,
                                  PutNum(|l.indexes|, 8, PutIndexes(l.indexes, l.signerPublicKey + rest))))
      && |l.recipients| <= p.maxRecipients && |l.indexes| <= p.maxIndexes
      && (forall i :: 0 <= i < |l.recipients| ==> EnvelopeWithin(l.recipients[i], p))
      && (forall i :: 0 <= i < |l.indexes| ==> IndexWithin(l.indexes[i], p))
  {
    hide ParseCount, ParseEnvelopes, ParseIndexes, Parse32, PutNum, PutEnvelopes, PutIndexes, EnvelopeWithin,
      IndexWithin;
    CountParsed(s, p.maxRecipients);
    var Parsed(n, s1) := ParseCount(s, p.maxRecipients).value;
    EnvelopesParsed(s1, n, p);
    var s2 := ParseEnvelopes(s1, n, p).value.rest;
    CountParsed(s2, p.maxIndexes);
    var Parsed(m, s3) := ParseCount(s2, p.maxIndexes).value;
    IndexesParsed(s3, m, p);
    Fixed32Parsed(ParseIndexes(s3, m, p).value.rest);
  }

  /** Whatever parses to the end is the encoding of what it parses to, and is within the limits. */
  lemma RecordParsed(s: seq<u8>, p: ValidationPolicy)
    requires ParseRecord(s, p).Ok?
    ensures var r := ParseRecord(s, p).value; s == Encode(r) && Within(r, p)
  {
    hide ParseFront, ParseBody, ParseLists, ParseBytes, PutBytes, PutNum, PutEnvelopes, PutIndexes, ContextBytes,
      EnvelopeWithin,
         IndexWithin, ContextWithin, SIGNATURE_DOMAIN;
    FrontParsed(s, p);
    var s1 := ParseFront(s, p).value.rest;
    BodyParsed(s1, p);
    var s2 := ParseBody(s1, p).value.rest;
    ListsParsed(s2, p);
    BytesParsed(ParseLists(s2, p).value.rest, p);
  }
}
