/** Validation of a record (record.rs), and what decoding undoes (encode.rs, `decode`). */
module WireRecord {
  import opened Bytes
  import opened WireTypes
  import opened WireEncode
  import opened WireParse

  // ---------------------------------------------------------------------------
  // The order of recipients and indexes
  // ---------------------------------------------------------------------------

  /** The lexicographic order of byte strings. */
  predicate Less(a: seq<u8>, b: seq<u8>) {
    b != [] && (a == [] || a[0] < b[0] || (a[0] == b[0] && Less(a[1..], b[1..])))
  }

  lemma {:induction false} LessTransitive(a: seq<u8>, b: seq<u8>, c: seq<u8>)
    requires Less(a, b) && Less(b, c)
    ensures Less(a, c)
  {
    if a != [] && a[0] == b[0] && b[0] == c[0] {
      LessTransitive(a[1..], b[1..], c[1..]);
    }
  }

  lemma {:induction false} LessTotal(a: seq<u8>, b: seq<u8>)
    ensures Less(a, b) || a == b || Less(b, a)
    ensures !(Less(a, b) && Less(b, a)) && !Less(a, a)
  {
    if a != [] {
      LessTotal(a[1..], a[1..]);
    }
    if a != [] && b != [] && a[0] == b[0] {
      LessTotal(a[1..], b[1..]);
      assert a == [a[0]] + a[1..] && b == [b[0]] + b[1..];
    }
  }

  type SortKey = (Text, U64)

  predicate KeyLess(a: SortKey, b: SortKey) {
    Less(a.0, b.0) || (a.0 == b.0 && a.1 < b.1)
  }

  lemma KeyLessTransitive(a: SortKey, b: SortKey, c: SortKey)
    requires KeyLess(a, b) && KeyLess(b, c)
    ensures KeyLess(a, c)
  {
    if Less(a.0, b.0) && Less(b.0, c.0) {
      LessTransitive(a.0, b.0, c.0);
    }
  }

  lemma KeyLessTotal(a: SortKey, b: SortKey)
    ensures KeyLess(a, b) || a == b || KeyLess(b, a)
    ensures !(KeyLess(a, b) && KeyLess(b, a)) && !KeyLess(a, a)
  {
    LessTotal(a.0, b.0);
    LessTotal(a.0, a.0);
  }

  predicate Increasing(keys: seq<SortKey>) {
    forall i, j :: 0 <= i < j < |keys| ==> KeyLess(keys[i], keys[j])
  }

  function RecipientKey(e: RecipientEnvelope): SortKey {
    (e.recipientId, e.keyEpoch)
  }

  function RecipientKeys(es: seq<RecipientEnvelope>): (r: seq<SortKey>)
    ensures |r| == |es|
  {
    seq(|es|, i requires 0 <= i < |es| => RecipientKey(es[i]))
  }

  function IndexKey(x: BlindIndex): SortKey {
    (x.indexLabel, x.keyEpoch)
  }

  function IndexKeys(xs: seq<BlindIndex>): (r: seq<SortKey>)
    ensures |r| == |xs|
  {
    seq(|xs|, i requires 0 <= i < |xs| => IndexKey(xs[i]))
  }

  // ---------------------------------------------------------------------------
  // validate_limits, first error first
  // ---------------------------------------------------------------------------

  datatype Previous = First | After(key: SortKey)

  predicate OutOfOrder(previous: Previous, current: SortKey) {
    previous.After? && !KeyLess(previous.key, current)
  }

  function ValidateLabel(value: Text, max: nat): Result<()> {
    if |value| == 0 || |value| > max then Err(IdentifierLength(|value|)) else Ok(())
  }

  function ValidateContext(c: RecordContext, p: ValidationPolicy): Result<()> {
    var _ :- ValidateLabel(c.tenant, p.maxIdentifierBytes);
    var _ :- ValidateLabel(c.objectId, p.maxIdentifierBytes);
    var _ :- ValidateLabel(c.field, p.maxIdentifierBytes);
    if c.epoch == 0 || c.version == 0 || c.schemaVersion == 0 then Err(InvalidVersion) else Ok(())
  }

  function CheckEnvelope(e: RecipientEnvelope, previous: Previous, p: ValidationPolicy): Result<()> {
    var _ :- ValidateLabel(e.recipientId, p.maxIdentifierBytes);
    if e.keyEpoch == 0 then Err(InvalidKeyEpoch)
    else if OutOfOrder(previous, RecipientKey(e)) then Err(NonCanonicalRecipients)
    else if |e.encapsulatedKey| != X25519_KEY_LEN then Err(InvalidEncapsulatedKeyLength(|e.encapsulatedKey|))
    else if |e.wrappedDek| != WRAPPED_DEK_LEN then Err(InvalidWrappedDekLength(|e.wrappedDek|))
    else Ok(())
  }

  function CheckEnvelopes(es: seq<RecipientEnvelope>, previous: Previous, p: ValidationPolicy): Result<()> {
    if es == [] then Ok(())
    else
      var _ :- CheckEnvelope(es[0], previous, p);
      CheckEnvelopes(es[1..], After(RecipientKey(es[0])), p)
  }

  function CheckIndex(x: BlindIndex, previous: Previous, p: ValidationPolicy): Result<()> {
    var _ :- ValidateLabel(x.indexLabel, p.maxIdentifierBytes);
    var _ :- ValidateLabel(x.canonicalizerId, p.maxIdentifierBytes);
    if x.keyEpoch == 0 || x.schemaVersion == 0 || x.canonicalizerVersion == 0 then Err(InvalidIndexDefinition)
    else if OutOfOrder(previous, IndexKey(x)) then Err(NonCanonicalIndexes)
    else Ok(())
  }

  function CheckIndexes(xs: seq<BlindIndex>, previous: Previous, p: ValidationPolicy): Result<()> {
    if xs == [] then Ok(())
    else
      var _ :- CheckIndex(xs[0], previous, p);
      CheckIndexes(xs[1..], After(IndexKey(xs[0])), p)
  }

  predicate ChainLinked(revision: U64, previous: Bytes32) {
    revision != 0 && (revision == 1 ==> previous == ZERO32) && (revision > 1 ==> previous != ZERO32)
  }

  function ValidateLimits(r: SealedRecord, p: ValidationPolicy): Result<()> {
    if r.formatVersion != FORMAT_VERSION then Err(UnsupportedFormat(r.formatVersion))
    else
      var _ :- ValidateContext(r.context, p);
      if !ChainLinked(r.manifestRevision, r.previousManifestHash) then Err(InvalidManifestChain)
      else if |r.nonce| != r.suite.NonceLen() then Err(InvalidNonceLength(r.suite.NonceLen(), |r.nonce|))
      else if |r.ciphertext| < TAG_LEN || |r.ciphertext| > p.maxCiphertextBytes then Err(CiphertextSize(|r.ciphertext|))
      else if |r.recipients| == 0 || |r.recipients| > p.maxRecipients then Err(RecipientCount(|r.recipients|))
      else
        var _ :- CheckEnvelopes(r.recipients, First, p);
        if |r.indexes| > p.maxIndexes then Err(IndexCount(|r.indexes|))
        else
          var _ :- CheckIndexes(r.indexes, First, p);
          if |r.signature| != 64 then Err(InvalidSignatureLength(|r.signature|)) else Ok(())
  }

  /** The two loops, each carrying the key before. */
  method ValidateLimitsLoop(r: SealedRecord, p: ValidationPolicy) returns (result: Result<()>)
    ensures result == ValidateLimits(r, p)
  {
    hide CheckEnvelope, CheckIndex, ValidateContext, KeyLess, ValidUtf8;
    if r.formatVersion != FORMAT_VERSION {
      return Err(UnsupportedFormat(r.formatVersion));
    }
    var _ :- ValidateContext(r.context, p);
    if r.manifestRevision == 0
       || (r.manifestRevision == 1 && r.previousManifestHash != ZERO32)
       || (r.manifestRevision > 1 && r.previousManifestHash == ZERO32) {
      return Err(InvalidManifestChain);
    }
    if |r.nonce| != r.suite.NonceLen() {
      return Err(InvalidNonceLength(r.suite.NonceLen(), |r.nonce|));
    }
    if |r.ciphertext| < TAG_LEN || |r.ciphertext| > p.maxCiphertextBytes {
      return Err(CiphertextSize(|r.ciphertext|));
    }
    if |r.recipients| == 0 || |r.recipients| > p.maxRecipients {
      return Err(RecipientCount(|r.recipients|));
    }
    var previous := First;
    for i := 0 to |r.recipients|
      invariant CheckEnvelopes(r.recipients, First, p) == CheckEnvelopes(r.recipients[i..], previous, p)
    {
      var _ :- CheckEnvelope(r.recipients[i], previous, p);
      previous := After(RecipientKey(r.recipients[i]));
      assert r.recipients[i..][1..] == r.recipients[i + 1..];
    }
    if |r.indexes| > p.maxIndexes {
      return Err(IndexCount(|r.indexes|));
    }
    previous := First;
    for i := 0 to |r.indexes|
      invariant CheckIndexes(r.indexes, First, p) == CheckIndexes(r.indexes[i..], previous, p)
    {
      var _ :- CheckIndex(r.indexes[i], previous, p);
      previous := After(IndexKey(r.indexes[i]));
      assert r.indexes[i..][1..] == r.indexes[i + 1..];
    }
    if |r.signature| != 64 {
      return Err(InvalidSignatureLength(|r.signature|));
    }
    return Ok(());
  }

  // ---------------------------------------------------------------------------
  // What a record that passes is
  // ---------------------------------------------------------------------------

  predicate LabelOk(value: Text, p: ValidationPolicy) {
    1 <= |value| <= p.maxIdentifierBytes
  }

  predicate EnvelopeOk(e: RecipientEnvelope, p: ValidationPolicy) {
    LabelOk(e.recipientId, p) && e.keyEpoch != 0 && |e.encapsulatedKey| == X25519_KEY_LEN
        && |e.wrappedDek| == WRAPPED_DEK_LEN
  }

  predicate IndexOk(x: BlindIndex, p: ValidationPolicy) {
    && LabelOk(x.indexLabel, p) && LabelOk(x.canonicalizerId, p)
    && x.keyEpoch != 0 && x.schemaVersion != 0 && x.canonicalizerVersion != 0
  }

  predicate ContextOk(c: RecordContext, p: ValidationPolicy) {
    && LabelOk(c.tenant, p) && LabelOk(c.objectId, p) && LabelOk(c.field, p)
    && c.epoch != 0 && c.version != 0 && c.schemaVersion != 0
  }

  /** Every part in range, and both lists strictly increasing, hence without duplicates. */
  predicate WellFormed(r: SealedRecord, p: ValidationPolicy) {
    && r.formatVersion == FORMAT_VERSION && ContextOk(r.context, p)
    && ChainLinked(r.manifestRevision, r.previousManifestHash)
    && |r.nonce| == r.suite.NonceLen() && TAG_LEN <= |r.ciphertext| <= p.maxCiphertextBytes
    && 1 <= |r.recipients| <= p.maxRecipients && |r.indexes| <= p.maxIndexes && |r.signature| == 64
    && (forall i :: 0 <= i < |r.recipients| ==> EnvelopeOk(r.recipients[i], p))
    && Increasing(RecipientKeys(r.recipients))
    && (forall i :: 0 <= i < |r.indexes| ==> IndexOk(r.indexes[i], p)) && Increasing(IndexKeys(r.indexes))
  }

  predicate Above(previous: Previous, keys: seq<SortKey>) {
    previous.After? ==> forall i :: 0 <= i < |keys| ==> KeyLess(previous.key, keys[i])
  }

  /** Adjacent comparisons order the whole list. */
  lemma IncreasingStep(previous: Previous, key: SortKey, rest: seq<SortKey>)
    ensures Above(previous, [key] + rest) && Increasing([key] + rest)
       <==> !OutOfOrder(previous, key) && Above(After(key), rest) && Increasing(rest)
  {
    hide KeyLess, ValidUtf8;
    var keys := [key] + rest;
    assert keys[0] == key && forall i :: 0 < i < |keys| ==> keys[i] == rest[i - 1];
    if Above(previous, keys) && Increasing(keys) {
      forall i | 0 <= i < |rest| ensures KeyLess(key, rest[i]) {
        assert KeyLess(keys[0], keys[i + 1]);
      }
      forall i, j | 0 <= i < j < |rest| ensures KeyLess(rest[i], rest[j]) {
        assert KeyLess(keys[i + 1], keys[j + 1]);
      }
    }
    if !OutOfOrder(previous, key) && Above(After(key), rest) && previous.After? {
      forall i | 0 <= i < |rest| ensures KeyLess(previous.key, rest[i]) {
        KeyLessTransitive(previous.key, key, rest[i]);
      }
    }
  }

  lemma {:induction false} EnvelopesMeaning(es: seq<RecipientEnvelope>, previous: Previous, p: ValidationPolicy)
    ensures CheckEnvelopes(es, previous, p).Ok?
       <==> (forall i :: 0 <= i < |es| ==> EnvelopeOk(es[i], p)) && Above(previous, RecipientKeys(es)) &&
            Increasing(RecipientKeys(es))
  {
    hide KeyLess, ValidUtf8, Increasing, Above, OutOfOrder, EnvelopeOk, CheckEnvelope;
    if es == [] {
      NoKeys(previous, RecipientKeys(es));
    } else {
      var rest := es[1..];
      EnvelopesMeaning(rest, After(RecipientKey(es[0])), p);
      IncreasingStep(previous, RecipientKey(es[0]), RecipientKeys(rest));
      assert RecipientKeys(es) == [RecipientKey(es[0])] + RecipientKeys(rest);
      EnvelopeMeaning(es[0], previous, p);
      assert forall i :: 0 < i < |es| ==> es[i] == rest[i - 1];
    }
  }

  lemma NoKeys(previous: Previous, keys: seq<SortKey>)
    requires keys == []
    ensures Above(previous, keys) && Increasing(keys)
  {
  }

  lemma EnvelopeMeaning(e: RecipientEnvelope, previous: Previous, p: ValidationPolicy)
    ensures CheckEnvelope(e, previous, p).Ok? <==> EnvelopeOk(e, p) && !OutOfOrder(previous, RecipientKey(e))
  {
    hide KeyLess, ValidUtf8;
  }

  lemma IndexMeaning(x: BlindIndex, previous: Previous, p: ValidationPolicy)
    ensures CheckIndex(x, previous, p).Ok? <==> IndexOk(x, p) && !OutOfOrder(previous, IndexKey(x))
  {
    hide KeyLess, ValidUtf8;
  }

  lemma {:induction false} IndexesMeaning(xs: seq<BlindIndex>, previous: Previous, p: ValidationPolicy)
    ensures CheckIndexes(xs, previous, p).Ok?
       <==> (forall i :: 0 <= i < |xs| ==> IndexOk(xs[i], p)) && Above(previous, IndexKeys(xs)) &&
            Increasing(IndexKeys(xs))
  {
    hide KeyLess, ValidUtf8, Increasing, Above, OutOfOrder, IndexOk, CheckIndex;
    if xs == [] {
      NoKeys(previous, IndexKeys(xs));
    } else {
      var rest := xs[1..];
      IndexesMeaning(rest, After(IndexKey(xs[0])), p);
      IncreasingStep(previous, IndexKey(xs[0]), IndexKeys(rest));
      assert IndexKeys(xs) == [IndexKey(xs[0])] + IndexKeys(rest);
      IndexMeaning(xs[0], previous, p);
      assert forall i :: 0 < i < |xs| ==> xs[i] == rest[i - 1];
    }
  }

  /** The checks pass exactly for the well-formed records. */
  lemma LimitsMeaning(r: SealedRecord, p: ValidationPolicy)
    ensures ValidateLimits(r, p).Ok? <==> WellFormed(r, p)
  {
    hide KeyLess, ValidUtf8, Increasing, CheckEnvelopes, CheckIndexes, EnvelopeOk, IndexOk;
    EnvelopesMeaning(r.recipients, First, p);
    IndexesMeaning(r.indexes, First, p);
  }

  // ---------------------------------------------------------------------------
  // Signature and pin
  // ---------------------------------------------------------------------------

  /** Limits, canonical form and the self-declared signature. */
  function ValidateStructure(c: Crypto, r: SealedRecord, p: ValidationPolicy): Result<()> {
    var _ :- ValidateLimits(r, p);
    if |r.signature| != 64 then Err(InvalidSignatureLength(|r.signature|))
    else if !c.verify(r.signerPublicKey, SigningBytes(r), r.signature) then Err(InvalidSignature)
    else Ok(())
  }

  /** And an explicitly pinned signer; an empty set trusts nobody. */
  function Validate(c: Crypto, r: SealedRecord, p: ValidationPolicy): Result<()> {
    var _ :- ValidateStructure(c, r, p);
    if p.allowedSigners == {} then Err(NoTrustedSigners)
    else if r.signerPublicKey !in p.allowedSigners then Err(UntrustedSigner)
    else Ok(())
  }

  /** A valid record is well formed, its signature verifies over its signed bytes, and its signer is pinned. */
  lemma ValidMeaning(c: Crypto, r: SealedRecord, p: ValidationPolicy)
    ensures ValidateStructure(c, r, p).Ok?
       <==> WellFormed(r, p) && c.verify(r.signerPublicKey, SigningBytes(r), r.signature)
    ensures Validate(c, r, p).Ok?
       <==> && WellFormed(r, p) && c.verify(r.signerPublicKey, SigningBytes(r), r.signature)
            && r.signerPublicKey in p.allowedSigners
  {
    hide ValidateLimits, SigningBytes, Increasing, EnvelopeOk, IndexOk, ContextOk;
    LimitsMeaning(r, p);
    EmptyPins(r, p);
  }

  lemma EmptyPins(r: SealedRecord, p: ValidationPolicy)
    ensures r.signerPublicKey in p.allowedSigners ==> p.allowedSigners != {}
  {
  }

  /** Which error a refused record gets: the first limit broken, then the signature, then the pin. */
  lemma ValidErrors(c: Crypto, r: SealedRecord, p: ValidationPolicy)
    ensures !WellFormed(r, p) ==>
              ValidateLimits(r, p).Err? && Validate(c, r, p) == Err(ValidateLimits(r, p).error)
    ensures WellFormed(r, p) ==>
              var verified := c.verify(r.signerPublicKey, SigningBytes(r), r.signature);
              && (Validate(c, r, p) == Err(InvalidSignature) <==> !verified)
              && (Validate(c, r, p) == Err(NoTrustedSigners) <==> verified && p.allowedSigners == {})
              && (Validate(c, r, p) == Err(UntrustedSigner)
                  <==> verified && p.allowedSigners != {} && r.signerPublicKey !in p.allowedSigners)
  {
    hide ValidateLimits, SigningBytes, Increasing, EnvelopeOk, IndexOk, ContextOk;
    LimitsMeaning(r, p);
  }

  /** The fixed parts are checked in this order, each with its own error. */
  lemma LimitErrors(r: SealedRecord, p: ValidationPolicy)
    ensures var l, c, max := ValidateLimits(r, p), r.context, p.maxIdentifierBytes;
      var nonce := if r.suite == XChaCha20Poly1305 then 24 else 12;
      if r.formatVersion != 1 then l == Err(UnsupportedFormat(r.formatVersion))
      else if |c.tenant| == 0 || |c.tenant| > max then l == Err(IdentifierLength(|c.tenant|))
      else if |c.objectId| == 0 || |c.objectId| > max then l == Err(IdentifierLength(|c.objectId|))
      else if |c.field| == 0 || |c.field| > max then l == Err(IdentifierLength(|c.field|))
      else if c.epoch == 0 || c.version == 0 || c.schemaVersion == 0 then l == Err(InvalidVersion)
      else if r.manifestRevision == 0 || (r.manifestRevision == 1) != (r.previousManifestHash == seq(32, _ => 0))
      then l == Err(InvalidManifestChain)
      else if |r.nonce| != nonce then l == Err(InvalidNonceLength(nonce, |r.nonce|))
      else if |r.ciphertext| < 16 || |r.ciphertext| > p.maxCiphertextBytes then l == Err(CiphertextSize(|r.ciphertext|))
      else if r.recipients == [] || |r.recipients| > p.maxRecipients then l == Err(RecipientCount(|r.recipients|))
      else if CheckEnvelopes(r.recipients, First, p).Err? then l == Err(CheckEnvelopes(r.recipients, First, p).error)
      else if |r.indexes| > p.maxIndexes then l == Err(IndexCount(|r.indexes|))
      else if CheckIndexes(r.indexes, First, p).Err? then l == Err(CheckIndexes(r.indexes, First, p).error)
      else if |r.signature| != 64 then l == Err(InvalidSignatureLength(|r.signature|))
      else l == Ok(())
  {
    hide CheckEnvelopes, CheckIndexes, ValidUtf8;
    assert ZERO32 == seq(32, _ => 0);
  }

  /** A list fails with the error of its first entry that is malformed or not above the one before it. */
  lemma {:induction false} EntryErrors(es: seq<RecipientEnvelope>, previous: Previous, p: ValidationPolicy, n: nat)
    requires n < |es| && CheckEnvelopes(es[..n], previous, p).Ok?
    ensures var e, before := es[n], if n == 0 then previous else After((es[n - 1].recipientId, es[n - 1].keyEpoch));
      var late := before.After? && !KeyLess(before.key, (e.recipientId, e.keyEpoch));
      var r := CheckEnvelopes(es, previous, p);
      if |e.recipientId| == 0 || |e.recipientId| > p.maxIdentifierBytes then r == Err(IdentifierLength(|e.recipientId|))
      else if e.keyEpoch == 0 then r == Err(InvalidKeyEpoch)
      else if late then r == Err(NonCanonicalRecipients)
      else if |e.encapsulatedKey| != 32 then r == Err(InvalidEncapsulatedKeyLength(|e.encapsulatedKey|))
      else |e.wrappedDek| != 48 ==> r == Err(InvalidWrappedDekLength(|e.wrappedDek|))
    decreases n
  {
    hide KeyLess, ValidUtf8;
    if n > 0 {
      assert es[..n][0] == es[0] && es[..n][1..] == es[1..][..n - 1];
      EntryErrors(es[1..], After(RecipientKey(es[0])), p, n - 1);
    }
  }

  /** The same for indexes. */
  lemma {:induction false} IndexErrors(xs: seq<BlindIndex>, previous: Previous, p: ValidationPolicy, n: nat)
    requires n < |xs| && CheckIndexes(xs[..n], previous, p).Ok?
    ensures var x, before := xs[n], if n == 0 then previous else After((xs[n - 1].indexLabel, xs[n - 1].keyEpoch));
      var late := before.After? && !KeyLess(before.key, (x.indexLabel, x.keyEpoch));
      var r, max := CheckIndexes(xs, previous, p), p.maxIdentifierBytes;
      if |x.indexLabel| == 0 || |x.indexLabel| > max then r == Err(IdentifierLength(|x.indexLabel|))
      else if |x.canonicalizerId| == 0 || |x.canonicalizerId| > max then r == Err(IdentifierLength(|x.canonicalizerId|))
      else if x.keyEpoch == 0 || x.schemaVersion == 0 || x.canonicalizerVersion == 0 then r
          == Err(InvalidIndexDefinition)
      else late ==> r == Err(NonCanonicalIndexes)
    decreases n
  {
    hide KeyLess, ValidUtf8;
    if n > 0 {
      assert xs[..n][0] == xs[0] && xs[..n][1..] == xs[1..][..n - 1];
      IndexErrors(xs[1..], After(IndexKey(xs[0])), p, n - 1);
    }
  }

  /** A well-formed record, part by part. */
  lemma WellFormedMeaning(r: SealedRecord, p: ValidationPolicy)
    ensures WellFormed(r, p)
       <==> && r.formatVersion == 1
            && 1 <= |r.context.tenant| <= p.maxIdentifierBytes && 1 <= |r.context.objectId| <= p.maxIdentifierBytes
            && 1 <= |r.context.field| <= p.maxIdentifierBytes
            && r.context.epoch > 0 && r.context.version > 0 && r.context.schemaVersion > 0
            && r.manifestRevision > 0 && (r.manifestRevision == 1 <==> r.previousManifestHash == seq(32, _ => 0))
            && |r.nonce| == (if r.suite == XChaCha20Poly1305 then 24 else 12)
            && 16 <= |r.ciphertext| <= p.maxCiphertextBytes
            && 1 <= |r.recipients| <= p.maxRecipients && |r.indexes| <= p.maxIndexes && |r.signature| == 64
            && (forall i :: 0 <= i < |r.recipients| ==>
                  var e := r.recipients[i];
                  1 <= |e.recipientId| <= p.maxIdentifierBytes && e.keyEpoch > 0 && |e.encapsulatedKey| == 32
                      && |e.wrappedDek| == 48)
            && (forall i, j :: 0 <= i < j < |r.recipients| ==>
                  var d, e := r.recipients[i], r.recipients[j];
                  Less(d.recipientId, e.recipientId) || (d.recipientId == e.recipientId && d.keyEpoch < e.keyEpoch))
            && (forall i :: 0 <= i < |r.indexes| ==>
                  var x := r.indexes[i];
                  1 <= |x.indexLabel| <= p.maxIdentifierBytes && 1 <= |x.canonicalizerId| <= p.maxIdentifierBytes
                  && x.keyEpoch > 0 && x.schemaVersion > 0 && x.canonicalizerVersion > 0)
            && (forall i, j :: 0 <= i < j < |r.indexes| ==>
                  var x, y := r.indexes[i], r.indexes[j];
                  Less(x.indexLabel, y.indexLabel) || (x.indexLabel == y.indexLabel && x.keyEpoch < y.keyEpoch))
  {
    hide Less, ValidUtf8, Increasing;
    assert ZERO32 == seq(32, _ => 0);
    RecipientsIncrease(r.recipients);
    IndexesIncrease(r.indexes);
  }

  lemma RecipientsIncrease(es: seq<RecipientEnvelope>)
    ensures Increasing(RecipientKeys(es))
       <==> forall i, j :: 0 <= i < j < |es| ==>
              Less(es[i].recipientId, es[j].recipientId)
              || (es[i].recipientId == es[j].recipientId && es[i].keyEpoch < es[j].keyEpoch)
  {
    hide Less, ValidUtf8;
    var k := RecipientKeys(es);
    assert forall i :: 0 <= i < |es| ==> k[i] == (es[i].recipientId, es[i].keyEpoch);
    if Increasing(k) {
      forall i, j | 0 <= i < j < |es|
        ensures Less(es[i].recipientId, es[j].recipientId)
                || (es[i].recipientId == es[j].recipientId && es[i].keyEpoch < es[j].keyEpoch)
      {
        assert KeyLess(k[i], k[j]);
      }
    }
  }

  lemma IndexesIncrease(xs: seq<BlindIndex>)
    ensures Increasing(IndexKeys(xs))
       <==> forall i, j :: 0 <= i < j < |xs| ==>
              Less(xs[i].indexLabel, xs[j].indexLabel)
              || (xs[i].indexLabel == xs[j].indexLabel && xs[i].keyEpoch < xs[j].keyEpoch)
  {
    hide Less, ValidUtf8;
    var k := IndexKeys(xs);
    assert forall i :: 0 <= i < |xs| ==> k[i] == (xs[i].indexLabel, xs[i].keyEpoch);
    if Increasing(k) {
      forall i, j | 0 <= i < j < |xs|
        ensures Less(xs[i].indexLabel, xs[j].indexLabel)
                || (xs[i].indexLabel == xs[j].indexLabel && xs[i].keyEpoch < xs[j].keyEpoch)
      {
        assert KeyLess(k[i], k[j]);
      }
    }
  }

  /** The byte order of strings: the first difference decides, a proper prefix comes first. */
  lemma {:induction false} LessMeaning(a: seq<u8>, b: seq<u8>)
    ensures Less(a, b) <==> exists k: nat :: DecidedAt(a, b, k)
  {
    if a == [] || b == [] || a[0] != b[0] {
      assert b != [] && (a == [] || a[0] < b[0]) ==> DecidedAt(a, b, 0);
    } else {
      LessMeaning(a[1..], b[1..]);
      if Less(a, b) {
        var k: nat :| DecidedAt(a[1..], b[1..], k);
        assert a[..k + 1] == [a[0]] + a[1..][..k] && b[..k + 1] == [b[0]] + b[1..][..k];
        assert DecidedAt(a, b, k + 1);
      }
      if k: nat :| DecidedAt(a, b, k) {
        assert a[1..][..k - 1] == a[..k][1..] && b[1..][..k - 1] == b[..k][1..];
        assert DecidedAt(a[1..], b[1..], k - 1);
      }
    }
  }

  /** The strings agree on k bytes, and then the first ends or has the smaller byte. */
  ghost predicate DecidedAt(a: seq<u8>, b: seq<u8>, k: nat) {
    k <= |a| && k < |b| && a[..k] == b[..k] && (k == |a| || a[k] < b[k])
  }

  /** The same against one prepared signer. */
  function ValidatePinned(c: Crypto, r: SealedRecord, pinned: Bytes32, p: ValidationPolicy): Result<()> {
    var _ :- ValidateLimits(r, p);
    if |r.signature| != 64 then Err(InvalidSignatureLength(|r.signature|))
    else if r.signerPublicKey == pinned then
      if c.verify(pinned, SigningBytes(r), r.signature) then Ok(()) else Err(InvalidSignature)
    else if !c.verify(r.signerPublicKey, SigningBytes(r), r.signature) then Err(InvalidSignature)
    else Err(UntrustedSigner)
  }

  /** Pinned validation is `validate` with only that key allowed, error for error. */
  lemma PinnedIsValidate(c: Crypto, r: SealedRecord, pinned: Bytes32, p: ValidationPolicy)
    ensures ValidatePinned(c, r, pinned, p) == Validate(c, r, p.(allowedSigners := {pinned}))
  {
    hide CheckEnvelopes, CheckIndexes, SigningBytes, ValidUtf8;
    SameLimits(r, p, p.(allowedSigners := {pinned}));
  }

  /** The signer pins do not matter to the limits. */
  lemma SameLimits(r: SealedRecord, p: ValidationPolicy, q: ValidationPolicy)
    requires q == p.(allowedSigners := q.allowedSigners)
    ensures ValidateLimits(r, p) == ValidateLimits(r, q)
  {
    hide CheckEnvelope, CheckIndex;
    SameEnvelopes(r.recipients, First, p, q);
    SameIndexes(r.indexes, First, p, q);
  }

  lemma {:induction false} SameEnvelopes(es: seq<RecipientEnvelope>, previous: Previous, p: ValidationPolicy,
                                         q: ValidationPolicy)
    requires p.maxIdentifierBytes == q.maxIdentifierBytes
    ensures CheckEnvelopes(es, previous, p) == CheckEnvelopes(es, previous, q)
  {
    hide KeyLess, ValidUtf8;
    if es != [] {
      SameEnvelopes(es[1..], After(RecipientKey(es[0])), p, q);
    }
  }

  lemma {:induction false} SameIndexes(xs: seq<BlindIndex>, previous: Previous, p: ValidationPolicy,
                                       q: ValidationPolicy)
    requires p.maxIdentifierBytes == q.maxIdentifierBytes
    ensures CheckIndexes(xs, previous, p) == CheckIndexes(xs, previous, q)
  {
    hide KeyLess, ValidUtf8;
    if xs != [] {
      SameIndexes(xs[1..], After(IndexKey(xs[0])), p, q);
    }
  }

  // ---------------------------------------------------------------------------
  // decode
  // ---------------------------------------------------------------------------

  function Decode(c: Crypto, bytes: seq<u8>, p: ValidationPolicy): Result<SealedRecord> {
    var r :- ParseRecord(bytes, p);
    if Encode(r) != bytes then Err(NonCanonicalEncoding)
    else
      var _ :- ValidateStructure(c, r, p);
      Ok(r)
  }

  /**
   The lengths the parser limits and validation does not: the context's encoding, and
   identifiers against the byte limit.
   */
  predicate PrefixesWithin(r: SealedRecord, p: ValidationPolicy) {
    && |ContextBytes(r.context)| <= p.Limit()
    && (forall i :: 0 <= i < |r.recipients| ==> |r.recipients[i].recipientId| <= p.Limit())
    && (forall i :: 0 <= i < |r.indexes| ==>
          |r.indexes[i].indexLabel| <= p.Limit() && |r.indexes[i].canonicalizerId| <= p.Limit())
  }

  /** The parser's limit is the larger of 4096 and the longest ciphertext allowed. */
  lemma LimitMeaning(p: ValidationPolicy)
    ensures p.Limit() >= 4096 && p.Limit() >= p.maxCiphertextBytes
    ensures p.Limit() == 4096 || p.Limit() == p.maxCiphertextBytes
  {
  }

  lemma ContextLength(c: RecordContext)
    ensures |ContextBytes(c)| == 73 + |c.tenant| + |c.objectId| + |c.field|
  {
    hide CONTEXT_DOMAIN, BeBytes;
    DomainLengths();
  }

  /** For a record that passes validation, the parser's limits are exactly those. */
  lemma WithinWhenValid(r: SealedRecord, p: ValidationPolicy)
    requires ValidateLimits(r, p).Ok?
    ensures Within(r, p) <==> PrefixesWithin(r, p)
  {
    hide Increasing, CheckEnvelopes, CheckIndexes, ContextBytes, ValidUtf8;
    LimitsMeaning(r, p);
    ContextLength(r.context);
  }

  /** Decoding accepts exactly the encodings of valid records within the parser's limits. */
  lemma DecodeIff(c: Crypto, bytes: seq<u8>, p: ValidationPolicy, r: SealedRecord)
    ensures Decode(c, bytes, p) == Ok(r)
       <==> && bytes == Encode(r) && WellFormed(r, p) && PrefixesWithin(r, p)
            && c.verify(r.signerPublicKey, SigningBytes(r), r.signature)
  {
    hide ParseRecord, Encode, ValidateLimits, ValidateStructure, SigningBytes, PrefixesWithin, Within, WellFormed;
    ValidMeaning(c, r, p);
    LimitsMeaning(r, p);
    if ParseRecord(bytes, p).Ok? {
      RecordParsed(bytes, p);
    }
    if ValidateStructure(c, r, p).Ok? {
      WithinWhenValid(r, p);
      if Within(r, p) {
        RecordPrinted(r, p);
      }
    }
  }

  /** A valid record survives the trip exactly when its prefixes are within the limit. */
  lemma DecodeEncode(c: Crypto, r: SealedRecord, p: ValidationPolicy)
    requires ValidateStructure(c, r, p).Ok?
    ensures Decode(c, Encode(r), p) == Ok(r) <==> PrefixesWithin(r, p)
  {
    hide Decode, Encode, ValidateStructure, PrefixesWithin, WellFormed;
    ValidMeaning(c, r, p);
    DecodeIff(c, Encode(r), p, r);
  }

  /** A policy whose identifier limit leaves room for the context never loses a record. */
  lemma PolicySuffices(c: Crypto, r: SealedRecord, p: ValidationPolicy)
    requires ValidateStructure(c, r, p).Ok? && 73 + 3 * p.maxIdentifierBytes <= p.Limit()
    ensures Decode(c, Encode(r), p) == Ok(r)
  {
    hide Decode, Encode, ValidateLimits, Increasing, ContextBytes, ValidUtf8, SigningBytes;
    LimitsMeaning(r, p);
    ContextLength(r.context);
    DecodeEncode(c, r, p);
  }

  /** The re-encoding check never fails: decoding is decoding without it. */
  lemma NonCanonicalUnreachable(c: Crypto, bytes: seq<u8>, p: ValidationPolicy)
    ensures ParseRecord(bytes, p).Ok? ==> Encode(ParseRecord(bytes, p).value) == bytes
    ensures Decode(c, bytes, p) == DecodeUnchecked(c, bytes, p)
  {
    hide ParseRecord, Encode, ValidateStructure, Within;
    if ParseRecord(bytes, p).Ok? {
      RecordParsed(bytes, p);
    }
  }

  function DecodeUnchecked(c: Crypto, bytes: seq<u8>, p: ValidationPolicy): Result<SealedRecord> {
    var r :- ParseRecord(bytes, p);
    var _ :- ValidateStructure(c, r, p);
    Ok(r)
  }

  // ---------------------------------------------------------------------------
  // A policy under which a valid record does not survive
  // ---------------------------------------------------------------------------

  lemma {:induction false} AsciiIsUtf8(s: seq<u8>)
    requires forall i :: 0 <= i < |s| ==> s[i] < 0x80
    ensures ValidUtf8(s)
  {
    if s != [] {
      AsciiIsUtf8(s[1..]);
    }
  }

  /** A name of n letters. */
  function Name(n: nat): (t: Text)
    requires n < 0x1_0000
    ensures |t| == n
  {
    var s := seq(n, _ => 0x61);
    AsciiIsUtf8(s);
    s
  }

  /** Identifiers of 4096 bytes are allowed, but so is no length prefix above 4096. */
  const WIDE_POLICY: ValidationPolicy := ValidationPolicy(16, 1, 0, 4096, {})

  /** A record of a 4096-byte tenant, one recipient and no indexes. */
  function WideRecord(signer: Bytes32, signature: Vec): SealedRecord {
    var recipient := RecipientEnvelope(Name(1), 1, ZERO32, seq(32, _ => 0), seq(48, _ => 0));
    SealedRecord(1, ChaCha20Poly1305, RecordContext(Name(4096), Name(1), Name(1), 1, 1, 1), 1, ZERO32, ZERO32,
                 seq(12, _ => 0), seq(16, _ => 0), [recipient], [], signer, signature)
  }

  /** Signed by anyone, it passes validation, and decoding its own encoding refuses it. */
  lemma RoundTripFails(c: Crypto, signer: Bytes32, signature: Vec)
    requires |signature| == 64 && c.verify(signer, SigningBytes(WideRecord(signer, signature)), signature)
    ensures ValidateStructure(c, WideRecord(signer, signature), WIDE_POLICY).Ok?
    ensures Decode(c, Encode(WideRecord(signer, signature)), WIDE_POLICY) != Ok(WideRecord(signer, signature))
  {
    hide Decode, Encode, SigningBytes, ValidUtf8, ContextBytes;
    var r := WideRecord(signer, signature);
    ContextLength(r.context);
    assert r.recipients[1..] == [];
    assert CheckEnvelope(r.recipients[0], First, WIDE_POLICY) == Ok(());
    assert CheckEnvelopes(r.recipients, First, WIDE_POLICY) == Ok(());
    assert ValidateLimits(r, WIDE_POLICY).Ok?;
    DecodeEncode(c, r, WIDE_POLICY);
  }
}
