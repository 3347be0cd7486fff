/** The canonical printer (encode.rs, context.rs and `signing_bytes` of record.rs). */
module WireEncode {
  import opened Arith
  import opened Bytes
  import opened WireTypes

  // ---------------------------------------------------------------------------
  // Printing in front of what follows
  // ---------------------------------------------------------------------------

  /** k big-endian bytes. */
  function PutNum(n: nat, k: nat, tail: seq<u8>): seq<u8> {
    BeBytes(n, k) + tail
  }

  /** A length as eight big-endian bytes, then the bytes. */
  function PutBytes(b: seq<u8>, tail: seq<u8>): seq<u8> {
    PutNum(|b|, 8, b + tail)
  }

  /** An ASCII literal as bytes. */
  function Ascii(s: string): (r: seq<u8>)
    requires forall i :: 0 <= i < |s| ==> (s[i] as int) < 0x80
    ensures |r| == |s|
  {
    seq(|s|, i requires 0 <= i < |s| => s[i] as int)
  }

  const CONTEXT_DOMAIN: seq<u8> := Ascii("blindplane/context/v1")
  const SIGNATURE_DOMAIN: seq<u8> := Ascii("blindplane/record-signature/v1")
  const MANIFEST_DOMAIN: seq<u8> := Ascii("blindplane/manifest-hash/v1")

  lemma DomainLengths()
    ensures |CONTEXT_DOMAIN| == 21 && |SIGNATURE_DOMAIN| == 30 && |MANIFEST_DOMAIN| == 27
  {
  }

  function PutContext(c: RecordContext, tail: seq<u8>): seq<u8> {
    PutBytes(CONTEXT_DOMAIN, PutBytes(c.tenant, PutBytes(c.objectId, PutBytes(c.field,
      PutNum(c.epoch, 8, PutNum(c.version, 8, PutNum(c.schemaVersion, 4, tail)))))))
  }

  /** `canonical_bytes`. */
  function ContextBytes(c: RecordContext): seq<u8> {
    PutContext(c, [])
  }

  function PutEnvelope(e: RecipientEnvelope, tail: seq<u8>): seq<u8> {
    PutBytes(e.recipientId,
             PutNum(e.keyEpoch, 8, e.recipientKeyId + PutBytes(e.encapsulatedKey, PutBytes(e.wrappedDek, tail))))
  }

  function PutEnvelopes(es: seq<RecipientEnvelope>, tail: seq<u8>): seq<u8> {
    if es == [] then tail else PutEnvelope(es[0], PutEnvelopes(es[1..], tail))
  }

  function PutIndex(x: BlindIndex, tail: seq<u8>): seq<u8> {
    PutBytes(x.indexLabel, PutNum(x.schemaVersion, 4, PutBytes(x.canonicalizerId,
      PutNum(x.canonicalizerVersion, 2, PutNum(x.keyEpoch, 8, x.token + tail)))))
  }

  function PutIndexes(xs: seq<BlindIndex>, tail: seq<u8>): seq<u8> {
    if xs == [] then tail else PutIndex(xs[0], PutIndexes(xs[1..], tail))
  }

  /** From the manifest revision to the ciphertext. */
  function PutBody(r: SealedRecord, tail: seq<u8>): seq<u8> {
    PutNum(r.manifestRevision, 8, r.previousManifestHash
           + (r.keyCommitment + PutBytes(r.nonce, PutBytes(r.ciphertext, tail))))
  }

  /** The two counted lists and the signer. */
  function PutLists(r: SealedRecord, tail: seq<u8>): seq<u8> {
    PutNum(|r.recipients|, 8,
           PutEnvelopes(r.recipients, PutNum(|r.indexes|, 8, PutIndexes(r.indexes, r.signerPublicKey + tail))))
  }

  /** Everything the signature covers. */
  function PutSigned(r: SealedRecord, tail: seq<u8>): seq<u8> {
    PutBytes(SIGNATURE_DOMAIN, PutNum(r.formatVersion, 2, PutNum(r.suite.Code(), 1,
      PutBytes(ContextBytes(r.context), PutBody(r, PutLists(r, tail))))))
  }

  function SigningBytes(r: SealedRecord): seq<u8> {
    PutSigned(r, [])
  }

  function Encode(r: SealedRecord): seq<u8> {
    PutSigned(r, PutBytes(r.signature, []))
  }

  /** What the manifest hash is taken of. */
  function ManifestInput(r: SealedRecord): seq<u8> {
    MANIFEST_DOMAIN + SigningBytes(r) + r.signature
  }

  // ---------------------------------------------------------------------------
  // Printing by appending
  // ---------------------------------------------------------------------------

  lemma BytesAppend(b: seq<u8>, tail: seq<u8>)
    ensures PutBytes(b, tail) == PutBytes(b, []) + tail
  {
    hide BeBytes;
    assert b + [] == b;
  }

  /** What follows a number may be appended later. */
  lemma NumAppends(n: nat, k: nat, mid: seq<u8>, tail: seq<u8>)
    ensures PutNum(n, k, mid + tail) == PutNum(n, k, mid) + tail
    ensures PutNum(n, k, [] + tail) == PutNum(n, k, tail)
  {
    hide BeBytes;
    assert [] + tail == tail;
  }

  lemma BytesAppends(b: seq<u8>, mid: seq<u8>, tail: seq<u8>)
    ensures PutBytes(b, mid + tail) == PutBytes(b, mid) + tail
  {
    hide BeBytes;
    assert b + (mid + tail) == (b + mid) + tail;
  }

  lemma EnvelopeAppend(e: RecipientEnvelope, mid: seq<u8>, tail: seq<u8>)
    ensures PutEnvelope(e, mid + tail) == PutEnvelope(e, mid) + tail
  {
    hide PutNum, PutBytes;
    BytesAppends(e.wrappedDek, mid, tail);
    var t1 := PutBytes(e.wrappedDek, mid);
    BytesAppends(e.encapsulatedKey, t1, tail);
    var t2 := PutBytes(e.encapsulatedKey, t1);
    assert e.recipientKeyId + (t2 + tail) == (e.recipientKeyId + t2) + tail;
    NumAppends(e.keyEpoch, 8, e.recipientKeyId + t2, tail);
    BytesAppends(e.recipientId, PutNum(e.keyEpoch, 8, e.recipientKeyId + t2), tail);
  }

  lemma {:induction false} EnvelopesAppend(es: seq<RecipientEnvelope>, mid: seq<u8>, tail: seq<u8>)
    ensures PutEnvelopes(es, mid + tail) == PutEnvelopes(es, mid) + tail
  {
    hide PutEnvelope;
    if es != [] {
      EnvelopesAppend(es[1..], mid, tail);
      EnvelopeAppend(es[0], PutEnvelopes(es[1..], mid), tail);
    }
  }

  lemma IndexAppend(x: BlindIndex, mid: seq<u8>, tail: seq<u8>)
    ensures PutIndex(x, mid + tail) == PutIndex(x, mid) + tail
  {
    hide PutNum, PutBytes;
    assert x.token + (mid + tail) == (x.token + mid) + tail;
    var t1 := x.token + mid;
    NumAppends(x.keyEpoch, 8, t1, tail);
    var t2 := PutNum(x.keyEpoch, 8, t1);
    NumAppends(x.canonicalizerVersion, 2, t2, tail);
    var t3 := PutNum(x.canonicalizerVersion, 2, t2);
    BytesAppends(x.canonicalizerId, t3, tail);
    var t4 := PutBytes(x.canonicalizerId, t3);
    NumAppends(x.schemaVersion, 4, t4, tail);
    BytesAppends(x.indexLabel, PutNum(x.schemaVersion, 4, t4), tail);
  }

  lemma {:induction false} IndexesAppend(xs: seq<BlindIndex>, mid: seq<u8>, tail: seq<u8>)
    ensures PutIndexes(xs, mid + tail) == PutIndexes(xs, mid) + tail
  {
    hide PutIndex;
    if xs != [] {
      IndexesAppend(xs[1..], mid, tail);
      IndexAppend(xs[0], PutIndexes(xs[1..], mid), tail);
    }
  }

  lemma BodyAppend(r: SealedRecord, mid: seq<u8>, tail: seq<u8>)
    ensures PutBody(r, mid + tail) == PutBody(r, mid) + tail
  {
    hide PutNum, PutBytes;
    BytesAppends(r.ciphertext, mid, tail);
    var t1 := PutBytes(r.ciphertext, mid);
    BytesAppends(r.nonce, t1, tail);
    var t2 := PutBytes(r.nonce, t1);
    assert r.keyCommitment + (t2 + tail) == (r.keyCommitment + t2) + tail;
    var t3 := r.keyCommitment + t2;
    assert r.previousManifestHash + (t3 + tail) == (r.previousManifestHash + t3) + tail;
    NumAppends(r.manifestRevision, 8, r.previousManifestHash + t3, tail);
  }

  lemma ListsAppend(r: SealedRecord, mid: seq<u8>, tail: seq<u8>)
    ensures PutLists(r, mid + tail) == PutLists(r, mid) + tail
  {
    hide PutNum, PutEnvelopes, PutIndexes;
    assert r.signerPublicKey + (mid + tail) == (r.signerPublicKey + mid) + tail;
    var t1 := r.signerPublicKey + mid;
    IndexesAppend(r.indexes, t1, tail);
    var t2 := PutIndexes(r.indexes, t1);
    NumAppends(|r.indexes|, 8, t2, tail);
    var t3 := PutNum(|r.indexes|, 8, t2);
    EnvelopesAppend(r.recipients, t3, tail);
    NumAppends(|r.recipients|, 8, PutEnvelopes(r.recipients, t3), tail);
  }

  lemma SignedAppend(r: SealedRecord, tail: seq<u8>)
    ensures PutSigned(r, tail) == SigningBytes(r) + tail
  {
    hide PutNum, PutBytes, PutBody, PutLists, PutContext, SIGNATURE_DOMAIN;
    assert [] + tail == tail;
    ListsAppend(r, [], tail);
    var t1 := PutLists(r, []);
    BodyAppend(r, t1, tail);
    var t2 := PutBody(r, t1);
    BytesAppends(ContextBytes(r.context), t2, tail);
    var t3 := PutBytes(ContextBytes(r.context), t2);
    NumAppends(r.suite.Code(), 1, t3, tail);
    var t4 := PutNum(r.suite.Code(), 1, t3);
    NumAppends(r.formatVersion, 2, t4, tail);
    BytesAppends(SIGNATURE_DOMAIN, PutNum(r.formatVersion, 2, t4), tail);
  }

  // ---------------------------------------------------------------------------
  // The code: a growing buffer
  // ---------------------------------------------------------------------------

  /** `push_len` and `push_bytes`. */
  method PushLen(out: seq<u8>, len: nat) returns (r: seq<u8>)
    requires len < 0x1_0000_0000_0000_0000
    ensures r == out + PutNum(len, 8, [])
  {
    r := out + BeBytes(len, 8);
  }

  method PushBytes(out: seq<u8>, bytes: seq<u8>) returns (r: seq<u8>)
    requires |bytes| < 0x1_0000_0000_0000_0000
    ensures r == out + PutBytes(bytes, [])
  {
    hide BeBytes;
    r := PushLen(out, |bytes|);
    r := r + bytes;
  }

  method CanonicalBytes(c: RecordContext) returns (out: seq<u8>)
    ensures out == ContextBytes(c)
  {
    hide *;
    DomainLengths();
    out := PushBytes([], CONTEXT_DOMAIN);
    out := PushBytes(out, c.tenant);
    out := PushBytes(out, c.objectId);
    out := PushBytes(out, c.field);
    out := out + BeBytes(c.epoch, 8);
    out := out + BeBytes(c.version, 8);
    out := out + BeBytes(c.schemaVersion, 4);
    ContextFlat(c);
  }

  lemma ContextFlat(c: RecordContext)
    ensures ContextBytes(c) == [] + PutBytes(CONTEXT_DOMAIN, []) + PutBytes(c.tenant, []) + PutBytes(c.objectId, [])
                               + PutBytes(c.field, []) + BeBytes(c.epoch, 8) + BeBytes(c.version, 8)
                                   + BeBytes(c.schemaVersion, 4)
  {
    hide BeBytes, CONTEXT_DOMAIN, PutBytes;
    var t1 := BeBytes(c.epoch, 8) + (BeBytes(c.version, 8) + (BeBytes(c.schemaVersion, 4) + []));
    BytesAppend(c.field, t1);
    var t2 := PutBytes(c.field, t1);
    BytesAppend(c.objectId, t2);
    var t3 := PutBytes(c.objectId, t2);
    BytesAppend(c.tenant, t3);
    BytesAppend(CONTEXT_DOMAIN, PutBytes(c.tenant, t3));
  }

  lemma EnvelopeFlat(e: RecipientEnvelope)
    ensures PutEnvelope(e, []) == PutBytes(e.recipientId, []) + BeBytes(e.keyEpoch, 8) + e.recipientKeyId
                                  + PutBytes(e.encapsulatedKey, []) + PutBytes(e.wrappedDek, [])
  {
    hide BeBytes, PutBytes;
    var t1 := PutBytes(e.wrappedDek, []);
    BytesAppend(e.encapsulatedKey, t1);
    BytesAppend(e.recipientId, BeBytes(e.keyEpoch, 8) + (e.recipientKeyId + PutBytes(e.encapsulatedKey, t1)));
  }

  lemma IndexFlat(x: BlindIndex)
    ensures PutIndex(x, []) == PutBytes(x.indexLabel, []) + BeBytes(x.schemaVersion, 4)
        + PutBytes(x.canonicalizerId, [])
                               + BeBytes(x.canonicalizerVersion, 2) + BeBytes(x.keyEpoch, 8) + x.token
  {
    hide BeBytes, PutBytes;
    var t1 := BeBytes(x.canonicalizerVersion, 2) + (BeBytes(x.keyEpoch, 8) + (x.token + []));
    BytesAppend(x.canonicalizerId, t1);
    BytesAppend(x.indexLabel, BeBytes(x.schemaVersion, 4) + PutBytes(x.canonicalizerId, t1));
  }

  /** One more element at the end of a list. */
  lemma {:induction false} EnvelopesSnoc(es: seq<RecipientEnvelope>, n: nat)
    requires n < |es|
    ensures PutEnvelopes(es[..n + 1], []) == PutEnvelopes(es[..n], []) + PutEnvelope(es[n], [])
    decreases n
  {
    hide PutEnvelope;
    if n == 0 {
      assert es[..1][1..] == [];
    } else {
      var t := es[1..];
      EnvelopesSnoc(t, n - 1);
      assert es[..n + 1][1..] == t[..n] && es[..n][1..] == t[..n - 1] && t[n - 1] == es[n];
      EnvelopeAppend(es[0], PutEnvelopes(t[..n - 1], []), PutEnvelope(es[n], []));
    }
  }

  lemma {:induction false} IndexesSnoc(xs: seq<BlindIndex>, n: nat)
    requires n < |xs|
    ensures PutIndexes(xs[..n + 1], []) == PutIndexes(xs[..n], []) + PutIndex(xs[n], [])
    decreases n
  {
    hide PutIndex;
    if n == 0 {
      assert xs[..1][1..] == [];
    } else {
      var t := xs[1..];
      IndexesSnoc(t, n - 1);
      assert xs[..n + 1][1..] == t[..n] && xs[..n][1..] == t[..n - 1] && t[n - 1] == xs[n];
      IndexAppend(xs[0], PutIndexes(t[..n - 1], []), PutIndex(xs[n], []));
    }
  }

  lemma EmptyLists(es: seq<RecipientEnvelope>, xs: seq<BlindIndex>)
    ensures PutEnvelopes(es[..0], []) == [] && PutIndexes(xs[..0], []) == []
  {
  }

  /** The record fits the machine: its list lengths and its context encoding's length are `usize` values. */
  predicate Fits(r: SealedRecord) {
    && |r.recipients| < 0x1_0000_0000_0000_0000 && |r.indexes| < 0x1_0000_0000_0000_0000
    && |ContextBytes(r.context)| < 0x1_0000_0000_0000_0000
  }

  lemma FitsLengths(r: SealedRecord)
    requires Fits(r)
    ensures |r.recipients| < 0x1_0000_0000_0000_0000 && |r.indexes| < 0x1_0000_0000_0000_0000
    ensures |ContextBytes(r.context)| < 0x1_0000_0000_0000_0000
  {
  }

  /** Canonical bytes signed by the record author. */
  method PushSigned(r: SealedRecord) returns (out: seq<u8>)
    requires Fits(r)
    ensures out == SigningBytes(r)
  {
    hide *;
    DomainLengths();
    FitsLengths(r);
    out := PushBytes([], SIGNATURE_DOMAIN);
    out := out + BeBytes(r.formatVersion, 2);
    out := out + [r.suite.Code()];
    var context := CanonicalBytes(r.context);
    out := PushBytes(out, context);
    ghost var front := out;
    out := out + BeBytes(r.manifestRevision, 8);
    out := out + r.previousManifestHash;
    out := out + r.keyCommitment;
    out := PushBytes(out, r.nonce);
    out := PushBytes(out, r.ciphertext);
    BodyFlat(r, front);
    ghost var body := out;
    out := PushLen(out, |r.recipients|);
    EmptyLists(r.recipients, r.indexes);
    ghost var head := out;
    assert head + [] == head;
    for i := 0 to |r.recipients|
      invariant out == head + PutEnvelopes(r.recipients[..i], [])
    {
      var envelope := r.recipients[i];
      out := PushBytes(out, envelope.recipientId);
      out := out + BeBytes(envelope.keyEpoch, 8);
      out := out + envelope.recipientKeyId;
      out := PushBytes(out, envelope.encapsulatedKey);
      out := PushBytes(out, envelope.wrappedDek);
      EnvelopeFlat(envelope);
      EnvelopesSnoc(r.recipients, i);
    }
    assert r.recipients[..|r.recipients|] == r.recipients;
    out := PushLen(out, |r.indexes|);
    ghost var middle := out;
    assert middle + [] == middle;
    for i := 0 to |r.indexes|
      invariant out == middle + PutIndexes(r.indexes[..i], [])
    {
      var index := r.indexes[i];
      out := PushBytes(out, index.indexLabel);
      out := out + BeBytes(index.schemaVersion, 4);
      out := PushBytes(out, index.canonicalizerId);
      out := out + BeBytes(index.canonicalizerVersion, 2);
      out := out + BeBytes(index.keyEpoch, 8);
      out := out + index.token;
      IndexFlat(index);
      IndexesSnoc(r.indexes, i);
    }
    assert r.indexes[..|r.indexes|] == r.indexes;
    out := out + r.signerPublicKey;
    ListsFlat(r, body);
    SignedFlat(r, front);
  }

  lemma OneByteNum(b: u8)
    ensures BeBytes(b, 1) == [b]
  {
    assert BeBytes(b, 1) == BeBytes(b / 0x100, 0) + [b % 0x100];
  }

  lemma BodyFlat(r: SealedRecord, front: seq<u8>)
    ensures front + PutBody(r, []) == front + BeBytes(r.manifestRevision, 8) + r.previousManifestHash + r.keyCommitment
                                      + PutBytes(r.nonce, []) + PutBytes(r.ciphertext, [])
  {
    hide BeBytes, PutBytes;
    BytesAppend(r.nonce, PutBytes(r.ciphertext, []));
  }

  lemma ListsFlat(r: SealedRecord, body: seq<u8>)
    ensures body + PutLists(r, []) == body + PutNum(|r.recipients|, 8, []) + PutEnvelopes(r.recipients, [])
                                      + PutNum(|r.indexes|, 8, []) + PutIndexes(r.indexes, []) + r.signerPublicKey
  {
    hide BeBytes, PutEnvelopes, PutIndexes;
    var t1 := r.signerPublicKey + [];
    assert [] + t1 == t1;
    IndexesAppend(r.indexes, [], t1);
    var t2 := PutNum(|r.indexes|, 8, PutIndexes(r.indexes, t1));
    assert [] + t2 == t2;
    EnvelopesAppend(r.recipients, [], t2);
  }

  lemma SignedFlat(r: SealedRecord, front: seq<u8>)
    requires front == [] + PutBytes(SIGNATURE_DOMAIN, []) + BeBytes(r.formatVersion, 2) + [r.suite.Code()]
                      + PutBytes(ContextBytes(r.context), [])
    ensures SigningBytes(r) == front + PutBody(r, []) + PutLists(r, [])
  {
    hide BeBytes, PutBytes, ContextBytes, SIGNATURE_DOMAIN, PutBody, PutLists;
    OneByteNum(r.suite.Code());
    var lists := PutLists(r, []);
    assert [] + lists == lists;
    BodyAppend(r, [], lists);
    var body := PutBody(r, lists);
    BytesAppend(ContextBytes(r.context), body);
    BytesAppend(SIGNATURE_DOMAIN,
                PutNum(r.formatVersion, 2, PutNum(r.suite.Code(), 1, PutBytes(ContextBytes(r.context), body))));
  }

  // ---------------------------------------------------------------------------
  // The layout, field by field
  // ---------------------------------------------------------------------------

  /** A byte string is announced by its length as eight big-endian bytes. */
  lemma PrefixIs(b: seq<u8>)
    ensures PutBytes(b, []) == BeBytes(|b|, 8) + b
  {
    assert b + [] == b;
  }

  /** The three domains, letter by letter. */
  lemma DomainText()
    ensures |CONTEXT_DOMAIN| == 21 && forall i :: 0 <= i < 21 ==> CONTEXT_DOMAIN[i] == "blindplane/context/v1"[i] as int
    ensures |SIGNATURE_DOMAIN| == 30
    ensures forall i :: 0 <= i < 30 ==> SIGNATURE_DOMAIN[i] == "blindplane/record-signature/v1"[i] as int
    ensures |MANIFEST_DOMAIN| == 27
    ensures forall i :: 0 <= i < 27 ==> MANIFEST_DOMAIN[i] == "blindplane/manifest-hash/v1"[i] as int
  {
  }

  /** The signed bytes, the encoding and the hashed string, in their order. */
  lemma RecordLayout(r: SealedRecord)
    ensures SigningBytes(r)
         == PutBytes(SIGNATURE_DOMAIN, []) + BeBytes(r.formatVersion, 2)
            + [if r.suite == Aes256Gcm then 1 else if r.suite == XChaCha20Poly1305 then 2 else 3]
            + PutBytes(ContextBytes(r.context), [])
            + BeBytes(r.manifestRevision, 8) + r.previousManifestHash + r.keyCommitment
            + PutBytes(r.nonce, []) + PutBytes(r.ciphertext, [])
            + BeBytes(|r.recipients|, 8) + PutEnvelopes(r.recipients, [])
            + BeBytes(|r.indexes|, 8) + PutIndexes(r.indexes, []) + r.signerPublicKey
    ensures Encode(r) == SigningBytes(r) + PutBytes(r.signature, [])
    ensures ManifestInput(r) == MANIFEST_DOMAIN + SigningBytes(r) + r.signature
  {
    hide BeBytes, PutBytes, ContextBytes, SIGNATURE_DOMAIN, MANIFEST_DOMAIN, PutBody, PutLists, PutEnvelopes,
      PutIndexes,
      PutSigned;
    var front := [] + PutBytes(SIGNATURE_DOMAIN, []) + BeBytes(r.formatVersion, 2) + [r.suite.Code()]
        + PutBytes(ContextBytes(r.context), []);
    SignedFlat(r, front);
    BodyFlat(r, front);
    ListsFlat(r, front + PutBody(r, []));
    SignedAppend(r, PutBytes(r.signature, []));
  }

  /** The recipients are held one after the other. */
  lemma EnvelopesLayout(es: seq<RecipientEnvelope>, e: RecipientEnvelope)
    ensures PutEnvelopes([], []) == []
    ensures PutEnvelopes(es + [e], []) == PutEnvelopes(es, []) + PutBytes(e.recipientId, []) + BeBytes(e.keyEpoch, 8)
        + e.recipientKeyId + PutBytes(e.encapsulatedKey, []) + PutBytes(e.wrappedDek, [])
  {
    hide BeBytes, PutBytes, PutEnvelope;
    var all, front := es + [e], PutEnvelopes(es, []);
    EnvelopesSnoc(all, |es|);
    assert all[..|es| + 1] == all && all[..|es|] == es;
    EnvelopeFlat(e);
  }

  /** And so are the indexes. */
  lemma IndexesLayout(xs: seq<BlindIndex>, x: BlindIndex)
    ensures PutIndexes([], []) == []
    ensures PutIndexes(xs + [x], []) == PutIndexes(xs, []) + PutBytes(x.indexLabel, []) + BeBytes(x.schemaVersion, 4)
        + PutBytes(x.canonicalizerId, []) + BeBytes(x.canonicalizerVersion, 2) + BeBytes(x.keyEpoch, 8) + x.token
  {
    hide BeBytes, PutBytes, PutIndex;
    var all := xs + [x];
    IndexesSnoc(all, |xs|);
    assert all[..|xs| + 1] == all && all[..|xs|] == xs;
    IndexFlat(x);
  }

  /** Serialize to the canonical encoding. */
  method EncodeRecord(r: SealedRecord) returns (out: seq<u8>)
    requires Fits(r)
    ensures out == Encode(r)
  {
    hide SigningBytes, PutSigned, PutBytes;
    out := PushSigned(r);
    out := PushBytes(out, r.signature);
    SignedAppend(r, PutBytes(r.signature, []));
  }

  // ---------------------------------------------------------------------------
  // Unambiguity
  // ---------------------------------------------------------------------------

  /** Numbers of one width are told apart by their bytes, whatever follows. */
  lemma NumInjective(m: nat, n: nat, k: nat, s: seq<u8>, t: seq<u8>)
    requires m < BytePow(k) && n < BytePow(k) && PutNum(m, k, s) == PutNum(n, k, t)
    ensures m == n && s == t
  {
    hide BeBytes, BytePow;
    assert PutNum(m, k, s)[..k] == BeBytes(m, k) && PutNum(n, k, t)[..k] == BeBytes(n, k);
    assert PutNum(m, k, s)[k..] == s && PutNum(n, k, t)[k..] == t;
    BeValOfBytes(m, k);
    BeValOfBytes(n, k);
  }

  lemma Widths()
    ensures BytePow(1) == 0x100 && BytePow(2) == 0x1_0000 && BytePow(4) == 0x1_0000_0000
    ensures BytePow(8) == 0x1_0000_0000_0000_0000
  {
  }

  lemma BytesInjective(a: seq<u8>, b: seq<u8>, s: seq<u8>, t: seq<u8>)
    requires |a| < 0x1_0000_0000_0000_0000 && |b| < 0x1_0000_0000_0000_0000 && PutBytes(a, s) == PutBytes(b, t)
    ensures a == b && s == t
  {
    hide PutNum, BytePow;
    Widths();
    NumInjective(|a|, |b|, 8, a + s, b + t);
    FixedInjective(a, b, s, t);
  }

  lemma FixedInjective(a: seq<u8>, b: seq<u8>, s: seq<u8>, t: seq<u8>)
    requires |a| == |b| && a + s == b + t
    ensures a == b && s == t
  {
    assert (a + s)[..|a|] == a && (b + t)[..|a|] == b && (a + s)[|a|..] == s && (b + t)[|a|..] == t;
  }

  lemma ContextInjective(c: RecordContext, d: RecordContext, s: seq<u8>, t: seq<u8>)
    requires PutContext(c, s) == PutContext(d, t)
    ensures c == d && s == t
  {
    hide PutNum, PutBytes, BytePow, CONTEXT_DOMAIN;
    Widths();
    DomainLengths();
    var c0 := PutNum(c.schemaVersion, 4, s);
    var d0 := PutNum(d.schemaVersion, 4, t);
    var c1, d1 := PutNum(c.version, 8, c0), PutNum(d.version, 8, d0);
    var c2, d2 := PutNum(c.epoch, 8, c1), PutNum(d.epoch, 8, d1);
    var c3, d3 := PutBytes(c.field, c2), PutBytes(d.field, d2);
    var c4, d4 := PutBytes(c.objectId, c3), PutBytes(d.objectId, d3);
    BytesInjective(CONTEXT_DOMAIN, CONTEXT_DOMAIN, PutBytes(c.tenant, c4), PutBytes(d.tenant, d4));
    BytesInjective(c.tenant, d.tenant, c4, d4);
    BytesInjective(c.objectId, d.objectId, c3, d3);
    BytesInjective(c.field, d.field, c2, d2);
    NumInjective(c.epoch, d.epoch, 8, c1, d1);
    NumInjective(c.version, d.version, 8, c0, d0);
    NumInjective(c.schemaVersion, d.schemaVersion, 4, s, t);
  }

  lemma EnvelopeInjective(e: RecipientEnvelope, f: RecipientEnvelope, s: seq<u8>, t: seq<u8>)
    requires PutEnvelope(e, s) == PutEnvelope(f, t)
    ensures e == f && s == t
  {
    hide PutNum, PutBytes, BytePow;
    Widths();
    var e0, f0 := PutBytes(e.wrappedDek, s), PutBytes(f.wrappedDek, t);
    var e1, f1 := PutBytes(e.encapsulatedKey, e0), PutBytes(f.encapsulatedKey, f0);
    BytesInjective(e.recipientId, f.recipientId, PutNum(e.keyEpoch, 8, e.recipientKeyId + e1),
                   PutNum(f.keyEpoch, 8, f.recipientKeyId + f1));
    NumInjective(e.keyEpoch, f.keyEpoch, 8, e.recipientKeyId + e1, f.recipientKeyId + f1);
    FixedInjective(e.recipientKeyId, f.recipientKeyId, e1, f1);
    BytesInjective(e.encapsulatedKey, f.encapsulatedKey, e0, f0);
    BytesInjective(e.wrappedDek, f.wrappedDek, s, t);
  }

  lemma IndexInjective(x: BlindIndex, y: BlindIndex, s: seq<u8>, t: seq<u8>)
    requires PutIndex(x, s) == PutIndex(y, t)
    ensures x == y && s == t
  {
    hide PutNum, PutBytes, BytePow;
    Widths();
    var x1, y1 := PutNum(x.keyEpoch, 8, x.token + s), PutNum(y.keyEpoch, 8, y.token + t);
    var x2, y2 := PutNum(x.canonicalizerVersion, 2, x1), PutNum(y.canonicalizerVersion, 2, y1);
    var x3, y3 := PutBytes(x.canonicalizerId, x2), PutBytes(y.canonicalizerId, y2);
    BytesInjective(x.indexLabel, y.indexLabel, PutNum(x.schemaVersion, 4, x3), PutNum(y.schemaVersion, 4, y3));
    NumInjective(x.schemaVersion, y.schemaVersion, 4, x3, y3);
    BytesInjective(x.canonicalizerId, y.canonicalizerId, x2, y2);
    NumInjective(x.canonicalizerVersion, y.canonicalizerVersion, 2, x1, y1);
    NumInjective(x.keyEpoch, y.keyEpoch, 8, x.token + s, y.token + t);
    FixedInjective(x.token, y.token, s, t);
  }

  lemma {:induction false} EnvelopesInjective(es: seq<RecipientEnvelope>, fs: seq<RecipientEnvelope>, s: seq<u8>,
                                              t: seq<u8>)
    requires |es| == |fs| && PutEnvelopes(es, s) == PutEnvelopes(fs, t)
    ensures es == fs && s == t
  {
    hide PutEnvelope;
    if es != [] {
      EnvelopeInjective(es[0], fs[0], PutEnvelopes(es[1..], s), PutEnvelopes(fs[1..], t));
      EnvelopesInjective(es[1..], fs[1..], s, t);
      assert es == [es[0]] + es[1..] && fs == [fs[0]] + fs[1..];
    }
  }

  lemma {:induction false} IndexesInjective(xs: seq<BlindIndex>, ys: seq<BlindIndex>, s: seq<u8>, t: seq<u8>)
    requires |xs| == |ys| && PutIndexes(xs, s) == PutIndexes(ys, t)
    ensures xs == ys && s == t
  {
    hide PutIndex;
    if xs != [] {
      IndexInjective(xs[0], ys[0], PutIndexes(xs[1..], s), PutIndexes(ys[1..], t));
      IndexesInjective(xs[1..], ys[1..], s, t);
      assert xs == [xs[0]] + xs[1..] && ys == [ys[0]] + ys[1..];
    }
  }

  lemma BodyInjective(q: SealedRecord, r: SealedRecord, s: seq<u8>, t: seq<u8>)
    requires PutBody(q, s) == PutBody(r, t)
    ensures q.manifestRevision == r.manifestRevision && q.previousManifestHash == r.previousManifestHash
    ensures q.keyCommitment == r.keyCommitment && q.nonce == r.nonce && q.ciphertext == r.ciphertext && s == t
  {
    hide PutNum, PutBytes, BytePow;
    Widths();
    var q0, r0 := PutBytes(q.ciphertext, s), PutBytes(r.ciphertext, t);
    var q1, r1 := PutBytes(q.nonce, q0), PutBytes(r.nonce, r0);
    NumInjective(q.manifestRevision, r.manifestRevision, 8, q.previousManifestHash + (q.keyCommitment + q1),
                 r.previousManifestHash + (r.keyCommitment + r1));
    FixedInjective(q.previousManifestHash, r.previousManifestHash, q.keyCommitment + q1, r.keyCommitment + r1);
    FixedInjective(q.keyCommitment, r.keyCommitment, q1, r1);
    BytesInjective(q.nonce, r.nonce, q0, r0);
    BytesInjective(q.ciphertext, r.ciphertext, s, t);
  }

  lemma ListsInjective(q: SealedRecord, r: SealedRecord, s: seq<u8>, t: seq<u8>)
    requires |q.recipients| < 0x1_0000_0000_0000_0000 && |r.recipients| < 0x1_0000_0000_0000_0000
    requires |q.indexes| < 0x1_0000_0000_0000_0000 && |r.indexes| < 0x1_0000_0000_0000_0000
    requires PutLists(q, s) == PutLists(r, t)
    ensures q.recipients == r.recipients && q.indexes == r.indexes && q.signerPublicKey == r.signerPublicKey && s == t
  {
    hide PutNum, PutEnvelopes, PutIndexes, BytePow;
    Widths();
    var q0, r0 := PutIndexes(q.indexes, q.signerPublicKey + s), PutIndexes(r.indexes, r.signerPublicKey + t);
    var q1, r1 := PutNum(|q.indexes|, 8, q0), PutNum(|r.indexes|, 8, r0);
    NumInjective(|q.recipients|, |r.recipients|, 8, PutEnvelopes(q.recipients, q1), PutEnvelopes(r.recipients, r1));
    EnvelopesInjective(q.recipients, r.recipients, q1, r1);
    NumInjective(|q.indexes|, |r.indexes|, 8, q0, r0);
    IndexesInjective(q.indexes, r.indexes, q.signerPublicKey + s, r.signerPublicKey + t);
    FixedInjective(q.signerPublicKey, r.signerPublicKey, s, t);
  }

  lemma CodeInjective(q: Suite, r: Suite)
    requires q.Code() == r.Code()
    ensures q == r
  {
  }

  /** The signed bytes determine every field but the signature, whatever follows them. */
  lemma SignedInjective(q: SealedRecord, r: SealedRecord, s: seq<u8>, t: seq<u8>)
    requires Fits(q) && Fits(r) && PutSigned(q, s) == PutSigned(r, t)
    ensures q.(signature := r.signature) == r && s == t
  {
    hide PutNum, PutBytes, PutBody, PutLists, PutContext, BytePow, SIGNATURE_DOMAIN;
    Widths();
    DomainLengths();
    var q0, r0 := PutBody(q, PutLists(q, s)), PutBody(r, PutLists(r, t));
    var q1, r1 := PutBytes(ContextBytes(q.context), q0), PutBytes(ContextBytes(r.context), r0);
    var q2, r2 := PutNum(q.suite.Code(), 1, q1), PutNum(r.suite.Code(), 1, r1);
    BytesInjective(SIGNATURE_DOMAIN, SIGNATURE_DOMAIN, PutNum(q.formatVersion, 2, q2), PutNum(r.formatVersion, 2, r2));
    NumInjective(q.formatVersion, r.formatVersion, 2, q2, r2);
    NumInjective(q.suite.Code(), r.suite.Code(), 1, q1, r1);
    CodeInjective(q.suite, r.suite);
    BytesInjective(ContextBytes(q.context), ContextBytes(r.context), q0, r0);
    ContextInjective(q.context, r.context, [], []);
    BodyInjective(q, r, PutLists(q, s), PutLists(r, t));
    ListsInjective(q, r, s, t);
  }

  /** No record's signed bytes are a prefix of another's. */
  lemma SigningBytesPrefixFree(q: SealedRecord, r: SealedRecord)
    requires Fits(q) && Fits(r) && SigningBytes(q) <= SigningBytes(r)
    ensures q.(signature := r.signature) == r
  {
    hide SigningBytes, PutSigned, Fits;
    var rest := SigningBytes(r)[|SigningBytes(q)|..];
    SignedAppend(q, rest);
    SigningIs(r);
    SignedInjective(q, r, rest, []);
  }

  lemma SigningIs(r: SealedRecord)
    ensures SigningBytes(r) == PutSigned(r, [])
  {
    hide PutSigned;
  }

  /** The hashed manifest determines the record, signature included, although the signature has no length prefix. */
  lemma ManifestInputInjective(q: SealedRecord, r: SealedRecord)
    requires Fits(q) && Fits(r) && ManifestInput(q) == ManifestInput(r)
    ensures q == r
  {
    hide SigningBytes, PutSigned, Fits, MANIFEST_DOMAIN;
    var d := |MANIFEST_DOMAIN|;
    assert ManifestInput(q)[d..] == SigningBytes(q) + q.signature
        && ManifestInput(r)[d..] == SigningBytes(r) + r.signature;
    SignedAppend(q, q.signature);
    SignedAppend(r, r.signature);
    SignedInjective(q, r, q.signature, r.signature);
  }
}
