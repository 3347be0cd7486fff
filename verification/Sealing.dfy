/** Sealing, granting and rekeying as steps of a signed chain (core/sealing.rs, and the checks of derive.rs). */
module Sealing {
  // Randomness, payload encryption, envelope wrapping and key fingerprints are parameters.

  import opened Bytes
  import opened WireTypes
  import opened WireEncode
  import opened WireRecord
  import opened WireHead
  import opened Sorting
  import RelayStore

  type Signature = s: seq<u8> | |s| == 64 witness seq(64, _ => 0)

  datatype CryptoError =
    | Randomness
    | InvalidKeyIdentity
    | NoRecipients
    | DuplicateRecipient
    | DuplicateIndex
    | InvalidIndexScope
    | InvalidRecordInput
    | PayloadTooLarge
    | KeyDerivation
    | HpkeSeal
    | HpkeOpen
    | PayloadSeal
    | PayloadOpen
    | NoEnvelopeForRecipient
    | InvalidRekeyContext
    | ManifestRevisionOverflow
    | Wire(error: WireError)

  datatype CryptoResult<+T> = Done(value: T) | Failed(error: CryptoError) {
    predicate IsFailure() {
      Failed?
    }

    function PropagateFailure<U>(): CryptoResult<U>
      requires Failed?
    {
      Failed(error)
    }

    function Extract(): T
      requires Done?
    {
      value
    }
  }

  datatype Recipient = Recipient(recipientId: Text, keyEpoch: U64, recipientKeyId: Bytes32, publicKey: Bytes32)

  datatype RecipientKeypair = RecipientKeypair(recipient: Recipient, secret: Bytes32)

  datatype Author = Author(publicKey: Bytes32, sign: seq<u8> -> Signature)

  /** What one sealing draws from the operating system. */
  datatype Draw = Draw(objectSecret: Bytes32, entropy: seq<u8>)

  datatype Payload = Payload(keyCommitment: Bytes32, nonce: Vec, ciphertext: Vec)

  /** The encapsulated key and the wrapped data key. */
  datatype Wrapped = Wrapped(encapsulatedKey: Vec, wrappedDek: Vec)

  /** The primitives a client calls, and whether it verifies its own signatures. */
  datatype Client = Client(
    wire: Crypto,
    faultResistant: bool,
    keyId: Bytes32 -> Bytes32,
    encrypt: (Draw, Suite, RecordContext, seq<u8>) -> CryptoResult<Payload>,
    openValidated: (SealedRecord, RecipientKeypair) -> CryptoResult<seq<u8>>,
    wrap: (Recipient, Bytes32, RecordContext) -> CryptoResult<Wrapped>,
    unwrap: (RecipientEnvelope, RecipientKeypair, RecordContext) -> CryptoResult<Bytes32>)

  /** The default limits, pinning one signer. */
  function PolicyFor(signer: Bytes32): ValidationPolicy {
    ValidationPolicy(8388608, 256, 32, 255, {signer})
  }

  // ---------------------------------------------------------------------------
  // Signing and checking one's own record
  // ---------------------------------------------------------------------------

  function SignRecord(author: Author, r: SealedRecord): SealedRecord {
    var signed := r.(signerPublicKey := author.publicKey);
    signed.(signature := author.sign(SigningBytes(signed)))
  }

  /** Shape and pin always, the signature only when the client asks for it. */
  function ValidateOwn(client: Client, r: SealedRecord, p: ValidationPolicy): CryptoResult<()> {
    if client.faultResistant then
      match Validate(client.wire, r, p)
      case Ok(_) => Done(())
      case Err(e) => Failed(Wire(e))
    else
      match ValidateLimits(r, p)
      case Err(e) => Failed(Wire(e))
      case Ok(_) =>
        if p.allowedSigners == {} then Failed(Wire(NoTrustedSigners))
        else if r.signerPublicKey !in p.allowedSigners then Failed(Wire(UntrustedSigner))
        else Done(())
  }

  /** What the author signs verifies. */
  ghost predicate Signs(client: Client, author: Author) {
    forall m {:trigger author.sign(m)} :: client.wire.verify(author.publicKey, m, author.sign(m))
  }

  /** The primitives return strings of the lengths their algorithms fix. */
  ghost predicate Lengths(client: Client) {
    && (forall d, s, c, m {:trigger client.encrypt(d, s, c, m)} :: client.encrypt(d, s, c, m).Done? ==>
          var e := client.encrypt(d, s, c, m).value;
          |e.nonce| == s.NonceLen() && |e.ciphertext| == |m| + TAG_LEN)
    && (forall r, k, c {:trigger client.wrap(r, k, c)} :: client.wrap(r, k, c).Done? ==>
          var w := client.wrap(r, k, c).value;
          |w.encapsulatedKey| == X25519_KEY_LEN && |w.wrappedDek| == WRAPPED_DEK_LEN)
  }

  lemma SigningIgnoresSignature(r: SealedRecord, signature: Vec)
    ensures SigningBytes(r.(signature := signature)) == SigningBytes(r)
  {
    hide PutBytes, PutNum, PutEnvelopes, PutIndexes, PutContext;
  }

  /** For a record the author signed, checking the shape is checking everything. */
  lemma OwnIsValid(client: Client, author: Author, r: SealedRecord)
    requires Signs(client, author)
    ensures ValidateOwn(client, SignRecord(author, r), PolicyFor(author.publicKey)).Done?
       <==> Validate(client.wire, SignRecord(author, r), PolicyFor(author.publicKey)).Ok?
  {
    hide ValidateLimits, SigningBytes, ValidUtf8;
    var signed := r.(signerPublicKey := author.publicKey);
    SigningIgnoresSignature(signed, author.sign(SigningBytes(signed)));
  }

  /** What passes the own check is well formed, and what is well formed and signed passes it. */
  lemma OwnIff(client: Client, author: Author, r: SealedRecord)
    ensures var p := PolicyFor(author.publicKey);
      && (ValidateOwn(client, r, p).Done? ==> WellFormed(r, p))
      && (Signs(client, author) && r == SignRecord(author, r) && WellFormed(r, p) ==> ValidateOwn(client, r, p).Done?)
  {
    hide ValidateLimits, WellFormed, SigningBytes, ValidUtf8;
    var signed := r.(signerPublicKey := author.publicKey);
    SigningIgnoresSignature(signed, author.sign(SigningBytes(signed)));
    LimitsMeaning(r, PolicyFor(author.publicKey));
  }

  /** The limits of every client, and the one signer it trusts. */
  lemma PolicyMeaning(signer: Bytes32)
    ensures PolicyFor(signer).maxCiphertextBytes == 8 * 1024 * 1024 && PolicyFor(signer).maxRecipients == 256
    ensures PolicyFor(signer).maxIndexes == 32 && PolicyFor(signer).maxIdentifierBytes == 255
    ensures PolicyFor(signer).allowedSigners == {signer}
  {
  }

  /** The signature covers the record as it is returned, under the author's key; nothing else changes. */
  lemma SignMeaning(author: Author, r: SealedRecord)
    ensures var signed := SignRecord(author, r);
      && signed.signerPublicKey == author.publicKey && signed.signature == author.sign(SigningBytes(signed))
      && signed == r.(signerPublicKey := signed.signerPublicKey, signature := signed.signature)
  {
    hide SigningBytes;
    var signed := r.(signerPublicKey := author.publicKey);
    SigningIgnoresSignature(signed, author.sign(SigningBytes(signed)));
  }

  /** The check of one's own record: shape and pin, and the signature for a client that asks for it. */
  lemma OwnMeaning(client: Client, r: SealedRecord, signer: Bytes32)
    ensures ValidateOwn(client, r, PolicyFor(signer)).Done?
       <==> && WellFormed(r, PolicyFor(signer)) && r.signerPublicKey == signer
            && (client.faultResistant ==> client.wire.verify(r.signerPublicKey, SigningBytes(r), r.signature))
  {
    hide ValidateLimits, WellFormed, SigningBytes, Validate, ValidUtf8;
    LimitsMeaning(r, PolicyFor(signer));
    ValidMeaning(client.wire, r, PolicyFor(signer));
  }

  // ---------------------------------------------------------------------------
  // Chain links
  // ---------------------------------------------------------------------------

  /** The child is the signed successor of its parent: one revision on, bound to the parent's hash, never older. */
  ghost predicate Links(client: Client, author: Author, parent: SealedRecord, child: SealedRecord) {
    && Validate(client.wire, parent, PolicyFor(author.publicKey)).Ok?
    && Validate(client.wire, child, PolicyFor(author.publicKey)).Ok?
    && RelayStore.KeyOf(child) == RelayStore.KeyOf(parent)
    && child.manifestRevision == parent.manifestRevision + 1
    && child.previousManifestHash == ManifestHash(client.wire, parent)
    && (child.context == parent.context
        || (child.context.version > parent.context.version && child.context.epoch > parent.context.epoch))
  }

  /** The first record of a chain. */
  ghost predicate Genesis(client: Client, author: Author, r: SealedRecord) {
    && Validate(client.wire, r, PolicyFor(author.publicKey)).Ok?
    && r.manifestRevision == 1 && r.previousManifestHash == ZERO32
  }

  // ---------------------------------------------------------------------------
  // seal
  // ---------------------------------------------------------------------------

  function RecipientOrder(): Recipient -> SortKey {
    (r: Recipient) => (r.recipientId, r.keyEpoch)
  }

  function IndexOrder(): BlindIndex -> SortKey {
    (x: BlindIndex) => (x.indexLabel, x.keyEpoch)
  }

  function EnvelopeOrder(): RecipientEnvelope -> SortKey {
    (e: RecipientEnvelope) => (e.recipientId, e.keyEpoch)
  }

  predicate BadLabel(value: Text, p: ValidationPolicy) {
    |value| == 0 || |value| > p.maxIdentifierBytes
  }

  function CheckRecipients(client: Client, recipients: seq<Recipient>, p: ValidationPolicy): CryptoResult<()> {
    if recipients == [] then Done(())
    else
      var r := recipients[0];
      if BadLabel(r.recipientId, p) || r.keyEpoch == 0 || client.keyId(r.publicKey) != r.recipientKeyId
      then Failed(InvalidKeyIdentity)
      else CheckRecipients(client, recipients[1..], p)
  }

  function CheckScopes(indexes: seq<BlindIndex>, p: ValidationPolicy): CryptoResult<()> {
    if indexes == [] then Done(())
    else
      var x := indexes[0];
      if BadLabel(x.indexLabel, p) || BadLabel(x.canonicalizerId, p)
         || x.schemaVersion == 0 || x.canonicalizerVersion == 0 || x.keyEpoch == 0
      then Failed(InvalidIndexScope)
      else CheckScopes(indexes[1..], p)
  }

  /** The checks before anything is drawn or encrypted. */
  function Preflight(client: Client, c: RecordContext, plaintext: seq<u8>, recipients: seq<Recipient>,
                     indexes: seq<BlindIndex>)
    : CryptoResult<()>
  {
    var p := PolicyFor(ZERO32);
    if BadLabel(c.tenant, p) || BadLabel(c.objectId, p) || BadLabel(c.field, p)
       || c.epoch == 0 || c.version == 0 || c.schemaVersion == 0
    then Failed(InvalidRecordInput)
    else if |plaintext| + TAG_LEN > p.maxCiphertextBytes then Failed(PayloadTooLarge)
    else if recipients == [] then Failed(NoRecipients)
    else if |recipients| > p.maxRecipients || |indexes| > p.maxIndexes then Failed(InvalidRecordInput)
    else
      var _ :- CheckRecipients(client, recipients, p);
      CheckScopes(indexes, p)
  }

  predicate RecipientOk(client: Client, r: Recipient, p: ValidationPolicy) {
    LabelOk(r.recipientId, p) && r.keyEpoch != 0 && client.keyId(r.publicKey) == r.recipientKeyId
  }

  /** Every input of `seal` in range. */
  predicate InRange(client: Client, c: RecordContext, plaintext: seq<u8>, recipients: seq<Recipient>,
                    indexes: seq<BlindIndex>, p: ValidationPolicy)
  {
    && ContextOk(c, p) && |plaintext| + TAG_LEN <= p.maxCiphertextBytes
    && 1 <= |recipients| <= p.maxRecipients && |indexes| <= p.maxIndexes
    && (forall i :: 0 <= i < |recipients| ==> RecipientOk(client, recipients[i], p))
    && (forall i :: 0 <= i < |indexes| ==> IndexOk(indexes[i], p))
  }

  lemma {:induction false} RecipientsChecked(client: Client, recipients: seq<Recipient>, p: ValidationPolicy)
    ensures CheckRecipients(client, recipients, p).Done?
       <==> forall i :: 0 <= i < |recipients| ==> RecipientOk(client, recipients[i], p)
  {
    hide ValidUtf8;
    if recipients != [] {
      RecipientsChecked(client, recipients[1..], p);
      assert forall i :: 0 < i < |recipients| ==> recipients[i] == recipients[1..][i - 1];
    }
  }

  lemma {:induction false} ScopesChecked(indexes: seq<BlindIndex>, p: ValidationPolicy)
    ensures CheckScopes(indexes, p).Done? <==> forall i :: 0 <= i < |indexes| ==> IndexOk(indexes[i], p)
  {
    hide ValidUtf8;
    if indexes != [] {
      ScopesChecked(indexes[1..], p);
      assert forall i :: 0 < i < |indexes| ==> indexes[i] == indexes[1..][i - 1];
    }
  }

  /** The preflight passes exactly the inputs in range. */
  lemma PreflightMeaning(client: Client, c: RecordContext, plaintext: seq<u8>, recipients: seq<Recipient>,
                         indexes: seq<BlindIndex>)
    ensures Preflight(client, c, plaintext, recipients, indexes).Done?
       <==> InRange(client, c, plaintext, recipients, indexes, PolicyFor(ZERO32))
    ensures Preflight(client, c, plaintext, recipients, indexes).Done?
       <==> && 1 <= |c.tenant| <= 255 && 1 <= |c.objectId| <= 255 && 1 <= |c.field| <= 255
            && c.epoch > 0 && c.version > 0 && c.schemaVersion > 0
            && |plaintext| + 16 <= 8 * 1024 * 1024 && 1 <= |recipients| <= 256 && |indexes| <= 32
            && (forall i :: 0 <= i < |recipients| ==>
                  var q := recipients[i];
                  1 <= |q.recipientId| <= 255 && q.keyEpoch > 0 && client.keyId(q.publicKey) == q.recipientKeyId)
            && (forall i :: 0 <= i < |indexes| ==>
                  var x := indexes[i];
                  1 <= |x.indexLabel| <= 255 && 1 <= |x.canonicalizerId| <= 255
                  && x.keyEpoch > 0 && x.schemaVersion > 0 && x.canonicalizerVersion > 0)
  {
    hide ValidUtf8;
    RecipientsChecked(client, recipients, PolicyFor(ZERO32));
    ScopesChecked(indexes, PolicyFor(ZERO32));
  }

  /** Each refusal of the preflight and its condition, in the order of the checks. */
  lemma PreflightErrors(client: Client, c: RecordContext, plaintext: seq<u8>, recipients: seq<Recipient>,
                        indexes: seq<BlindIndex>)
    ensures var r := Preflight(client, c, plaintext, recipients, indexes);
      if |c.tenant| == 0 || |c.tenant| > 255 || |c.objectId| == 0 || |c.objectId| > 255 || |c.field| == 0
          || |c.field| > 255
         || c.epoch == 0 || c.version == 0 || c.schemaVersion == 0
      then r == Failed(InvalidRecordInput)
      else if |plaintext| + 16 > 8 * 1024 * 1024 then r == Failed(PayloadTooLarge)
      else if recipients == [] then r == Failed(NoRecipients)
      else if |recipients| > 256 || |indexes| > 32 then r == Failed(InvalidRecordInput)
      else if exists i :: 0 <= i < |recipients| && !RecipientOk(client, recipients[i], PolicyFor(ZERO32))
      then r == Failed(InvalidKeyIdentity)
      else r == Done(()) || r == Failed(InvalidIndexScope)
  {
    hide ValidUtf8;
    RecipientsChecked(client, recipients, PolicyFor(ZERO32));
    OneRecipientError(client, recipients, PolicyFor(ZERO32));
    OneScopeError(indexes, PolicyFor(ZERO32));
  }

  lemma {:induction false} OneRecipientError(client: Client, recipients: seq<Recipient>, p: ValidationPolicy)
    ensures CheckRecipients(client, recipients, p).Failed? ==>
              CheckRecipients(client, recipients, p) == Failed(InvalidKeyIdentity)
    ensures CheckRecipients(client, recipients, p).Done? ==> CheckRecipients(client, recipients, p) == Done(())
  {
    hide ValidUtf8;
    if recipients != [] {
      OneRecipientError(client, recipients[1..], p);
    }
  }

  lemma {:induction false} OneScopeError(indexes: seq<BlindIndex>, p: ValidationPolicy)
    ensures CheckScopes(indexes, p).Failed? ==> CheckScopes(indexes, p) == Failed(InvalidIndexScope)
    ensures CheckScopes(indexes, p).Done? ==> CheckScopes(indexes, p) == Done(())
  {
    hide ValidUtf8;
    if indexes != [] {
      OneScopeError(indexes[1..], p);
    }
  }

  /** The envelope of a recipient. */
  function EnvelopeFor(r: Recipient, w: Wrapped): RecipientEnvelope {
    RecipientEnvelope(r.recipientId, r.keyEpoch, r.recipientKeyId, w.encapsulatedKey, w.wrappedDek)
  }

  predicate Wraps(client: Client, recipients: seq<Recipient>, secret: Bytes32, c: RecordContext) {
    forall i :: 0 <= i < |recipients| ==> client.wrap(recipients[i], secret, c).Done?
  }

  /** One envelope per recipient, in their order. */
  function Envelopes(client: Client, recipients: seq<Recipient>, secret: Bytes32, c: RecordContext)
    : (r: seq<RecipientEnvelope>)
    requires Wraps(client, recipients, secret, c)
    ensures |r| == |recipients|
  {
    seq(|recipients|, i requires 0 <= i < |recipients| =>
      EnvelopeFor(recipients[i], client.wrap(recipients[i], secret, c).value))
  }

  /** When sealing succeeds: inputs in range, no key twice, and no primitive refuses. */
  predicate CanSeal(client: Client, c: RecordContext, plaintext: seq<u8>, recipients: seq<Recipient>,
                    indexes: seq<BlindIndex>, suite: Suite, draw: Draw)
  {
    && InRange(client, c, plaintext, recipients, indexes, PolicyFor(ZERO32))
    && !HasDuplicate(recipients, RecipientOrder()) && !HasDuplicate(indexes, IndexOrder())
    && client.encrypt(draw, suite, c, plaintext).Done?
    && Wraps(client, recipients, draw.objectSecret, c)
  }

  /** The encrypted payload, and the secret wrapped for the recipients in canonical order. */
  predicate Carries(client: Client, c: RecordContext, plaintext: seq<u8>, recipients: seq<Recipient>, suite: Suite,
                    draw: Draw, r: SealedRecord)
  {
    var e, sorted := client.encrypt(draw, suite, c, plaintext), Sort(recipients, RecipientOrder());
    && e.Done? && r.keyCommitment == e.value.keyCommitment && r.nonce == e.value.nonce
    && r.ciphertext == e.value.ciphertext
    && Wraps(client, sorted, draw.objectSecret, c) && r.recipients == Envelopes(client, sorted, draw.objectSecret, c)
  }

  /** What `seal` returns when it succeeds: the record of its inputs, in canonical order. */
  ghost predicate IsSealed(client: Client, author: Author, c: RecordContext, recipients: seq<Recipient>,
                           indexes: seq<BlindIndex>,
                           suite: Suite, r: SealedRecord)
  {
    && ValidateOwn(client, r, PolicyFor(author.publicKey)).Done?
    && r == SignRecord(author, r)
    && r.formatVersion == FORMAT_VERSION && r.suite == suite && r.context == c
    && r.manifestRevision == 1 && r.previousManifestHash == ZERO32
    && multiset(RecipientKeys(r.recipients)) == multiset(Keys(recipients, RecipientOrder()))
    && multiset(r.indexes) == multiset(indexes)
    && Increasing(RecipientKeys(r.recipients)) && Increasing(IndexKeys(r.indexes))
  }

  /** Keys of a rearrangement are a rearrangement of the keys. */
  lemma {:induction false} KeysPermute<T>(s: seq<T>, key: T -> SortKey)
    ensures multiset(Keys(Sort(s, key), key)) == multiset(Keys(s, key))
  {
    if s != [] {
      var t := s[..|s| - 1];
      KeysPermute(t, key);
      InsertKeys(s[|s| - 1], Sort(t, key), key);
      assert Keys(s, key) == Keys(t, key) + [key(s[|s| - 1])];
    }
  }

  lemma {:induction false} InsertKeys<T>(x: T, s: seq<T>, key: T -> SortKey)
    ensures multiset(Keys(Insert(x, s, key), key)) == multiset(Keys(s, key)) + multiset{key(x)}
  {
    hide KeyLess, ValidUtf8;
    var r := Insert(x, s, key);
    if s == [] || KeyLess(key(x), key(s[0])) {
      assert r == [x] + s;
      assert Keys(r, key) == [key(x)] + Keys(s, key);
    } else {
      InsertKeys(x, s[1..], key);
      assert Keys(r, key) == [key(s[0])] + Keys(Insert(x, s[1..], key), key);
      assert Keys(s, key) == [key(s[0])] + Keys(s[1..], key);
    }
  }

  lemma SortedRecipients(recipients: seq<Recipient>)
    ensures var sorted := Sort(recipients, RecipientOrder());
      && multiset(Keys(sorted, RecipientOrder())) == multiset(Keys(recipients, RecipientOrder()))
      && (HasAdjacent(sorted, RecipientOrder()) <==> HasDuplicate(recipients, RecipientOrder()))
      && (!HasAdjacent(sorted, RecipientOrder()) ==> Increasing(Keys(sorted, RecipientOrder())))
  {
    hide Sort, HasAdjacent, HasDuplicate, Increasing, Ordered, Keys;
    var key, sorted := RecipientOrder(), Sort(recipients, RecipientOrder());
    SortSorts(recipients, key);
    KeysPermute(recipients, key);
    AdjacentIsDuplicate(sorted, key);
    SameDuplicates(recipients, sorted, key);
    SameDuplicates(sorted, recipients, key);
  }

  lemma SortedIndexes(indexes: seq<BlindIndex>)
    ensures var sorted := Sort(indexes, IndexOrder());
      && multiset(sorted) == multiset(indexes)
      && (HasAdjacent(sorted, IndexOrder()) <==> HasDuplicate(indexes, IndexOrder()))
      && (!HasAdjacent(sorted, IndexOrder()) ==> Increasing(Keys(sorted, IndexOrder())))
  {
    hide Sort, HasAdjacent, HasDuplicate, Increasing, Ordered, Keys;
    var key, sorted := IndexOrder(), Sort(indexes, IndexOrder());
    SortSorts(indexes, key);
    AdjacentIsDuplicate(sorted, key);
    SameDuplicates(indexes, sorted, key);
    SameDuplicates(sorted, indexes, key);
  }

  /** Wrap the object secret for each recipient in turn. */
  method WrapAll(client: Client, recipients: seq<Recipient>, objectSecret: Bytes32, context: RecordContext)
    returns (r: CryptoResult<seq<RecipientEnvelope>>)
    ensures r.Done? <==> Wraps(client, recipients, objectSecret, context)
    ensures r.Done? ==> r.value == Envelopes(client, recipients, objectSecret, context)
    ensures r.Failed? ==> exists i ::
                0 <= i < |recipients| && client.wrap(recipients[i], objectSecret, context) == Failed(r.error)
  {
    hide ValidUtf8;
    var envelopes: seq<RecipientEnvelope> := [];
    for i := 0 to |recipients|
      invariant |envelopes| == i
      invariant forall j :: 0 <= j < i ==> client.wrap(recipients[j], objectSecret, context).Done?
      invariant forall j :: 0 <= j < i ==>
        envelopes[j] == EnvelopeFor(recipients[j], client.wrap(recipients[j], objectSecret, context).value)
    {
      var wrapped := client.wrap(recipients[i], objectSecret, context);
      if wrapped.Failed? {
        return Failed(wrapped.error);
      }
      envelopes := envelopes + [EnvelopeFor(recipients[i], wrapped.value)];
    }
    assert envelopes == Envelopes(client, recipients, objectSecret, context);
    return Done(envelopes);
  }

  /** Seal one payload for one or more independent recipients. */
  method Seal(client: Client, author: Author, context: RecordContext, plaintext: seq<u8>, recipients: seq<Recipient>,
              indexes: seq<BlindIndex>, suite: Suite, draw: Draw) returns (r: CryptoResult<SealedRecord>)
    ensures Preflight(client, context, plaintext, recipients, indexes).Failed?
        ==> r == Failed(Preflight(client, context, plaintext, recipients, indexes).error)
    ensures Preflight(client, context, plaintext, recipients, indexes).Done? ==>
              && (HasDuplicate(recipients, RecipientOrder()) ==> r == Failed(DuplicateRecipient))
              && (!HasDuplicate(recipients, RecipientOrder()) && HasDuplicate(indexes, IndexOrder())
                  ==> r == Failed(DuplicateIndex))
    ensures r.Done? ==> IsSealed(client, author, context, recipients, indexes, suite, r.value)
    ensures r.Done? ==> Carries(client, context, plaintext, recipients, suite, draw, r.value)
    ensures r.Done? ==> CanSeal(client, context, plaintext, recipients, indexes, suite, draw)
    ensures CanSeal(client, context, plaintext, recipients, indexes, suite, draw) && Lengths(client)
        && Signs(client, author)
        ==> r.Done?
  {
    hide Preflight, HasDuplicate, HasAdjacent, Sort, Keys, ValidateOwn, SignRecord, Increasing, RecipientOrder,
      IndexOrder,
      ValidUtf8, InRange, Wraps, Envelopes, Lengths, Signs;
    PreflightMeaning(client, context, plaintext, recipients, indexes);
    var _ :- Preflight(client, context, plaintext, recipients, indexes);
    var sortedRecipients := Sort(recipients, RecipientOrder());
    SortedRecipients(recipients);
    if HasAdjacent(sortedRecipients, RecipientOrder()) {
      return Failed(DuplicateRecipient);
    }
    var sortedIndexes := Sort(indexes, IndexOrder());
    SortedIndexes(indexes);
    if HasAdjacent(sortedIndexes, IndexOrder()) {
      return Failed(DuplicateIndex);
    }
    WrapsOfSorted(client, recipients, draw.objectSecret, context);
    var payload :- client.encrypt(draw, suite, context, plaintext);
    var envelopes :- WrapAll(client, sortedRecipients, draw.objectSecret, context);
    var record := SealedRecord(FORMAT_VERSION, suite, context, 1, ZERO32, payload.keyCommitment, payload.nonce,
                               payload.ciphertext,
                               envelopes, sortedIndexes, author.publicKey, seq(64, _ => 0));
    var signed := SignRecord(author, record);
    SignTwice(author, record);
    SignKeeps(author, record);
    IndexKeysAre(sortedIndexes);
    EnvelopeKeysAre(client, sortedRecipients, draw.objectSecret, context);
    if Lengths(client) && Signs(client, author) {
      SealedPasses(client, author, record, plaintext, recipients, indexes, draw);
    }
    var _ :- ValidateOwn(client, signed, PolicyFor(author.publicKey));
    return Done(signed);
  }

  /** A duplicate is two entries of one name and key epoch. */
  lemma DuplicateMeaning(recipients: seq<Recipient>, indexes: seq<BlindIndex>)
    ensures HasDuplicate(recipients, RecipientOrder())
       <==> exists i, j :: 0 <= i < j < |recipients| && recipients[i].recipientId == recipients[j].recipientId
                           && recipients[i].keyEpoch == recipients[j].keyEpoch
    ensures HasDuplicate(indexes, IndexOrder())
       <==> exists i, j :: 0 <= i < j < |indexes| && indexes[i].indexLabel == indexes[j].indexLabel
                           && indexes[i].keyEpoch == indexes[j].keyEpoch
  {
    hide ValidUtf8;
  }

  /**
   A sealed record field by field: the payload as encrypted, for each recipient one envelope
   of the secret wrapped for it, and the author's signature over all of it.
   */
  lemma SealedMeaning(client: Client, author: Author, c: RecordContext, plaintext: seq<u8>, recipients: seq<Recipient>,
                      indexes: seq<BlindIndex>, suite: Suite, draw: Draw, r: SealedRecord)
    requires IsSealed(client, author, c, recipients, indexes, suite, r)
    requires Carries(client, c, plaintext, recipients, suite, draw, r)
    ensures r.formatVersion == 1 && r.suite == suite && r.context == c && r.manifestRevision == 1
    ensures r.previousManifestHash == seq(32, _ => 0)
    ensures r.signerPublicKey == author.publicKey && r.signature == author.sign(SigningBytes(r))
    ensures client.encrypt(draw, suite, c, plaintext).Done?
    ensures Payload(r.keyCommitment, r.nonce, r.ciphertext) == client.encrypt(draw, suite, c, plaintext).value
    ensures |r.recipients| == |recipients| && multiset(r.indexes) == multiset(indexes)
    ensures forall i :: 0 <= i < |r.recipients| ==>
              exists q :: q in recipients && client.wrap(q, draw.objectSecret, c).Done?
                          && var w := client.wrap(q, draw.objectSecret, c).value;
                          r.recipients[i] == RecipientEnvelope(q.recipientId, q.keyEpoch, q.recipientKeyId,
                                                               w.encapsulatedKey, w.wrappedDek)
    ensures forall i, j :: 0 <= i < j < |r.recipients| ==>
              var d, e := r.recipients[i], r.recipients[j];
              Less(d.recipientId, e.recipientId) || (d.recipientId == e.recipientId && d.keyEpoch < e.keyEpoch)
    ensures forall i, j :: 0 <= i < j < |r.indexes| ==>
              var x, y := r.indexes[i], r.indexes[j];
              Less(x.indexLabel, y.indexLabel) || (x.indexLabel == y.indexLabel && x.keyEpoch < y.keyEpoch)
  {
    hide Less, ValidUtf8, Sort, ValidateOwn, SignRecord, SigningBytes, Increasing, Keys, Ordered;
    assert ZERO32 == seq(32, _ => 0);
    SignMeaning(author, r);
    RecipientsIncrease(r.recipients);
    IndexesIncrease(r.indexes);
    var sorted := Sort(recipients, RecipientOrder());
    SortSorts(recipients, RecipientOrder());
    forall i | 0 <= i < |r.recipients|
      ensures exists q :: q in recipients && client.wrap(q, draw.objectSecret, c).Done?
                          && var w := client.wrap(q, draw.objectSecret, c).value;
                          r.recipients[i] == RecipientEnvelope(q.recipientId, q.keyEpoch, q.recipientKeyId,
                                                               w.encapsulatedKey, w.wrappedDek)
    {
      EnvelopeAt(client, sorted, i, draw.objectSecret, c);
      assert sorted[i] in multiset(recipients);
    }
  }

  lemma IndexKeysAre(xs: seq<BlindIndex>)
    ensures IndexKeys(xs) == Keys(xs, IndexOrder())
  {
  }

  lemma EnvelopeKeysAre(client: Client, recipients: seq<Recipient>, secret: Bytes32, c: RecordContext)
    requires Wraps(client, recipients, secret, c)
    ensures RecipientKeys(Envelopes(client, recipients, secret, c)) == Keys(recipients, RecipientOrder())
  {
  }

  /** Sorting changes neither which recipients can be wrapped for nor which are in range. */
  lemma WrapsOfSorted(client: Client, recipients: seq<Recipient>, secret: Bytes32, c: RecordContext)
    ensures Wraps(client, Sort(recipients, RecipientOrder()), secret, c) <==> Wraps(client, recipients, secret, c)
  {
    hide Sort, Keys, Ordered, ValidUtf8;
    var sorted := Sort(recipients, RecipientOrder());
    SortSorts(recipients, RecipientOrder());
    forall i | 0 <= i < |recipients| ensures recipients[i] in sorted {
      assert recipients[i] in multiset(sorted);
    }
    forall i | 0 <= i < |sorted| ensures sorted[i] in recipients {
      assert sorted[i] in multiset(recipients);
    }
  }

  /** What `seal` assembles passes the check at its end. */
  lemma SealedPasses(client: Client, author: Author, r: SealedRecord, plaintext: seq<u8>, recipients: seq<Recipient>,
                     indexes: seq<BlindIndex>, draw: Draw)
    requires Lengths(client) && Signs(client, author)
    requires CanSeal(client, r.context, plaintext, recipients, indexes, r.suite, draw)
    requires Carries(client, r.context, plaintext, recipients, r.suite, draw, r)
    requires r.formatVersion == FORMAT_VERSION && r.manifestRevision == 1 && r.previousManifestHash == ZERO32
    requires r.indexes == Sort(indexes, IndexOrder())
    ensures ValidateOwn(client, SignRecord(author, r), PolicyFor(author.publicKey)).Done?
  {
    hide Sort, Keys, ValidateOwn, SignRecord, Increasing, ValidUtf8, HasDuplicate, HasAdjacent, RecipientOrder,
      IndexOrder,
      Signs, Wraps, EnvelopeOk, IndexOk, ContextOk;
    var p, sorted := PolicyFor(author.publicKey), Sort(recipients, RecipientOrder());
    SignKeeps(author, r);
    SortedRecipients(recipients);
    SortedIndexes(indexes);
    IndexKeysAre(r.indexes);
    EnvelopeKeysAre(client, sorted, draw.objectSecret, r.context);
    ContextAnySigner(r.context, author.publicKey);
    forall i | 0 <= i < |r.recipients| ensures EnvelopeOk(r.recipients[i], p) {
      SealedEnvelopeOk(client, author, recipients, i, draw.objectSecret, r.context);
    }
    forall i | 0 <= i < |r.indexes| ensures IndexOk(r.indexes[i], p) {
      assert r.indexes[i] in multiset(indexes);
      var j :| 0 <= j < |indexes| && indexes[j] == r.indexes[i];
      IndexAnySigner(indexes[j], author.publicKey);
    }
    SignTwice(author, r);
    OwnIff(client, author, SignRecord(author, r));
  }

  /** The limits do not depend on the signer. */
  lemma ContextAnySigner(c: RecordContext, signer: Bytes32)
    ensures ContextOk(c, PolicyFor(signer)) <==> ContextOk(c, PolicyFor(ZERO32))
  {
  }

  lemma IndexAnySigner(x: BlindIndex, signer: Bytes32)
    ensures IndexOk(x, PolicyFor(signer)) <==> IndexOk(x, PolicyFor(ZERO32))
  {
  }

  lemma SealedEnvelopeOk(client: Client, author: Author, recipients: seq<Recipient>, i: nat, secret: Bytes32,
                         c: RecordContext)
    requires Lengths(client) && Wraps(client, Sort(recipients, RecipientOrder()), secret, c) && i < |recipients|
    requires forall j :: 0 <= j < |recipients| ==> RecipientOk(client, recipients[j], PolicyFor(ZERO32))
    ensures EnvelopeOk(Envelopes(client, Sort(recipients, RecipientOrder()), secret, c)[i], PolicyFor(author.publicKey))
  {
    hide *;
    var sorted := Sort(recipients, RecipientOrder());
    SortSorts(recipients, RecipientOrder());
    assert sorted[i] in multiset(recipients);
    var j :| 0 <= j < |recipients| && recipients[j] == sorted[i];
    EnvelopeAt(client, sorted, i, secret, c);
    WrappedOk(client, author, sorted[i], secret, c);
  }

  lemma EnvelopeAt(client: Client, recipients: seq<Recipient>, i: nat, secret: Bytes32, c: RecordContext)
    requires Wraps(client, recipients, secret, c) && i < |recipients|
    ensures client.wrap(recipients[i], secret, c).Done?
    ensures Envelopes(client, recipients, secret, c)[i]
         == EnvelopeFor(recipients[i], client.wrap(recipients[i], secret, c).value)
  {
    hide ValidUtf8;
  }

  lemma WrappedOk(client: Client, author: Author, r: Recipient, secret: Bytes32, c: RecordContext)
    requires Lengths(client) && RecipientOk(client, r, PolicyFor(ZERO32)) && client.wrap(r, secret, c).Done?
    ensures EnvelopeOk(EnvelopeFor(r, client.wrap(r, secret, c).value), PolicyFor(author.publicKey))
  {
    hide ValidUtf8;
  }

  lemma SignKeeps(author: Author, r: SealedRecord)
    ensures SignRecord(author, r)
        == r.(signerPublicKey := author.publicKey, signature := SignRecord(author, r).signature)
    ensures |SignRecord(author, r).signature| == 64
  {
    hide SigningBytes;
  }

  lemma SignTwice(author: Author, r: SealedRecord)
    ensures SignRecord(author, SignRecord(author, r)) == SignRecord(author, r)
  {
    hide SigningBytes;
    var signed := r.(signerPublicKey := author.publicKey);
    SigningIgnoresSignature(signed, author.sign(SigningBytes(signed)));
  }

  /** A sealed record starts a chain. */
  lemma SealedIsGenesis(client: Client, author: Author, c: RecordContext, recipients: seq<Recipient>,
                        indexes: seq<BlindIndex>,
                        suite: Suite, r: SealedRecord)
    requires Signs(client, author) && IsSealed(client, author, c, recipients, indexes, suite, r)
    ensures Genesis(client, author, r)
  {
    hide ValidateOwn, SignRecord, Validate, Increasing, Signs, Keys;
    OwnIsValid(client, author, r);
  }

  // ---------------------------------------------------------------------------
  // grant_recipient
  // ---------------------------------------------------------------------------

  /** The first envelope for this recipient, key epoch and fingerprint. */
  function FindEnvelope(es: seq<RecipientEnvelope>, r: Recipient): CryptoResult<RecipientEnvelope> {
    if es == [] then Failed(NoEnvelopeForRecipient)
    else if es[0].recipientId == r.recipientId && es[0].keyEpoch == r.keyEpoch
        && es[0].recipientKeyId == r.recipientKeyId
    then Done(es[0])
    else FindEnvelope(es[1..], r)
  }

  /** The envelope found is the first of exactly this recipient, key epoch and fingerprint. */
  lemma {:induction false} FindMeaning(es: seq<RecipientEnvelope>, r: Recipient)
    ensures FindEnvelope(es, r).Failed? ==> FindEnvelope(es, r).error == NoEnvelopeForRecipient
    ensures FindEnvelope(es, r).Failed? <==> forall i :: 0 <= i < |es| ==> !IsFor(es[i], r)
    ensures FindEnvelope(es, r).Done? ==>
              exists i :: 0 <= i < |es| && es[i] == FindEnvelope(es, r).value && es[i].recipientId == r.recipientId
                          && es[i].keyEpoch == r.keyEpoch && es[i].recipientKeyId == r.recipientKeyId
                          && forall j :: 0 <= j < i ==> !IsFor(es[j], r)
  {
    hide ValidUtf8;
    if es != [] && !IsFor(es[0], r) {
      var t := es[1..];
      FindMeaning(t, r);
      assert forall j :: 0 < j < |es| ==> es[j] == t[j - 1];
      if FindEnvelope(es, r).Done? {
        var i :| 0 <= i < |t| && t[i] == FindEnvelope(t, r).value && t[i].recipientId == r.recipientId
          && t[i].keyEpoch == r.keyEpoch && t[i].recipientKeyId == r.recipientKeyId
          && forall j :: 0 <= j < i ==> !IsFor(t[j], r);
        assert es[i + 1] == t[i];
      }
    }
  }

  predicate IsFor(e: RecipientEnvelope, r: Recipient) {
    e.recipientId == r.recipientId && e.keyEpoch == r.keyEpoch && e.recipientKeyId == r.recipientKeyId
  }

  predicate AlreadyGranted(r: SealedRecord, new_: Recipient) {
    exists i :: 0 <= i < |r.recipients| && RecipientKey(r.recipients[i]) == (new_.recipientId, new_.keyEpoch)
  }

  /** The parent with one envelope more, in order, as its signed successor. */
  ghost predicate IsGrant(client: Client, author: Author, parent: SealedRecord, new_: Recipient, child: SealedRecord) {
    && Validate(client.wire, parent, PolicyFor(author.publicKey)).Ok?
    && !AlreadyGranted(parent, new_) && parent.manifestRevision < U64_MAX
    && ValidateOwn(client, child, PolicyFor(author.publicKey)).Done? && child == SignRecord(author, child)
    && child
        == parent.(manifestRevision := parent.manifestRevision + 1,
                   previousManifestHash := ManifestHash(client.wire, parent),
                        recipients := child.recipients, signerPublicKey := child.signerPublicKey,
                        signature := child.signature)
    && exists e: RecipientEnvelope ::
         && RecipientKey(e) == (new_.recipientId, new_.keyEpoch) && e.recipientKeyId == new_.recipientKeyId
         && multiset(child.recipients) == multiset(parent.recipients) + multiset{e}
  }

  /** When a grant succeeds: the parent is valid, there is room for one more, and no primitive refuses. */
  predicate CanGrant(client: Client, author: Author, parent: SealedRecord, granting: RecipientKeypair,
                     new_: Recipient) {
    && Validate(client.wire, parent, PolicyFor(author.publicKey)).Ok? && !AlreadyGranted(parent, new_)
    && parent.manifestRevision < U64_MAX && ManifestHash(client.wire, parent) != ZERO32
    && |parent.recipients| < PolicyFor(author.publicKey).maxRecipients
    && LabelOk(new_.recipientId, PolicyFor(author.publicKey)) && new_.keyEpoch != 0
    && FindEnvelope(parent.recipients, granting.recipient).Done?
    && (var secret := client.unwrap(FindEnvelope(parent.recipients, granting.recipient).value, granting,
                                    parent.context);
        secret.Done? && client.wrap(new_, secret.value, parent.context).Done?)
  }

  /** Add a recipient envelope without re-encrypting the payload. */
  method GrantRecipient(client: Client, parent: SealedRecord, granting: RecipientKeypair, author: Author,
                        new_: Recipient)
    returns (r: CryptoResult<SealedRecord>)
    ensures r.Done? ==> IsGrant(client, author, parent, new_, r.value)
    ensures r.Done? ==> CanGrant(client, author, parent, granting, new_)
    ensures r.Done? ==>
              && r.value.manifestRevision == parent.manifestRevision + 1
              && r.value.previousManifestHash == client.wire.sha256(ManifestInput(parent))
              && r.value.signerPublicKey == author.publicKey && r.value.signature == author.sign(SigningBytes(r.value))
              && exists i, secret :: 0 <= i < |parent.recipients| && IsFor(parent.recipients[i], granting.recipient)
                   && client.unwrap(parent.recipients[i], granting, parent.context) == Done(secret)
                   && client.wrap(new_, secret, parent.context).Done?
                   && var w := client.wrap(new_, secret, parent.context).value;
                   multiset(r.value.recipients) == multiset(parent.recipients) + multiset{
                     RecipientEnvelope(new_.recipientId, new_.keyEpoch, new_.recipientKeyId, w.encapsulatedKey,
                                       w.wrappedDek)}
    ensures CanGrant(client, author, parent, granting, new_) && Lengths(client) && Signs(client, author) ==> r.Done?
    ensures Validate(client.wire, parent, PolicyFor(author.publicKey)).Err?
        ==> r == Failed(Wire(Validate(client.wire, parent, PolicyFor(author.publicKey)).error))
    ensures Validate(client.wire, parent, PolicyFor(author.publicKey)).Ok? && AlreadyGranted(parent, new_)
        ==> r == Failed(DuplicateRecipient)
  {
    hide Validate, ValidateOwn, SignRecord, Sort, ManifestInput, SigningBytes, FindEnvelope, PolicyFor, ValidUtf8;
    FindMeaning(parent.recipients, granting.recipient);
    var valid := Validate(client.wire, parent, PolicyFor(author.publicKey));
    if valid.Err? {
      return Failed(Wire(valid.error));
    }
    if AlreadyGranted(parent, new_) {
      return Failed(DuplicateRecipient);
    }
    var current :- FindEnvelope(parent.recipients, granting.recipient);
    var objectSecret :- client.unwrap(current, granting, parent.context);
    var updated := parent.(previousManifestHash := ManifestHash(client.wire, parent));
    if parent.manifestRevision == U64_MAX {
      return Failed(ManifestRevisionOverflow);
    }
    updated := updated.(manifestRevision := parent.manifestRevision + 1);
    var wrapped :- client.wrap(new_, objectSecret, parent.context);
    var e := EnvelopeFor(new_, wrapped);
    var unsorted := updated.recipients + [e];
    SortSorts(unsorted, EnvelopeOrder());
    updated := updated.(recipients := Sort(unsorted, EnvelopeOrder()));
    SignTwice(author, updated);
    SignKeeps(author, updated);
    SignMeaning(author, updated);
    updated := SignRecord(author, updated);
    assert multiset(updated.recipients) == multiset(parent.recipients) + multiset{e};
    GrantShape(client, author, parent, e, updated);
    OwnIff(client, author, updated);
    var _ :- ValidateOwn(client, updated, PolicyFor(author.publicKey));
    return Done(updated);
  }

  lemma ValidShape(c: Crypto, r: SealedRecord, p: ValidationPolicy)
    requires Validate(c, r, p).Ok?
    ensures WellFormed(r, p)
  {
    hide ValidateLimits, WellFormed, SigningBytes, ValidUtf8;
    LimitsMeaning(r, p);
  }

  lemma EnvelopeKeys(es: seq<RecipientEnvelope>)
    ensures RecipientKeys(es) == Keys(es, EnvelopeOrder())
  {
  }

  /** One envelope more, in order, is well formed exactly when it is in range, new, and one too many for no limit. */
  lemma GrantShape(client: Client, author: Author, parent: SealedRecord, e: RecipientEnvelope, child: SealedRecord)
    requires Validate(client.wire, parent, PolicyFor(author.publicKey)).Ok? && parent.manifestRevision < U64_MAX
    requires forall i :: 0 <= i < |parent.recipients| ==> RecipientKey(parent.recipients[i]) != RecipientKey(e)
    requires child.recipients == Sort(parent.recipients + [e], EnvelopeOrder()) && |child.signature| == 64
    requires child == parent.(manifestRevision := parent.manifestRevision + 1,
                              previousManifestHash := ManifestHash(client.wire, parent), recipients := child.recipients,
                              signerPublicKey := child.signerPublicKey, signature := child.signature)
    ensures var p := PolicyFor(author.publicKey);
      WellFormed(child, p)
      <==> EnvelopeOk(e, p) && |parent.recipients| < p.maxRecipients && ManifestHash(client.wire, parent) != ZERO32
  {
    hide Validate, Sort, Keys, Increasing, ValidUtf8, HasDuplicate, HasAdjacent, EnvelopeOrder, EnvelopeOk, IndexOk,
      ContextOk, Ordered, ManifestHash, PolicyFor;
    var p, unsorted := PolicyFor(author.publicKey), parent.recipients + [e];
    ValidShape(client.wire, parent, p);
    GrantIncreasing(parent.recipients, e);
    forall i | 0 <= i < |unsorted| ensures unsorted[i] in child.recipients {
      assert unsorted[i] in multiset(child.recipients);
    }
    forall i | 0 <= i < |child.recipients| ensures child.recipients[i] in unsorted {
      assert child.recipients[i] in multiset(unsorted);
    }
    assert unsorted[|unsorted| - 1] == e;
  }

  lemma GrantIncreasing(es: seq<RecipientEnvelope>, e: RecipientEnvelope)
    requires Increasing(RecipientKeys(es)) && forall i :: 0 <= i < |es| ==> RecipientKey(es[i]) != RecipientKey(e)
    ensures var sorted := Sort(es + [e], EnvelopeOrder());
      Increasing(RecipientKeys(sorted)) && multiset(sorted) == multiset(es + [e])
  {
    hide *;
    var key, unsorted := EnvelopeOrder(), es + [e];
    var sorted := Sort(unsorted, key);
    SortSorts(unsorted, key);
    AdjacentIsDuplicate(sorted, key);
    SameDuplicates(sorted, unsorted, key);
    EnvelopeKeys(sorted);
    NewKeyNoDuplicate(es, e);
  }

  lemma NewKeyNoDuplicate(es: seq<RecipientEnvelope>, e: RecipientEnvelope)
    requires Increasing(RecipientKeys(es)) && forall i :: 0 <= i < |es| ==> RecipientKey(es[i]) != RecipientKey(e)
    ensures !HasDuplicate(es + [e], EnvelopeOrder())
  {
    hide KeyLess, ValidUtf8;
    var k := RecipientKeys(es);
    forall i, j | 0 <= i < j < |es| ensures RecipientKey(es[i]) != RecipientKey(es[j]) {
      assert KeyLess(k[i], k[j]);
      KeyLessTotal(k[i], k[j]);
    }
  }

  // ---------------------------------------------------------------------------
  // rekey
  // ---------------------------------------------------------------------------

  function Max(a: U32, b: U32): U32 {
    if a < b then b else a
  }

  /** The context a rekey may move to. */
  predicate RekeyContext(next: RecordContext, current: RecordContext) {
    && next.tenant == current.tenant && next.objectId == current.objectId && next.field == current.field
    && next.epoch > current.epoch && next.version > current.version
  }

  /** A freshly sealed record in the next context, as the parent's signed successor. */
  ghost predicate IsRekey(client: Client, author: Author, parent: SealedRecord, next: RecordContext,
                          recipients: seq<Recipient>,
                          indexes: seq<BlindIndex>, child: SealedRecord)
  {
    && Validate(client.wire, parent, PolicyFor(author.publicKey)).Ok?
    && RekeyContext(next, parent.context) && parent.manifestRevision < U64_MAX
    && ValidateOwn(client, child, PolicyFor(author.publicKey)).Done? && child == SignRecord(author, child)
    && child.context == NextContext(next, parent.context)
    && child.suite == parent.suite
    && child.manifestRevision == parent.manifestRevision + 1
    && child.previousManifestHash == ManifestHash(client.wire, parent)
    && multiset(RecipientKeys(child.recipients)) == multiset(Keys(recipients, RecipientOrder()))
    && multiset(child.indexes) == multiset(indexes)
  }

  /** The context a rekey seals in: the schema version never goes down. */
  function NextContext(next: RecordContext, current: RecordContext): RecordContext {
    next.(schemaVersion := Max(next.schemaVersion, current.schemaVersion))
  }

  /** When a rekey succeeds: a valid parent that opens, and what sealing needs. */
  predicate CanRekey(client: Client, author: Author, parent: SealedRecord, opening: RecipientKeypair,
                     next: RecordContext,
                     remaining: seq<Recipient>, indexes: seq<BlindIndex>, draw: Draw)
  {
    && RekeyContext(next, parent.context) && Validate(client.wire, parent, PolicyFor(author.publicKey)).Ok?
    && parent.manifestRevision < U64_MAX && ManifestHash(client.wire, parent) != ZERO32
    && (var plaintext := client.openValidated(parent, opening);
        plaintext.Done?
        && CanSeal(client, NextContext(next, parent.context), plaintext.value, remaining, indexes, parent.suite, draw))
  }

  /** Revoke access by sealing again for the remaining recipients. */
  method Rekey(client: Client, parent: SealedRecord, opening: RecipientKeypair, author: Author,
               nextContext: RecordContext,
               remaining: seq<Recipient>, nextIndexes: seq<BlindIndex>, draw: Draw)
                   returns (r: CryptoResult<SealedRecord>)
    ensures r.Done? ==> IsRekey(client, author, parent, nextContext, remaining, nextIndexes, r.value)
    ensures r.Done? ==> CanRekey(client, author, parent, opening, nextContext, remaining, nextIndexes, draw)
    ensures r.Done? ==>
              var child := r.value;
              && child.manifestRevision == parent.manifestRevision + 1
              && child.previousManifestHash == client.wire.sha256(ManifestInput(parent))
              && child.signerPublicKey == author.publicKey && child.signature == author.sign(SigningBytes(child))
              && child.context.tenant == parent.context.tenant && child.context.objectId == parent.context.objectId
              && child.context.field == parent.context.field
              && child.context.epoch == nextContext.epoch > parent.context.epoch
              && child.context.version == nextContext.version > parent.context.version
              && child.context.schemaVersion >= nextContext.schemaVersion
              && child.context.schemaVersion >= parent.context.schemaVersion
              && (child.context.schemaVersion == nextContext.schemaVersion
                  || child.context.schemaVersion == parent.context.schemaVersion)
    ensures r.Done?
        ==> Carries(client, r.value.context, client.openValidated(parent, opening).value, remaining, parent.suite,
                                draw, r.value)
    ensures Lengths(client) && Signs(client, author) ==>
              (CanRekey(client, author, parent, opening, nextContext, remaining, nextIndexes, draw) ==> r.Done?)
    ensures !RekeyContext(nextContext, parent.context) ==> r == Failed(InvalidRekeyContext)
  {
    hide Validate, ValidateOwn, SignRecord, Sort, ManifestInput, SigningBytes, Keys, PolicyFor, Preflight, Increasing,
      HasDuplicate, ValidUtf8, CanSeal, Lengths, Signs;
    if nextContext.tenant != parent.context.tenant
       || nextContext.objectId != parent.context.objectId
       || nextContext.field != parent.context.field
       || nextContext.epoch <= parent.context.epoch
       || nextContext.version <= parent.context.version {
      return Failed(InvalidRekeyContext);
    }
    var next := NextContext(nextContext, parent.context);
    var valid := Validate(client.wire, parent, PolicyFor(author.publicKey));
    if valid.Err? {
      return Failed(Wire(valid.error));
    }
    var plaintext :- client.openValidated(parent, opening);
    var record :- Seal(client, author, next, plaintext, remaining, nextIndexes, parent.suite, draw);
    var updated := record.(previousManifestHash := ManifestHash(client.wire, parent));
    if parent.manifestRevision == U64_MAX {
      return Failed(ManifestRevisionOverflow);
    }
    updated := updated.(manifestRevision := parent.manifestRevision + 1);
    SignTwice(author, updated);
    SignKeeps(author, updated);
    SignMeaning(author, updated);
    updated := SignRecord(author, updated);
    ValidShape(client.wire, parent, PolicyFor(author.publicKey));
    RekeyShape(client, author, record, updated);
    OwnIff(client, author, updated);
    var _ :- ValidateOwn(client, updated, PolicyFor(author.publicKey));
    return Done(updated);
  }

  /** Moving a sealed record up a chain keeps it well formed exactly when the parent's hash is not the first link's. */
  lemma RekeyShape(client: Client, author: Author, sealed_: SealedRecord, child: SealedRecord)
    requires ValidateOwn(client, sealed_, PolicyFor(author.publicKey)).Done?
    requires child
        == sealed_.(manifestRevision := child.manifestRevision, previousManifestHash := child.previousManifestHash,
                               signerPublicKey := child.signerPublicKey, signature := child.signature)
    requires child.manifestRevision > 1 && |child.signature| == 64
    ensures WellFormed(child, PolicyFor(author.publicKey)) <==> child.previousManifestHash != ZERO32
  {
    hide ValidateOwn, Increasing, ValidUtf8, EnvelopeOk, IndexOk, ContextOk, PolicyFor;
    OwnIff(client, author, sealed_);
  }

  lemma GrantLinks(client: Client, author: Author, parent: SealedRecord, new_: Recipient, child: SealedRecord)
    requires Signs(client, author) && IsGrant(client, author, parent, new_, child)
    ensures Links(client, author, parent, child)
  {
    hide ValidateOwn, SignRecord, Validate, ManifestHash, Signs, PolicyFor, AlreadyGranted, ValidUtf8;
    OwnIsValid(client, author, child);
  }

  lemma RekeyLinks(client: Client, author: Author, parent: SealedRecord, next: RecordContext,
                   recipients: seq<Recipient>,
                   indexes: seq<BlindIndex>, child: SealedRecord)
    requires Signs(client, author) && IsRekey(client, author, parent, next, recipients, indexes, child)
    ensures Links(client, author, parent, child)
  {
    hide ValidateOwn, SignRecord, Validate, ManifestHash, Signs, PolicyFor, Keys, ValidUtf8;
    OwnIsValid(client, author, child);
  }
}
