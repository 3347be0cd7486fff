/** The relay over encoded records (relay.rs), and every run of writes to it. */
module Relay {
  import opened Bytes
  import opened WireTypes
  import opened WireEncode
  import opened WireParse
  import opened WireRecord
  import WireDecode
  import opened WireHead
  import opened RelayStore

  // ---------------------------------------------------------------------------
  // One write
  // ---------------------------------------------------------------------------

  /** The answer to an encoded write on a route. */
  function PutEncodedOutcome(c: Crypto, p: ValidationPolicy, records: map<RecordKey, SealedRecord>, key: RecordKey,
                             bytes: seq<u8>)
    : Outcome<WriteReceipt>
  {
    match Decode(c, bytes, p)
    case Err(e) => Refused(Invalid(e))
    case Ok(r) => if KeyOf(r) != key then Refused(RouteContextMismatch) else PutOutcome(c, p, records, r)
  }

  /** A write to the store itself, under a policy of its own, or an encoded one through the relay and its policy. */
  datatype Write = Direct(record: SealedRecord, policy: ValidationPolicy) | Encoded(key: RecordKey, bytes: seq<u8>)

  function Answer(c: Crypto, p: ValidationPolicy, records: map<RecordKey, SealedRecord>,
                  w: Write): Outcome<WriteReceipt> {
    match w
    case Direct(r, q) => PutOutcome(c, q, records, r)
    case Encoded(key, bytes) => PutEncodedOutcome(c, p, records, key, bytes)
  }

  /** The key a write would change. */
  function Target(c: Crypto, p: ValidationPolicy, w: Write): RecordKey {
    match w
    case Direct(r, _) => KeyOf(r)
    case Encoded(key, _) => key
  }

  function Step(c: Crypto, p: ValidationPolicy, records: map<RecordKey, SealedRecord>,
                w: Write): map<RecordKey, SealedRecord> {
    match w
    case Direct(r, q) => PutRecords(c, q, records, r)
    case Encoded(key, bytes) =>
      match Decode(c, bytes, p)
      case Err(_) => records
      case Ok(r) => if KeyOf(r) != key then records else PutRecords(c, p, records, r)
  }

  /** The answer, the target and the step of each kind of write. */
  lemma StepMeaning(c: Crypto, p: ValidationPolicy, q: ValidationPolicy, records: map<RecordKey, SealedRecord>,
                    r: SealedRecord, key: RecordKey, bytes: seq<u8>)
    ensures Answer(c, p, records, Direct(r, q)) == PutOutcome(c, q, records, r)
    ensures Step(c, p, records, Direct(r, q)) == PutRecords(c, q, records, r)
    ensures Target(c, p, Direct(r, q)) == RecordKey(r.context.tenant, r.context.objectId, r.context.field)
    ensures Target(c, p, Encoded(key, bytes)) == key
    ensures Decode(c, bytes, p).Err? ==>
              && Answer(c, p, records, Encoded(key, bytes)) == Refused(Invalid(Decode(c, bytes, p).error))
              && Step(c, p, records, Encoded(key, bytes)) == records
    ensures Decode(c, bytes, p).Ok? ==>
              var d := Decode(c, bytes, p).value;
              if key != RecordKey(d.context.tenant, d.context.objectId, d.context.field) then
                && Answer(c, p, records, Encoded(key, bytes)) == Refused(RouteContextMismatch)
                && Step(c, p, records, Encoded(key, bytes)) == records
              else
                && Answer(c, p, records, Encoded(key, bytes)) == PutOutcome(c, p, records, d)
                && Step(c, p, records, Encoded(key, bytes)) == PutRecords(c, p, records, d)
  {
    hide Decode, PutOutcome, PutRecords, ValidUtf8;
  }

  /** A step changes its target when it is accepted, strictly forward, and nothing else. */
  lemma StepForward(c: Crypto, p: ValidationPolicy, records: map<RecordKey, SealedRecord>, w: Write)
    ensures var next := Step(c, p, records, w);
      && (Answer(c, p, records, w).Refused? ==> next == records)
      && (Answer(c, p, records, w).Done? ==>
            && Target(c, p, w) in next && next == records[Target(c, p, w) := next[Target(c, p, w)]]
            && KeyOf(next[Target(c, p, w)]) == Target(c, p, w)
            && (Target(c, p, w) in records ==>
                  var new_, old_ := next[Target(c, p, w)], records[Target(c, p, w)];
                  new_.context.version > old_.context.version
                  || (new_.context.version == old_.context.version && new_.manifestRevision > old_.manifestRevision)))
  {
    hide Decode, Validate, ManifestHash, ValidUtf8, KeyOf;
  }

  /** An accepted encoded write stores a record that encodes to the bytes written. */
  lemma StoredBytes(c: Crypto, p: ValidationPolicy, records: map<RecordKey, SealedRecord>, key: RecordKey,
                    bytes: seq<u8>)
    requires PutEncodedOutcome(c, p, records, key, bytes).Done?
    ensures key in Step(c, p, records, Encoded(key, bytes))
    ensures Encode(Step(c, p, records, Encoded(key, bytes))[key]) == bytes
  {
    hide Decode, Validate, ManifestHash, ValidUtf8, KeyOf, Encode, ValidateStructure, PrefixesWithin;
    DecodeIff(c, bytes, p, Decode(c, bytes, p).value);
  }

  // ---------------------------------------------------------------------------
  // Runs
  // ---------------------------------------------------------------------------

  function Run(c: Crypto, p: ValidationPolicy, records: map<RecordKey, SealedRecord>,
               writes: seq<Write>): map<RecordKey, SealedRecord> {
    if writes == [] then records
    else Step(c, p, Run(c, p, records, writes[..|writes| - 1]), writes[|writes| - 1])
  }

  /** The records before write i. */
  function At(c: Crypto, p: ValidationPolicy, records: map<RecordKey, SealedRecord>, writes: seq<Write>,
              i: nat): map<RecordKey, SealedRecord>
    requires i <= |writes|
  {
    Run(c, p, records, writes[..i])
  }

  lemma AtStep(c: Crypto, p: ValidationPolicy, records: map<RecordKey, SealedRecord>, writes: seq<Write>, i: nat)
    requires i < |writes|
    ensures At(c, p, records, writes, i + 1) == Step(c, p, At(c, p, records, writes, i), writes[i])
  {
    hide Step;
    assert writes[..i + 1][..i] == writes[..i];
  }

  /** Keys never disappear, and a record is only ever replaced by one strictly later in (version, manifest revision). */
  lemma {:induction false} Monotone(c: Crypto, p: ValidationPolicy, records: map<RecordKey, SealedRecord>,
                                    writes: seq<Write>,
                                    i: nat, j: nat, key: RecordKey)
    requires i <= j <= |writes| && key in At(c, p, records, writes, i)
    ensures key in At(c, p, records, writes, j)
    ensures var was, is_ := At(c, p, records, writes, i)[key], At(c, p, records, writes, j)[key];
      || is_ == was || is_.context.version > was.context.version
      || (is_.context.version == was.context.version && is_.manifestRevision > was.manifestRevision)
    decreases j - i
  {
    hide Step, Answer, At, Target, ValidUtf8, KeyOf;
    if i < j {
      Monotone(c, p, records, writes, i, j - 1, key);
      AtStep(c, p, records, writes, j - 1);
      StepForward(c, p, At(c, p, records, writes, j - 1), writes[j - 1]);
    }
  }

  /** An accepted write moves its key strictly forward, whatever happened since the key was last seen. */
  lemma StrictlyForward(c: Crypto, p: ValidationPolicy, records: map<RecordKey, SealedRecord>, writes: seq<Write>,
                        i: nat, j: nat, key: RecordKey)
    requires i <= j < |writes| && key in At(c, p, records, writes, i)
    requires Target(c, p, writes[j]) == key && Answer(c, p, At(c, p, records, writes, j), writes[j]).Done?
    ensures key in At(c, p, records, writes, j + 1)
    ensures var was, is_ := At(c, p, records, writes, i)[key], At(c, p, records, writes, j + 1)[key];
      || is_.context.version > was.context.version
      || (is_.context.version == was.context.version && is_.manifestRevision > was.manifestRevision)
  {
    hide Step, Answer, At, Target, ValidUtf8, KeyOf;
    Monotone(c, p, records, writes, i, j, key);
    AtStep(c, p, records, writes, j);
    StepForward(c, p, At(c, p, records, writes, j), writes[j]);
  }

  /** No write from i on is accepted for this key. */
  ghost predicate Untouched(c: Crypto, p: ValidationPolicy, records: map<RecordKey, SealedRecord>, writes: seq<Write>,
                            i: nat, key: RecordKey) {
    forall k :: i <= k < |writes| && Target(c, p, writes[k]) == key
        ==> Answer(c, p, At(c, p, records, writes, k), writes[k]).Refused?
  }

  lemma {:induction false} KeepsRecord(c: Crypto, p: ValidationPolicy, records: map<RecordKey, SealedRecord>,
                                       writes: seq<Write>,
                                       i: nat, j: nat, key: RecordKey)
    requires i <= j <= |writes| && Untouched(c, p, records, writes, i, key) && key in At(c, p, records, writes, i)
    ensures key in At(c, p, records, writes, j) && At(c, p, records, writes, j)[key]
        == At(c, p, records, writes, i)[key]
    decreases j - i
  {
    hide Step, Answer, At, Target, ValidUtf8, KeyOf;
    if i < j {
      KeepsRecord(c, p, records, writes, i, j - 1, key);
      AtStep(c, p, records, writes, j - 1);
      StepForward(c, p, At(c, p, records, writes, j - 1), writes[j - 1]);
    }
  }

  /** What was last written is what is read, byte for byte, until the next accepted write to the key. */
  lemma ReadsBackBytes(c: Crypto, p: ValidationPolicy, records: map<RecordKey, SealedRecord>, writes: seq<Write>,
                       i: nat, j: nat, key: RecordKey, bytes: seq<u8>)
    requires i < j <= |writes| && writes[i] == Encoded(key, bytes)
    requires PutEncodedOutcome(c, p, At(c, p, records, writes, i), key, bytes).Done?
    requires Untouched(c, p, records, writes, i + 1, key)
    ensures key in At(c, p, records, writes, j) && Encode(At(c, p, records, writes, j)[key]) == bytes
  {
    hide Step, Answer, At, PutEncodedOutcome, Untouched, Encode, ValidUtf8;
    StoredBytes(c, p, At(c, p, records, writes, i), key, bytes);
    AtStep(c, p, records, writes, i);
    KeepsRecord(c, p, records, writes, i + 1, j, key);
  }

  // ---------------------------------------------------------------------------
  // The relay
  // ---------------------------------------------------------------------------

  class Server {
    const store: MemoryStore
    const policy: ValidationPolicy
    const crypto: Crypto

    ghost predicate Valid()
      reads store
    {
      store.Valid()
    }

    constructor (crypto: Crypto, policy: ValidationPolicy)
      ensures Valid() && fresh(store) && store.records == map[] && this.policy == policy && this.crypto == crypto
    {
      store := new MemoryStore();
      this.policy := policy;
      this.crypto := crypto;
    }

    /** Accept an encoded record for a route, if the route and the record's own context agree. */
    method PutEncoded(key: RecordKey, encoded: Vec) returns (outcome: Outcome<WriteReceipt>)
      requires Valid()
      modifies store
      ensures Valid()
      ensures outcome == Answer(crypto, policy, old(store.records), Encoded(key, encoded))
      ensures store.records == Step(crypto, policy, old(store.records), Encoded(key, encoded))
      ensures outcome.Refused? ==> store.index == old(store.index) && store.records == old(store.records)
      ensures var decoded := Decode(crypto, encoded, policy);
        outcome.Done? <==>
          && decoded.Ok?
          && var r := decoded.value;
          && key == RecordKey(r.context.tenant, r.context.objectId, r.context.field)
          && r.signerPublicKey in policy.allowedSigners
          && (key in old(store.records) ==>
                var stored := old(store.records)[key];
                r.context.version > stored.context.version
                || (r.context.version == stored.context.version && r.manifestRevision > stored.manifestRevision))
    {
      hide Decode, Agrees, Validate, ValidUtf8, ManifestHash;
      var decoded := WireDecode.DecodeRecord(crypto, encoded, policy);
      if decoded.Err? {
        return Refused(Invalid(decoded.error));
      }
      var record := decoded.value;
      if record.context.tenant != key.tenant || record.context.objectId != key.objectId
          || record.context.field != key.field {
        return Refused(RouteContextMismatch);
      }
      outcome := store.Put(crypto, record, policy);
    }

    /** Fetch one record in its encoded form. */
    method GetEncoded(key: RecordKey) returns (outcome: Outcome<seq<u8>>)
      ensures outcome == if key in store.records then Done(Encode(store.records[key])) else Refused(NotFound)
    {
      hide Encode, ValidUtf8;
      var got := store.Get(key);
      match got
      case Done(record) => return Done(Encode(record));
      case Refused(e) => return Refused(e);
    }

    /** Encoded candidates by blind-index token. */
    method SearchEncoded(tenant: Text, indexLabel: Text, keyEpoch: U64, token: Bytes16)
      returns (found: seq<seq<u8>>, ghost keys: seq<RecordKey>)
      requires Valid()
      ensures |found| == |keys|
      ensures forall i :: 0 <= i < |keys| ==> keys[i] in store.records && found[i] == Encode(store.records[keys[i]])
      ensures forall i, j :: 0 <= i < j < |keys| ==>
                keys[i].tenant == tenant == keys[j].tenant
                && (Less(keys[i].objectId, keys[j].objectId)
                    || (keys[i].objectId == keys[j].objectId && Less(keys[i].field, keys[j].field)))
      ensures forall key {:trigger key in keys} ::
                key in keys <==>
                  && key in store.records && store.records[key].context.tenant == tenant
                  && var xs := store.records[key].indexes;
                  exists i :: 0 <= i < |xs| && xs[i].indexLabel == indexLabel && xs[i].keyEpoch == keyEpoch
                      && xs[i].token == token
    {
      hide Encode, Carries, Before, ValidUtf8, Agrees;
      var records: seq<SealedRecord>;
      records, keys := store.Search(tenant, indexLabel, keyEpoch, token);
      found := seq(|records|, i requires 0 <= i < |records| => Encode(records[i]));
    }
  }
}
