/** The relay's store and its secondary index (blindplane-relay, store.rs and relay.rs). */
module RelayStore {
  import opened WireTypes
  import opened WireEncode
  import opened WireParse
  import opened WireRecord
  import opened WireHead

  datatype RecordKey = RecordKey(tenant: Text, objectId: Text, field: Text)

  function KeyOf(r: SealedRecord): RecordKey {
    RecordKey(r.context.tenant, r.context.objectId, r.context.field)
  }

  /** The order of the key sets: field by field. */
  predicate Before(a: RecordKey, b: RecordKey) {
    || Less(a.tenant, b.tenant)
    || (a.tenant == b.tenant && Less(a.objectId, b.objectId))
    || (a.tenant == b.tenant && a.objectId == b.objectId && Less(a.field, b.field))
  }

  lemma BeforeTransitive(a: RecordKey, b: RecordKey, c: RecordKey)
    requires Before(a, b) && Before(b, c)
    ensures Before(a, c)
  {
    hide Less, ValidUtf8;
    if Less(a.tenant, b.tenant) && Less(b.tenant, c.tenant) {
      LessTransitive(a.tenant, b.tenant, c.tenant);
    }
    if Less(a.objectId, b.objectId) && Less(b.objectId, c.objectId) {
      LessTransitive(a.objectId, b.objectId, c.objectId);
    }
    if Less(a.field, b.field) && Less(b.field, c.field) {
      LessTransitive(a.field, b.field, c.field);
    }
  }

  lemma BeforeTotal(a: RecordKey, b: RecordKey)
    ensures Before(a, b) || a == b || Before(b, a)
    ensures !Before(a, a)
  {
    hide Less, ValidUtf8;
    LessTotal(a.tenant, b.tenant);
    LessTotal(a.objectId, b.objectId);
    LessTotal(a.field, b.field);
    LessTotal(a.tenant, a.tenant);
    LessTotal(a.objectId, a.objectId);
    LessTotal(a.field, a.field);
  }

  /** Every nonempty key set has a least key. */
  lemma {:induction false} LeastExists(s: set<RecordKey>) returns (k: RecordKey)
    requires s != {}
    ensures k in s && forall j :: j in s && j != k ==> Before(k, j)
    decreases |s|
  {
    hide Before, ValidUtf8;
    var x :| x in s;
    var rest := s - {x};
    if rest == {} {
      assert s == {x};
      k := x;
    } else {
      var m := LeastExists(rest);
      BeforeTotal(x, m);
      k := if Before(x, m) then x else m;
      forall j | j in s && j != k ensures Before(k, j) {
        if Before(x, m) && j != m {
          BeforeTransitive(x, m, j);
        }
      }
    }
  }

  // ---------------------------------------------------------------------------
  // The secondary index
  // ---------------------------------------------------------------------------

  /** (tenant, label, key epoch, token). */
  type IndexRef = (Text, Text, U64, Bytes16)
  type Index = map<IndexRef, set<RecordKey>>

  function RefOf(tenant: Text, x: BlindIndex): IndexRef {
    (tenant, x.indexLabel, x.keyEpoch, x.token)
  }

  /** The record carries this index entry. */
  predicate Carries(r: SealedRecord, ref: IndexRef) {
    exists i :: 0 <= i < |r.indexes| && RefOf(r.context.tenant, r.indexes[i]) == ref
  }

  predicate Listed(index: Index, ref: IndexRef, key: RecordKey) {
    ref in index && key in index[ref]
  }

  /** The index lists a key exactly where its stored record carries the entry, and keeps no empty set. */
  ghost predicate Agrees(records: map<RecordKey, SealedRecord>, index: Index) {
    && (forall key :: key in records ==> KeyOf(records[key]) == key)
    && (forall ref :: ref in index ==> index[ref] != {})
    && (forall ref, key {:trigger Listed(index, ref, key)} ::
          Listed(index, ref, key) <==> key in records && Carries(records[key], ref))
  }

  /** There is only one index that agrees with a set of records. */
  lemma IndexDetermined(records: map<RecordKey, SealedRecord>, a: Index, b: Index)
    requires Agrees(records, a) && Agrees(records, b)
    ensures a == b
  {
    hide Carries, ValidUtf8, KeyOf;
    forall ref ensures ref in a <==> ref in b {
      if ref in a {
        var key :| key in a[ref];
        assert Listed(a, ref, key) && Listed(b, ref, key);
      }
      if ref in b {
        var key :| key in b[ref];
        assert Listed(b, ref, key) && Listed(a, ref, key);
      }
    }
    forall ref | ref in a ensures a[ref] == b[ref] {
      forall key ensures key in a[ref] <==> key in b[ref] {
        assert Listed(a, ref, key) <==> Listed(b, ref, key);
      }
    }
  }

  // ---------------------------------------------------------------------------
  // Writes
  // ---------------------------------------------------------------------------

  datatype RelayError =
    | Invalid(error: WireError)
    | RouteContextMismatch
    | StaleWrite(storedVersion: U64, offeredVersion: U64)
    | NotFound

  datatype Outcome<+T> = Done(value: T) | Refused(error: RelayError)

  datatype WriteReceipt = WriteReceipt(version: U64, manifestRevision: U64, manifestHash: Bytes32, created: bool)

  /** The payload advanced, or the manifest of the same payload did. */
  predicate Advances(offered: SealedRecord, stored: SealedRecord) {
    || offered.context.version > stored.context.version
    || (offered.context.version == stored.context.version && offered.manifestRevision > stored.manifestRevision)
  }

  /** The answer to a write. */
  function PutOutcome(c: Crypto, p: ValidationPolicy, records: map<RecordKey, SealedRecord>,
                      r: SealedRecord): Outcome<WriteReceipt> {
    match Validate(c, r, p)
    case Err(e) => Refused(Invalid(e))
    case Ok(_) =>
      if KeyOf(r) in records && !Advances(r, records[KeyOf(r)])
      then Refused(StaleWrite(records[KeyOf(r)].context.version, r.context.version))
      else Done(WriteReceipt(r.context.version, r.manifestRevision, ManifestHash(c, r), KeyOf(r) !in records))
  }

  /** The records after a write. */
  function PutRecords(c: Crypto, p: ValidationPolicy, records: map<RecordKey, SealedRecord>,
                      r: SealedRecord): map<RecordKey, SealedRecord> {
    if PutOutcome(c, p, records, r).Done? then records[KeyOf(r) := r] else records
  }

  /**
   A write is accepted exactly when the record is well formed, signed and pinned, and, over
   a stored record, of a later version, or of the same version and a later manifest
   revision.
   */
  lemma PutMeaning(c: Crypto, p: ValidationPolicy, records: map<RecordKey, SealedRecord>, r: SealedRecord)
    ensures var key := RecordKey(r.context.tenant, r.context.objectId, r.context.field);
      var valid := WellFormed(r, p) && c.verify(r.signerPublicKey, SigningBytes(r), r.signature)
        && r.signerPublicKey in p.allowedSigners;
      var later := key in records ==>
          r.context.version > records[key].context.version
          || (r.context.version == records[key].context.version && r.manifestRevision > records[key].manifestRevision);
      && (PutOutcome(c, p, records, r).Done? <==> valid && later)
      && (valid && later ==> PutRecords(c, p, records, r) == records[key := r])
      && (valid && later ==>
            PutOutcome(c, p, records, r)
            == Done(WriteReceipt(r.context.version, r.manifestRevision, c.sha256(ManifestInput(r)), key !in records)))
      && (!valid || !later ==> PutRecords(c, p, records, r) == records)
      && (valid && !later ==>
            PutOutcome(c, p, records, r) == Refused(StaleWrite(records[key].context.version, r.context.version)))
      && (!valid ==>
            Validate(c, r, p).Err? && PutOutcome(c, p, records, r) == Refused(Invalid(Validate(c, r, p).error)))
  {
    hide Validate, WellFormed, SigningBytes, ManifestInput, ValidUtf8;
    ValidMeaning(c, r, p);
  }

  /** An entry is carried for the record's tenant, under the index's label, key epoch and token. */
  lemma CarriesMeaning(r: SealedRecord, tenant: Text, indexLabel: Text, keyEpoch: U64, token: Bytes16)
    ensures Carries(r, (tenant, indexLabel, keyEpoch, token))
       <==> r.context.tenant == tenant
            && exists i :: 0 <= i < |r.indexes| && r.indexes[i].indexLabel == indexLabel
                           && r.indexes[i].keyEpoch == keyEpoch && r.indexes[i].token == token
  {
    hide ValidUtf8;
  }

  /** After removing the first n entries of a record. */
  ghost predicate Removed(before: Index, index: Index, key: RecordKey, previous: SealedRecord, n: nat)
    requires n <= |previous.indexes|
  {
    && (forall ref :: ref in index ==> index[ref] != {})
    && forall ref, k {:trigger Listed(index, ref, k)} ::
         Listed(index, ref, k) <==> Listed(before, ref, k) && !(k == key && CarriesIn(previous, ref, n))
  }

  predicate CarriesIn(r: SealedRecord, ref: IndexRef, n: nat)
    requires n <= |r.indexes|
  {
    exists i :: 0 <= i < n && RefOf(r.context.tenant, r.indexes[i]) == ref
  }

  /** After inserting the first n entries of a record. */
  ghost predicate Inserted(before: Index, index: Index, key: RecordKey, r: SealedRecord, n: nat)
    requires n <= |r.indexes|
  {
    && (forall ref :: ref in index ==> index[ref] != {})
    && forall ref, k {:trigger Listed(index, ref, k)} ::
         Listed(index, ref, k) <==> Listed(before, ref, k) || (k == key && CarriesIn(r, ref, n))
  }

  lemma CarriesStep(r: SealedRecord, ref: IndexRef, n: nat)
    requires n < |r.indexes|
    ensures CarriesIn(r, ref, n + 1) <==> CarriesIn(r, ref, n) || ref == RefOf(r.context.tenant, r.indexes[n])
  {
    hide RefOf, ValidUtf8;
  }

  class MemoryStore {
    var records: map<RecordKey, SealedRecord>
    var index: Index

    ghost predicate Valid()
      reads this
    {
      Agrees(records, index)
    }

    constructor ()
      ensures Valid() && records == map[] && index == map[]
    {
      records := map[];
      index := map[];
    }

    /** Take one index entry of the replaced record away, and the set with it when it was the last. */
    method RemoveEntry(ref: IndexRef, key: RecordKey)
      requires forall r :: r in index ==> index[r] != {}
      modifies this`index
      ensures forall r :: r in index ==> index[r] != {}
      ensures forall r, k {:trigger Listed(index, r, k)} ::
                Listed(index, r, k) <==> Listed(old(index), r, k) && !(k == key && r == ref)
    {
      hide ValidUtf8;
      if ref in index {
        var keys := index[ref] - {key};
        assert forall k :: k in index[ref] <==> k in keys || (k == key && key in index[ref]);
        if keys == {} {
          index := index - {ref};
        } else {
          index := index[ref := keys];
        }
      }
    }

    method InsertEntry(ref: IndexRef, key: RecordKey)
      requires forall r :: r in index ==> index[r] != {}
      modifies this`index
      ensures forall r :: r in index ==> index[r] != {}
      ensures forall r, k {:trigger Listed(index, r, k)} ::
                Listed(index, r, k) <==> Listed(old(index), r, k) || (k == key && r == ref)
    {
      hide ValidUtf8;
      var keys := if ref in index then index[ref] else {};
      index := index[ref := keys + {key}];
    }

    method RemoveEntries(key: RecordKey, previous: SealedRecord)
      requires forall r :: r in index ==> index[r] != {}
      modifies this`index
      ensures Removed(old(index), index, key, previous, |previous.indexes|)
    {
      hide ValidUtf8, RefOf, Listed;
      ghost var before := index;
      for i := 0 to |previous.indexes|
        invariant Removed(before, index, key, previous, i)
      {
        RemoveEntry(RefOf(previous.context.tenant, previous.indexes[i]), key);
        forall ref ensures CarriesIn(previous, ref, i + 1)
            <==> CarriesIn(previous, ref, i) || ref == RefOf(previous.context.tenant, previous.indexes[i]) {
          CarriesStep(previous, ref, i);
        }
      }
    }

    method InsertEntries(key: RecordKey, r: SealedRecord)
      requires forall ref :: ref in index ==> index[ref] != {}
      modifies this`index
      ensures Inserted(old(index), index, key, r, |r.indexes|)
    {
      hide ValidUtf8, RefOf, Listed;
      ghost var before := index;
      for i := 0 to |r.indexes|
        invariant Inserted(before, index, key, r, i)
      {
        InsertEntry(RefOf(r.context.tenant, r.indexes[i]), key);
        forall ref ensures CarriesIn(r, ref, i + 1)
            <==> CarriesIn(r, ref, i) || ref == RefOf(r.context.tenant, r.indexes[i]) {
          CarriesStep(r, ref, i);
        }
      }
    }

    /** Validate and store, refusing anything not strictly newer than what is held. */
    method Put(c: Crypto, r: SealedRecord, p: ValidationPolicy) returns (outcome: Outcome<WriteReceipt>)
      requires Valid()
      modifies this
      ensures Valid()
      ensures outcome == PutOutcome(c, p, old(records), r)
      ensures records == PutRecords(c, p, old(records), r)
      ensures outcome.Refused? ==> index == old(index) && records == old(records)
      ensures var key := RecordKey(r.context.tenant, r.context.objectId, r.context.field);
        outcome.Done? <==>
          && WellFormed(r, p) && c.verify(r.signerPublicKey, SigningBytes(r), r.signature)
          && r.signerPublicKey in p.allowedSigners
          && (key in old(records) ==>
                var stored := old(records)[key];
                r.context.version > stored.context.version
                || (r.context.version == stored.context.version && r.manifestRevision > stored.manifestRevision))
    {
      hide Validate, ManifestHash, Agrees, Removed, Inserted, ValidUtf8, KeyOf, WellFormed, SigningBytes, ManifestInput;
      PutMeaning(c, p, records, r);
      var valid := Validate(c, r, p);
      if valid.Err? {
        return Refused(Invalid(valid.error));
      }
      var key := KeyOf(r);
      var created := true;
      if key in records {
        var existing := records[key];
        var advancesContent := r.context.version > existing.context.version;
        var advancesManifest := r.context.version == existing.context.version
            && r.manifestRevision > existing.manifestRevision;
        if !advancesContent && !advancesManifest {
          return Refused(StaleWrite(existing.context.version, r.context.version));
        }
        created := false;
      }
      var receipt := WriteReceipt(r.context.version, r.manifestRevision, ManifestHash(c, r), created);
      NoEmptySets(records, index);
      ghost var cleared := index;
      if key in records {
        RemoveEntries(key, records[key]);
        StillNoEmptySets(cleared, index, key, records[key]);
      }
      ghost var middle := index;
      InsertEntries(key, r);
      Reindexed(records, cleared, middle, index, r);
      records := records[key := r];
      return Done(receipt);
    }

    /** Fetch one record. */
    method Get(key: RecordKey) returns (outcome: Outcome<SealedRecord>)
      ensures outcome == if key in records then Done(records[key]) else Refused(NotFound)
    {
      if key in records {
        return Done(records[key]);
      }
      return Refused(NotFound);
    }

    /** The keys listed under an entry, in order. */
    method ListedKeys(ref: IndexRef) returns (keys: seq<RecordKey>)
      ensures forall i, j :: 0 <= i < j < |keys| ==> Before(keys[i], keys[j])
      ensures forall key {:trigger key in keys} :: key in keys <==> Listed(index, ref, key)
    {
      hide Before, ValidUtf8;
      keys := [];
      var rest := if ref in index then index[ref] else {};
      ghost var all := rest;
      while rest != {}
        invariant forall i, j :: 0 <= i < j < |keys| ==> Before(keys[i], keys[j])
        invariant forall i, k :: 0 <= i < |keys| && k in rest ==> Before(keys[i], k)
        invariant forall key {:trigger key in keys} {:trigger key in rest} {:trigger key in all} ::
                    key in all <==> key in keys || key in rest
        decreases |rest|
      {
        ghost var least := LeastExists(rest);
        var k :| k in rest && forall j :: j in rest && j != k ==> Before(k, j);
        keys := keys + [k];
        rest := rest - {k};
      }
    }

    /** Candidates by blind-index token. */
    method Search(tenant: Text, indexLabel: Text, keyEpoch: U64, token: Bytes16)
      returns (found: seq<SealedRecord>, ghost keys: seq<RecordKey>)
      requires Valid()
      ensures |found| == |keys| && forall i :: 0 <= i < |keys| ==> keys[i] in records && found[i] == records[keys[i]]
      ensures forall i :: 0 <= i < |keys| ==>
                keys[i] == RecordKey(tenant, found[i].context.objectId, found[i].context.field)
      ensures forall i, j :: 0 <= i < j < |keys| ==>
                Less(keys[i].objectId, keys[j].objectId)
                || (keys[i].objectId == keys[j].objectId && Less(keys[i].field, keys[j].field))
      ensures forall key {:trigger key in keys} ::
                key in keys <==>
                  && key in records && records[key].context.tenant == tenant
                  && exists i :: 0 <= i < |records[key].indexes| && records[key].indexes[i].indexLabel == indexLabel
                                 && records[key].indexes[i].keyEpoch == keyEpoch
                                 && records[key].indexes[i].token == token
    {
      hide Before, ValidUtf8, Carries, KeyOf, Less;
      var ref := (tenant, indexLabel, keyEpoch, token);
      var candidates := ListedKeys(ref);
      forall key ensures key in candidates <==> key in records && Carries(records[key], ref) {
        assert key in candidates <==> Listed(index, ref, key);
      }
      keys := candidates;
      found := [];
      for i := 0 to |candidates|
        invariant |found| == i && forall j :: 0 <= j < i ==>
                    candidates[j] in records && found[j] == records[candidates[j]]
      {
        assert candidates[i] in candidates;
        if candidates[i] in records {
          found := found + [records[candidates[i]]];
        }
      }
      FoundInOrder(records, index, keys, tenant, indexLabel, keyEpoch, token);
    }
  }

  /** What carries an entry is stored under the entry's tenant, so the order is that of object and field. */
  lemma FoundInOrder(records: map<RecordKey, SealedRecord>, index: Index, keys: seq<RecordKey>, tenant: Text,
                     indexLabel: Text, keyEpoch: U64, token: Bytes16)
    requires Agrees(records, index)
    requires forall i, j :: 0 <= i < j < |keys| ==> Before(keys[i], keys[j])
    requires forall key {:trigger key in keys} ::
               key in keys <==> key in records && Carries(records[key], (tenant, indexLabel, keyEpoch, token))
    ensures forall i :: 0 <= i < |keys| ==>
              keys[i] in records
                  && keys[i] == RecordKey(tenant, records[keys[i]].context.objectId, records[keys[i]].context.field)
    ensures forall i, j :: 0 <= i < j < |keys| ==>
              Less(keys[i].objectId, keys[j].objectId)
              || (keys[i].objectId == keys[j].objectId && Less(keys[i].field, keys[j].field))
    ensures forall key {:trigger key in keys} ::
              key in keys <==>
                && key in records && records[key].context.tenant == tenant
                && exists i :: 0 <= i < |records[key].indexes| && records[key].indexes[i].indexLabel == indexLabel
                               && records[key].indexes[i].keyEpoch == keyEpoch && records[key].indexes[i].token == token
  {
    hide Less, ValidUtf8, Carries, Listed, RefOf;
    forall key: RecordKey | key in records {
      CarriesMeaning(records[key], tenant, indexLabel, keyEpoch, token);
    }
    forall i | 0 <= i < |keys|
      ensures keys[i] in records
              && keys[i] == RecordKey(tenant, records[keys[i]].context.objectId, records[keys[i]].context.field)
    {
      assert keys[i] in keys;
    }
    LessTotal(tenant, tenant);
  }

  lemma NoEmptySets(records: map<RecordKey, SealedRecord>, index: Index)
    requires Agrees(records, index)
    ensures forall ref :: ref in index ==> index[ref] != {}
  {
    hide Listed, Carries, KeyOf, ValidUtf8;
  }

  lemma StillNoEmptySets(before: Index, index: Index, key: RecordKey, previous: SealedRecord)
    requires Removed(before, index, key, previous, |previous.indexes|)
    ensures forall ref :: ref in index ==> index[ref] != {}
  {
    hide Listed, CarriesIn, ValidUtf8;
  }

  /** Removing the old record's entries and inserting the new one's keeps the agreement. */
  lemma Reindexed(records: map<RecordKey, SealedRecord>, before: Index, middle: Index, after: Index, r: SealedRecord)
    requires Agrees(records, before)
    requires KeyOf(r) in records ==> Removed(before, middle, KeyOf(r), records[KeyOf(r)], |records[KeyOf(r)].indexes|)
    requires KeyOf(r) !in records ==> middle == before
    requires Inserted(middle, after, KeyOf(r), r, |r.indexes|)
    ensures Agrees(records[KeyOf(r) := r], after)
  {
    hide Listed, ValidUtf8, KeyOf, RefOf, CarriesIn, Carries;
    var key, records' := KeyOf(r), records[KeyOf(r) := r];
    forall ref, k {:trigger Listed(after, ref, k)}
      ensures Listed(after, ref, k) <==> k in records' && Carries(records'[k], ref)
    {
      AllEntries(r, ref);
      if key in records {
        AllEntries(records[key], ref);
      }
      assert Listed(after, ref, k) <==> Listed(middle, ref, k) || (k == key && CarriesIn(r, ref, |r.indexes|));
      if k == key {
        assert Listed(before, ref, key) <==> key in records && Carries(records[key], ref);
        if key in records {
          assert !Listed(middle, ref, key);
        } else {
          assert !Listed(before, ref, key);
        }
      } else if key in records {
        assert Listed(middle, ref, k) <==> Listed(before, ref, k);
      }
    }
  }

  lemma AllEntries(r: SealedRecord, ref: IndexRef)
    ensures CarriesIn(r, ref, |r.indexes|) <==> Carries(r, ref)
  {
    hide RefOf, ValidUtf8;
  }
}
