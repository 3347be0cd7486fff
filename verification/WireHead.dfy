/** The client's freshness checkpoint (head.rs). */
module WireHead {
  import opened Bytes
  import opened WireTypes
  import opened WireEncode
  import opened WireRecord

  /** What the client persists about one record. */
  datatype Checkpoint = Checkpoint(tenant: Text, objectId: Text, field: Text, manifestRevision: U64,
                                   contentVersion: U64,
                                   epoch: U64, manifestHash: Bytes32, signerPublicKey: Bytes32)

  function ManifestHash(c: Crypto, r: SealedRecord): Bytes32 {
    c.sha256(ManifestInput(r))
  }

  function FromValidated(c: Crypto, r: SealedRecord): Checkpoint {
    Checkpoint(r.context.tenant, r.context.objectId, r.context.field, r.manifestRevision, r.context.version,
               r.context.epoch,
               ManifestHash(c, r), r.signerPublicKey)
  }

  predicate SameIdentity(at: Checkpoint, r: SealedRecord) {
    at.tenant == r.context.tenant && at.objectId == r.context.objectId && at.field == r.context.field
  }

  function SaturatingAdd(a: U64, b: U64): U64 {
    if a + b > U64_MAX then U64_MAX else a + b
  }

  /** The record is the successor the head expects. */
  predicate Succeeds(at: Checkpoint, r: SealedRecord) {
    && SameIdentity(at, r) && at.signerPublicKey == r.signerPublicKey
    && r.manifestRevision == SaturatingAdd(at.manifestRevision, 1)
    && r.previousManifestHash == at.manifestHash
    && at.contentVersion <= r.context.version && at.epoch <= r.context.epoch
  }

  /** The record is exactly the head. */
  predicate IsCurrent(c: Crypto, at: Checkpoint, r: SealedRecord) {
    at == FromValidated(c, r)
  }

  class FreshnessHead {
    var at: Checkpoint

    constructor (at: Checkpoint)
      ensures this.at == at
    {
      this.at := at;
    }

    /** Start tracking a validated, pinned record. */
    static method Start(c: Crypto, r: SealedRecord, p: ValidationPolicy) returns (head: Result<FreshnessHead>)
      ensures head.Err? ==> Validate(c, r, p) == Err(head.error)
      ensures head.Ok? ==> Validate(c, r, p).Ok? && fresh(head.value) && head.value.at == FromValidated(c, r)
    {
      hide Validate, FromValidated;
      var valid := Validate(c, r, p);
      if valid.Err? {
        return Err(valid.error);
      }
      var h := new FreshnessHead(FromValidated(c, r));
      return Ok(h);
    }

    /** Require a fetched record to be exactly the persisted head. */
    method VerifyCurrent(c: Crypto, r: SealedRecord, p: ValidationPolicy) returns (result: Result<()>)
      ensures Validate(c, r, p).Err? ==> result == Err(Validate(c, r, p).error)
      ensures Validate(c, r, p).Ok? ==> result == if IsCurrent(c, at, r) then Ok(()) else Err(RollbackDetected)
      ensures result.Ok? <==>
              && Validate(c, r, p).Ok?
              && at.tenant == r.context.tenant && at.objectId == r.context.objectId && at.field == r.context.field
              && at.manifestRevision == r.manifestRevision && at.contentVersion == r.context.version
              && at.epoch == r.context.epoch && at.manifestHash == c.sha256(ManifestInput(r))
              && at.signerPublicKey == r.signerPublicKey
    {
      hide Validate, ManifestInput;
      var valid := Validate(c, r, p);
      if valid.Err? {
        return Err(valid.error);
      }
      if !SameIdentity(at, r)
         || at.manifestRevision != r.manifestRevision || at.contentVersion != r.context.version
         || at.epoch != r.context.epoch
         || at.manifestHash != ManifestHash(c, r) || at.signerPublicKey != r.signerPublicKey {
        return Err(RollbackDetected);
      }
      return Ok(());
    }

    /** Advance by exactly one signed link; a refused record leaves the head where it was. */
    method Advance(c: Crypto, r: SealedRecord, p: ValidationPolicy) returns (result: Result<()>)
      modifies this
      ensures result == AdvanceResult(c, old(at), r, p)
      ensures at == if result.Ok? then FromValidated(c, r) else old(at)
      ensures result.Ok? ==> WellFormed(r, p) && c.verify(r.signerPublicKey, SigningBytes(r), r.signature)
                             && r.signerPublicKey in p.allowedSigners
    {
      hide Validate, FromValidated, WellFormed, SigningBytes;
      AdvanceMeaning(c, at, r, p);
      var valid := Validate(c, r, p);
      if valid.Err? {
        return Err(valid.error);
      }
      if !SameIdentity(at, r)
         || at.signerPublicKey != r.signerPublicKey
         || r.manifestRevision != SaturatingAdd(at.manifestRevision, 1)
         || r.previousManifestHash != at.manifestHash
         || r.context.version < at.contentVersion
         || r.context.epoch < at.epoch {
        return Err(RollbackDetected);
      }
      at := FromValidated(c, r);
      return Ok(());
    }
  }

  function AdvanceResult(c: Crypto, at: Checkpoint, r: SealedRecord, p: ValidationPolicy): Result<()> {
    var _ :- Validate(c, r, p);
    if Succeeds(at, r) then Ok(()) else Err(RollbackDetected)
  }

  /** What a head keeps of a record. */
  lemma CheckpointMeaning(c: Crypto, r: SealedRecord)
    ensures FromValidated(c, r)
         == Checkpoint(r.context.tenant, r.context.objectId, r.context.field, r.manifestRevision,
                       r.context.version, r.context.epoch, c.sha256(ManifestInput(r)), r.signerPublicKey)
  {
    hide ManifestInput;
  }

  /**
   A head advances to a record exactly when it is well formed, signed and pinned, of the
   head's own object and signer, bound to the head's hash, of the next revision (or still
   the last one), and of no lower version or epoch.
   */
  lemma AdvanceMeaning(c: Crypto, at: Checkpoint, r: SealedRecord, p: ValidationPolicy)
    ensures AdvanceResult(c, at, r, p).Ok?
       <==> && WellFormed(r, p) && c.verify(r.signerPublicKey, SigningBytes(r), r.signature)
            && r.signerPublicKey in p.allowedSigners
            && r.context.tenant == at.tenant && r.context.objectId == at.objectId && r.context.field == at.field
            && r.signerPublicKey == at.signerPublicKey && r.previousManifestHash == at.manifestHash
            && (r.manifestRevision == at.manifestRevision + 1
                || r.manifestRevision == at.manifestRevision == 0xffff_ffff_ffff_ffff)
            && r.context.version >= at.contentVersion && r.context.epoch >= at.epoch
    ensures Validate(c, r, p).Err? ==> AdvanceResult(c, at, r, p) == Err(Validate(c, r, p).error)
    ensures Validate(c, r, p).Ok? && AdvanceResult(c, at, r, p).Err? ==>
              AdvanceResult(c, at, r, p) == Err(RollbackDetected)
  {
    hide Validate, WellFormed, SigningBytes;
    ValidMeaning(c, r, p);
  }

  /** A step forward never lowers version or epoch, and raises the revision exactly when there is a next revision. */
  lemma AdvanceRaises(c: Crypto, at: Checkpoint, r: SealedRecord, p: ValidationPolicy)
    requires AdvanceResult(c, at, r, p).Ok?
    ensures var next := FromValidated(c, r);
      && next.contentVersion >= at.contentVersion && next.epoch >= at.epoch && SameIdentity(at, r)
      && (next.manifestRevision > at.manifestRevision <==> at.manifestRevision < U64_MAX)
  {
    hide Validate, ManifestHash;
  }

  /** At the last revision the saturating sum stalls: a record of that same revision is taken as the successor. */
  lemma AdvanceStalls(c: Crypto, first: SealedRecord, second: SealedRecord, p: ValidationPolicy)
    requires first.manifestRevision == U64_MAX && second.manifestRevision == U64_MAX
    requires second.previousManifestHash == ManifestHash(c, first) && second.context == first.context
    requires second.signerPublicKey == first.signerPublicKey && Validate(c, second, p).Ok?
    ensures AdvanceResult(c, FromValidated(c, first), second, p).Ok?
    ensures FromValidated(c, second).manifestRevision == FromValidated(c, first).manifestRevision
  {
    hide Validate, ManifestHash;
  }

  /** SHA-256 tells the two manifests apart if they differ. */
  ghost predicate NoCollision(c: Crypto, q: SealedRecord, r: SealedRecord) {
    ManifestHash(c, q) == ManifestHash(c, r) ==> ManifestInput(q) == ManifestInput(r)
  }

  /** The head accepts as current only the very record it was taken from. */
  lemma CurrentIsUnique(c: Crypto, q: SealedRecord, r: SealedRecord)
    requires Fits(q) && Fits(r) && NoCollision(c, q, r)
    ensures IsCurrent(c, FromValidated(c, q), r) <==> q == r
  {
    hide ManifestInput, Fits;
    if IsCurrent(c, FromValidated(c, q), r) {
      ManifestInputInjective(q, r);
    }
  }

  /**
   A record names one predecessor: heads at two records that accept the same successor are
   heads at the same record.
   */
  lemma PredecessorIsUnique(c: Crypto, q: SealedRecord, r: SealedRecord, next: SealedRecord, p: ValidationPolicy)
    requires Fits(q) && Fits(r) && NoCollision(c, q, r)
    requires AdvanceResult(c, FromValidated(c, q), next, p).Ok? && AdvanceResult(c, FromValidated(c, r), next, p).Ok?
    ensures q == r
  {
    hide ManifestInput, Fits, Validate;
    ManifestInputInjective(q, r);
  }
}
