/** Whole chains of sealed, granted and rekeyed records, as a client's head and a relay see them. */
module RecordChain {
  import opened WireTypes
  import opened WireEncode
  import opened WireRecord
  import opened WireHead
  import opened Sealing
  import opened RelayStore
  import opened Relay

  /** A genesis record, then signed successors. */
  ghost predicate IsChain(client: Client, author: Author, chain: seq<SealedRecord>) {
    && chain != [] && Genesis(client, author, chain[0])
    && forall i {:trigger chain[i + 1]} :: 0 <= i < |chain| - 1 ==> Links(client, author, chain[i], chain[i + 1])
  }

  lemma LinkAt(client: Client, author: Author, chain: seq<SealedRecord>, i: nat)
    requires IsChain(client, author, chain) && i + 1 < |chain|
    ensures Links(client, author, chain[i], chain[i + 1])
  {
    hide Links, Genesis;
    assert chain[i + 1] == chain[i + 1];
  }

  /** Every record of a chain is valid under the author's pin, and record i has revision i + 1. */
  lemma {:induction false} ChainRevisions(client: Client, author: Author, chain: seq<SealedRecord>, i: nat)
    requires IsChain(client, author, chain) && i < |chain|
    ensures chain[i].manifestRevision == i + 1
    ensures Validate(client.wire, chain[i], PolicyFor(author.publicKey)).Ok?
    ensures chain[i].signerPublicKey == author.publicKey && KeyOf(chain[i]) == KeyOf(chain[0])
  {
    hide IsChain, ValidateStructure, ManifestHash, KeyOf, ValidUtf8;
    if i > 0 {
      ChainRevisions(client, author, chain, i - 1);
      LinkAt(client, author, chain, i - 1);
    } else {
      FirstOf(client, author, chain);
    }
  }

  lemma FirstOf(client: Client, author: Author, chain: seq<SealedRecord>)
    requires IsChain(client, author, chain)
    ensures chain != [] && Genesis(client, author, chain[0])
  {
    hide Links, Genesis;
  }

  /** Versions and epochs never go down along a chain. */
  lemma {:induction false} ChainMonotone(client: Client, author: Author, chain: seq<SealedRecord>, i: nat, j: nat)
    requires IsChain(client, author, chain) && i <= j < |chain|
    ensures chain[i].context.version <= chain[j].context.version && chain[i].context.epoch <= chain[j].context.epoch
    decreases j - i
  {
    hide IsChain, Validate, ManifestHash, KeyOf, ValidUtf8;
    if i < j {
      ChainMonotone(client, author, chain, i, j - 1);
      LinkAt(client, author, chain, j - 1);
    }
  }

  lemma SameKeyIdentity(c: Crypto, q: SealedRecord, r: SealedRecord)
    ensures KeyOf(q) == KeyOf(r) <==> SameIdentity(FromValidated(c, q), r)
  {
    hide ManifestHash, ValidUtf8;
  }

  /** A head at the parent accepts the child. */
  lemma HeadAcceptsChild(client: Client, author: Author, parent: SealedRecord, child: SealedRecord)
    requires Links(client, author, parent, child)
    ensures AdvanceResult(client.wire, FromValidated(client.wire, parent), child, PolicyFor(author.publicKey)).Ok?
  {
    hide ValidateStructure, ManifestHash, KeyOf, SameIdentity, ValidUtf8;
    SameKeyIdentity(client.wire, parent, child);
    SameKeyIdentity(client.wire, child, parent);
  }

  /** A relay that stores the parent accepts the child over it. */
  lemma RelayAcceptsChild(client: Client, author: Author, records: map<RecordKey, SealedRecord>, parent: SealedRecord,
                          child: SealedRecord)
    requires Links(client, author, parent, child)
    requires KeyOf(parent) in records && records[KeyOf(parent)] == parent
    ensures PutOutcome(client.wire, PolicyFor(author.publicKey), records, child).Done?
    ensures PutRecords(client.wire, PolicyFor(author.publicKey), records, child) == records[KeyOf(parent) := child]
  {
    hide Validate, ManifestHash, KeyOf, ValidUtf8;
  }

  /**
   While there is a next revision, a head on a chain accepts exactly the next record of
   it: no earlier, no later, not its own.
   */
  lemma HeadAcceptsOnlyNext(client: Client, author: Author, chain: seq<SealedRecord>, i: nat, j: nat)
    requires IsChain(client, author, chain) && i < |chain| && j < |chain| && chain[i].manifestRevision < U64_MAX
    ensures AdvanceResult(client.wire, FromValidated(client.wire, chain[i]), chain[j], PolicyFor(author.publicKey))
         == if j == i + 1 then Ok(()) else Err(RollbackDetected)
  {
    hide IsChain, Validate, ManifestHash, KeyOf, SameIdentity, ValidUtf8;
    ChainRevisions(client, author, chain, i);
    ChainRevisions(client, author, chain, j);
    if j == i + 1 {
      LinkAt(client, author, chain, i);
      HeadAcceptsChild(client, author, chain[i], chain[j]);
    }
  }

  /** And takes as current only its own record. */
  lemma HeadIsCurrentOnlyAtItself(client: Client, author: Author, chain: seq<SealedRecord>, i: nat, j: nat)
    requires IsChain(client, author, chain) && i < |chain| && j < |chain|
    ensures IsCurrent(client.wire, FromValidated(client.wire, chain[i]), chain[j]) <==> i == j
  {
    hide IsChain, Validate, ManifestHash, KeyOf, ValidUtf8;
    ChainRevisions(client, author, chain, i);
    ChainRevisions(client, author, chain, j);
  }

  function Writes(chain: seq<SealedRecord>, p: ValidationPolicy): (r: seq<Write>)
    ensures |r| == |chain|
  {
    seq(|chain|, i requires 0 <= i < |chain| => Direct(chain[i], p))
  }

  /** A relay given a chain in order accepts every record and ends with the last. */
  lemma {:induction false} RelayFollowsChain(client: Client, author: Author, chain: seq<SealedRecord>, n: nat)
    requires IsChain(client, author, chain) && n < |chain|
    ensures var p := PolicyFor(author.publicKey);
      var w := Writes(chain, p);
      && Answer(client.wire, p, At(client.wire, p, map[], w, n), w[n]).Done?
      && At(client.wire, p, map[], w, n + 1) == map[KeyOf(chain[0]) := chain[n]]
  {
    hide IsChain, Validate, ManifestHash, KeyOf, ValidUtf8, At, Links, Advances;
    var p := PolicyFor(author.publicKey);
    var w := Writes(chain, p);
    ChainRevisions(client, author, chain, n);
    AtStep(client.wire, p, map[], w, n);
    if n == 0 {
      NothingWritten(client.wire, p, w);
    } else {
      RelayFollowsChain(client, author, chain, n - 1);
      ChainRevisions(client, author, chain, n - 1);
      LinkAt(client, author, chain, n - 1);
      RelayAcceptsChild(client, author, At(client.wire, p, map[], w, n), chain[n - 1], chain[n]);
    }
  }

  lemma NothingWritten(c: Crypto, p: ValidationPolicy, w: seq<Write>)
    ensures At(c, p, map[], w, 0) == map[]
  {
  }

  /** Replaying any record of the chain after a later one is refused as stale. */
  lemma RelayRefusesReplay(client: Client, author: Author, chain: seq<SealedRecord>, i: nat, j: nat)
    requires IsChain(client, author, chain) && i <= j < |chain|
    ensures PutOutcome(client.wire, PolicyFor(author.publicKey), map[KeyOf(chain[0]) := chain[j]], chain[i])
         == Refused(StaleWrite(chain[j].context.version, chain[i].context.version))
  {
    hide IsChain, Validate, ManifestHash, KeyOf, ValidUtf8;
    ChainRevisions(client, author, chain, i);
    ChainRevisions(client, author, chain, j);
    ChainMonotone(client, author, chain, i, j);
  }
}
