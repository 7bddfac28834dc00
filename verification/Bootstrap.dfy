/** Cold-start bundles: their consistency check, and the durable state machine that applies
    them to a data directory.

    What other crates decide (BLS certificates, peer bindings, the contents of the embedded
    streams) and the payload digest are parameters, gathered in `Oracles`. */
module Bootstrap {
  import opened Hashing

  type u64 = x: nat | x < 0x1_0000_0000_0000_0000

  const U64_MAX: u64 := 0xFFFF_FFFF_FFFF_FFFF
  const BUNDLE_VERSION := 1
  const SNAPSHOT_VERSION := 5
  const MAX_WATERMARK_AHEAD := 128

  datatype Qc = Qc(view: u64, blockHash: Hash, evidence: seq<byte>)

  datatype Validator = Validator(address: seq<byte>, publicKey: seq<byte>, peerId: Option<seq<byte>>)

  datatype Snapshot = Snapshot(
    version: nat,
    currentView: u64,
    lockedQc: Qc,
    lastCommittedQc: Qc,
    consecutiveTimeouts: nat,
    committedBlockCount: u64,
    lastVotedView: u64,
    lastCommitVotedView: u64,
    epochValidators: Option<(nat, seq<Validator>, nat)>,
    executionHeadView: u64,
    executionHeadHash: Hash)

  datatype Payload = Payload(
    formatVersion: nat,
    sequence: u64,
    replayNonce: Hash,
    issuedAt: u64,
    chainId: u64,
    genesisHash: Hash,
    checkpointBlock: u64,
    checkpointHash: Hash,
    checkpointRoot: Hash,
    commitQc: Qc,
    lockedQc: Qc,
    nextView: u64,
    validators: seq<Validator>,
    faultTolerance: nat,
    lastExecutionView: u64,
    genesisRange: seq<byte>,
    finalizedRange: seq<byte>,
    qmdbCheckpoint: seq<byte>)

  datatype Bundle = Bundle(payload: Payload, digest: Hash)

  datatype RangeInfo = RangeInfo(fromBlock: u64, toBlock: u64, lastHash: Hash, lastRoot: Hash)
  datatype CheckpointInfo = CheckpointInfo(number: u64, hash: Hash, root: Hash)

  datatype Config = Config(chainId: u64, genesisHash: Hash, validators: seq<Validator>, faultTolerance: nat)

  /** Decisions taken outside this file. */
  datatype Oracles = Oracles(
    digest: Payload -> Hash,
    peersBound: seq<Validator> -> bool,
    setFormed: (seq<Validator>, nat) -> bool,
    commitQcValid: (Qc, Config) -> bool,
    anyQcValid: (Qc, Config) -> bool,
    readRange: (seq<byte>, Config) -> Option<RangeInfo>,
    readCheckpoint: (seq<byte>, Config) -> Option<CheckpointInfo>)

  datatype Error =
    | UnsupportedVersion
    | DigestMismatch
    | MissingReplayProtection
    | ChainIdentityMismatch
    | IncompleteCheckpoint
    | ValidatorSetMismatch
    | PeerBindings
    | InconsistentConsensus
    | InvalidCommitQc
    | InvalidLockedQc
    | InvalidArtifacts
    | InvalidSnapshot
    | NewerSequence
    | SequenceReused
    | NewerSnapshot
    | SameViewConflict

  datatype Result<+T> = Ok(value: T) | Err(error: Error)

  // --------------------------------------------------------------- snapshots

  function SaturatingAdd(a: u64, b: u64): u64 {
    if a + b > U64_MAX then U64_MAX else a + b
  }

  /** `ConsensusSnapshot::validate`, for snapshots without a staged epoch transition. */
  predicate Validates(s: Snapshot) {
    && s.lockedQc.view <= s.currentView
    && s.lastCommittedQc.view <= s.lockedQc.view
    && s.lastVotedView <= SaturatingAdd(s.currentView, MAX_WATERMARK_AHEAD)
    && s.lastCommitVotedView <= SaturatingAdd(s.currentView, MAX_WATERMARK_AHEAD)
  }

  const OLDEST_SNAPSHOT_VERSION := 2

  /** `load_consensus_state`: a snapshot from before version 5 did not tell the two kinds of vote
      apart, so its commit vote is taken to be as late as its other vote. */
  function Loaded(s: Snapshot): Option<Snapshot> {
    if s.version < OLDEST_SNAPSHOT_VERSION then None
    else
      var t := if s.version < SNAPSHOT_VERSION && s.lastCommitVotedView < s.lastVotedView
               then s.(lastCommitVotedView := s.lastVotedView) else s;
      if Validates(t) then Some(t) else None
  }

  /** A snapshot as `verify` and the running node make them. */
  predicate Current(s: Snapshot) {
    s.version == SNAPSHOT_VERSION && Validates(s)
  }

  /** Which snapshots load, and as what: from version 2 on, with certificates that do not run ahead
      of each other or of the current view, and with both votes at most 128 views ahead of it.  That
      the sum saturates makes no difference. */
  lemma {:induction false} LoadedExactly(s: Snapshot)
    ensures Loaded(s).Some? <==>
              && s.version >= 2 && s.lastCommittedQc.view <= s.lockedQc.view <= s.currentView
              && s.lastVotedView <= s.currentView + 128 && s.lastCommitVotedView <= s.currentView + 128
    ensures Loaded(s).Some? && s.version >= 5 ==> Loaded(s).value == s
    ensures Loaded(s).Some? && s.version < 5 ==>
              Loaded(s).value == s.(lastCommitVotedView := if s.lastVotedView <= s.lastCommitVotedView
                                                           then s.lastCommitVotedView else s.lastVotedView)
  {
  }

  /** Loading settles a snapshot and lowers nothing in it. */
  lemma {:induction false} LoadedAgain(s: Snapshot)
    requires Loaded(s).Some?
    ensures Loaded(Loaded(s).value) == Loaded(s) && Validates(Loaded(s).value)
    ensures s.lastVotedView == Loaded(s).value.lastVotedView
    ensures s.lastCommitVotedView <= Loaded(s).value.lastCommitVotedView
    ensures Current(s) ==> Loaded(s).value == s
  {
  }

  /** `same_validators`. */
  predicate SameValidators(a: seq<Validator>, b: seq<Validator>) {
    |a| == |b| && forall i :: 0 <= i < |a| ==>
      a[i].address == b[i].address && a[i].publicKey == b[i].publicKey && a[i].peerId == b[i].peerId
  }

  // ------------------------------------------------------------------ verify

  function SnapshotOf(p: Payload): Snapshot {
    Snapshot(SNAPSHOT_VERSION, p.nextView, p.lockedQc, p.commitQc, 0, p.checkpointBlock, p.lockedQc.view,
             p.lockedQc.view, Some((0, p.validators, p.faultTolerance)), p.lastExecutionView, p.checkpointHash)
  }

  /** `verify_execution_artifacts`. */
  predicate ArtifactsValid(o: Oracles, c: Config, p: Payload) {
    var qmdb := o.readCheckpoint(p.qmdbCheckpoint, c);
    var range := o.readRange(p.finalizedRange, c);
    var genesis := o.readRange(p.genesisRange, c);
    && qmdb.Some? && range.Some? && genesis.Some?
    && genesis.value.fromBlock == 0 && genesis.value.toBlock == 0
    && range.value == RangeInfo(1, p.checkpointBlock, p.checkpointHash, p.checkpointRoot)
    && qmdb.value == CheckpointInfo(p.checkpointBlock, p.checkpointHash, p.checkpointRoot)
  }

  /** `Gov5BootstrapBundle::verify`. */
  function Verify(o: Oracles, c: Config, b: Bundle): Result<Snapshot> {
    var p := b.payload;
    if p.formatVersion != BUNDLE_VERSION then Err(UnsupportedVersion)
    else if o.digest(p) != b.digest then Err(DigestMismatch)
    else if p.sequence == 0 || p.replayNonce == EMPTY_HASH then Err(MissingReplayProtection)
    else if p.chainId != c.chainId || p.genesisHash != c.genesisHash then Err(ChainIdentityMismatch)
    else if p.checkpointBlock == 0 || p.checkpointHash == EMPTY_HASH || p.checkpointRoot == EMPTY_HASH
         || p.genesisRange == [] || p.finalizedRange == [] || p.qmdbCheckpoint == [] then Err(IncompleteCheckpoint)
    else if !SameValidators(p.validators, c.validators) || p.faultTolerance != c.faultTolerance
      then Err(ValidatorSetMismatch)
    else if !o.peersBound(p.validators) || !o.setFormed(p.validators, p.faultTolerance) then Err(PeerBindings)
    else if p.commitQc.blockHash != p.checkpointHash || p.commitQc.view != p.lastExecutionView
         || p.lockedQc.view < p.commitQc.view || p.nextView <= p.lockedQc.view then Err(InconsistentConsensus)
    else if !o.commitQcValid(p.commitQc, c) then Err(InvalidCommitQc)
    else if p.lockedQc != p.commitQc && !o.anyQcValid(p.lockedQc, c) then Err(InvalidLockedQc)
    else if !ArtifactsValid(o, c, p) then Err(InvalidArtifacts)
    else if !Validates(SnapshotOf(p)) then Err(InvalidSnapshot)
    else Ok(SnapshotOf(p))
  }

  /** The closing validation of `verify` can never be what rejects a bundle. */
  lemma {:induction false} VerifyNeverInvalid(o: Oracles, c: Config, b: Bundle)
    ensures Verify(o, c, b) != Err(InvalidSnapshot)
  {
  }

  /** Two payloads that show that the digest is not injective. */
  predicate Collides(o: Oracles, x: Payload, y: Payload) {
    x != y && o.digest(x) == o.digest(y)
  }

  // ------------------------------------------------------ what bundles are taken

  /** Same addresses, keys and peers, in order. */
  ghost predicate ListedAlike(a: seq<Validator>, b: seq<Validator>) {
    |a| == |b| && forall i :: 0 <= i < |a| ==> a[i] == b[i]
  }

  /** The bundle is for this chain, its validators and its fault tolerance. */
  ghost predicate ForChain(c: Config, p: Payload) {
    && p.chainId == c.chainId && p.genesisHash == c.genesisHash
    && ListedAlike(p.validators, c.validators) && p.faultTolerance == c.faultTolerance
  }

  /** The certificates form one monotonic state around the checkpoint, and are valid. */
  ghost predicate CertificatesGood(o: Oracles, c: Config, p: Payload) {
    && p.commitQc.blockHash == p.checkpointHash && p.commitQc.view == p.lastExecutionView
    && p.commitQc.view <= p.lockedQc.view < p.nextView
    && o.commitQcValid(p.commitQc, c) && (p.lockedQc == p.commitQc || o.anyQcValid(p.lockedQc, c))
  }

  /** The three streams are there; they are block 0, the blocks from 1 to the checkpoint, and the
      state at the checkpoint, which they agree on. */
  ghost predicate ArtifactsGood(o: Oracles, c: Config, p: Payload) {
    var genesis, range, state :=
      o.readRange(p.genesisRange, c), o.readRange(p.finalizedRange, c), o.readCheckpoint(p.qmdbCheckpoint, c);
    && |p.genesisRange| > 0 && |p.finalizedRange| > 0 && |p.qmdbCheckpoint| > 0
    && genesis.Some? && genesis.value.fromBlock == 0 == genesis.value.toBlock
    && range.Some? && range.value.fromBlock == 1 && range.value.toBlock == p.checkpointBlock
    && range.value.lastHash == p.checkpointHash && range.value.lastRoot == p.checkpointRoot
    && state.Some? && state.value.number == p.checkpointBlock
    && state.value.hash == p.checkpointHash && state.value.root == p.checkpointRoot
  }

  /** All that a bundle has to satisfy. */
  ghost predicate Admissible(o: Oracles, c: Config, b: Bundle) {
    var p := b.payload;
    && p.formatVersion == 1 && b.digest == o.digest(p)
    && p.sequence > 0 && p.replayNonce != seq(32, _ => 0)
    && ForChain(c, p) && o.peersBound(p.validators) && o.setFormed(p.validators, p.faultTolerance)
    && p.checkpointBlock > 0 && p.checkpointHash != seq(32, _ => 0) && p.checkpointRoot != seq(32, _ => 0)
    && CertificatesGood(o, c, p) && ArtifactsGood(o, c, p)
  }

  /** The snapshot that it leaves: at the view after the lock, with the checkpoint committed and
      executed, and with no vote left to cast up to the lock. */
  ghost predicate StartsFrom(p: Payload, s: Snapshot) {
    && s.version == 5 && s.currentView == p.nextView
    && s.lockedQc == p.lockedQc && s.lastCommittedQc == p.commitQc
    && s.consecutiveTimeouts == 0 && s.committedBlockCount == p.checkpointBlock
    && s.lastVotedView == p.lockedQc.view == s.lastCommitVotedView
    && s.epochValidators == Some((0, p.validators, p.faultTolerance))
    && s.executionHeadView == p.lastExecutionView && s.executionHeadHash == p.checkpointHash
  }

  /** Exactly the admissible bundles verify, and they leave that snapshot. */
  lemma {:induction false} VerifiedExactly(o: Oracles, c: Config, b: Bundle)
    ensures Verify(o, c, b).Ok? <==> Admissible(o, c, b)
    ensures Verify(o, c, b).Ok? ==> StartsFrom(b.payload, Verify(o, c, b).value)
  {
    assert EMPTY_HASH == seq(32, _ => 0);
    SameIsAlike(b.payload.validators, c.validators);
    ArtifactsExactly(o, c, b.payload);
  }

  lemma {:induction false} SameIsAlike(a: seq<Validator>, b: seq<Validator>)
    ensures SameValidators(a, b) <==> ListedAlike(a, b)
  {
  }

  lemma {:induction false} ArtifactsExactly(o: Oracles, c: Config, p: Payload)
    ensures |p.genesisRange| > 0 && |p.finalizedRange| > 0 && |p.qmdbCheckpoint| > 0 ==>
              (ArtifactsValid(o, c, p) <==> ArtifactsGood(o, c, p))
  {
  }

  // ------------------------------------------------------------- materialize

  datatype Receipt = Receipt(
    formatVersion: nat,
    sequence: u64,
    replayNonce: Hash,
    digest: Hash,
    checkpointBlock: u64,
    checkpointHash: Hash,
    checkpointRoot: Hash)

  /** The five files of a data directory. */
  datatype Disk = Disk(
    receipt: Option<Receipt>,
    snapshot: Option<Snapshot>,
    genesisRange: Option<seq<byte>>,
    finalizedRange: Option<seq<byte>>,
    qmdbCheckpoint: Option<seq<byte>>)

  const NO_FILES := Disk(None, None, None, None, None)

  function ReceiptOf(b: Bundle): Receipt {
    Receipt(BUNDLE_VERSION, b.payload.sequence, b.payload.replayNonce, b.digest,
            b.payload.checkpointBlock, b.payload.checkpointHash, b.payload.checkpointRoot)
  }

  /** The receipt is this very bundle's. */
  predicate SameBundle(r: Receipt, b: Bundle) {
    r.sequence == b.payload.sequence && r.digest == b.digest && r.replayNonce == b.payload.replayNonce
  }

  /** The persisted snapshot is ahead of the bundle's in one of the compared components. */
  predicate Ahead(existing: Snapshot, s: Snapshot) {
    || existing.currentView > s.currentView
    || existing.lastCommittedQc.view > s.lastCommittedQc.view
    || existing.committedBlockCount > s.committedBlockCount
  }

  predicate Conflicts(existing: Snapshot, s: Snapshot) {
    && existing.currentView == s.currentView
    && (existing.lastCommittedQc.blockHash != s.lastCommittedQc.blockHash
        || existing.executionHeadHash != s.executionHeadHash)
  }

  /** Whether a directory takes a bundle, and which snapshot it then keeps. */
  function Decide(d: Disk, b: Bundle, s: Snapshot): Result<Snapshot> {
    if d.receipt.Some? && d.receipt.value.sequence > b.payload.sequence then Err(NewerSequence)
    else if d.receipt.Some? && d.receipt.value.sequence == b.payload.sequence && !SameBundle(d.receipt.value, b)
      then Err(SequenceReused)
    else if d.snapshot.None? then Ok(s)
    else
      var existing := Loaded(d.snapshot.value);
      if existing.None? then Err(InvalidSnapshot)
      else if Ahead(existing.value, s) then
        if d.receipt.Some? && SameBundle(d.receipt.value, b) then Ok(existing.value) else Err(NewerSnapshot)
      else if Conflicts(existing.value, s) then Err(SameViewConflict)
      else Ok(s)
  }

  const WRITES := 5

  /** The directory after the first `k` of the five atomic writes. */
  function AfterWrites(d: Disk, b: Bundle, s: Snapshot, k: nat): Disk {
    Disk(
      if k >= 5 then Some(ReceiptOf(b)) else d.receipt,
      if k >= 4 then Some(s) else d.snapshot,
      if k >= 1 then Some(b.payload.genesisRange) else d.genesisRange,
      if k >= 2 then Some(b.payload.finalizedRange) else d.finalizedRange,
      if k >= 3 then Some(b.payload.qmdbCheckpoint) else d.qmdbCheckpoint)
  }

  datatype Outcome = Done(snapshot: Snapshot) | Crashed | Failed(error: Error)

  class DataDir {
    var receipt: Option<Receipt>
    var snapshot: Option<Snapshot>
    var genesisRange: Option<seq<byte>>
    var finalizedRange: Option<seq<byte>>
    var qmdbCheckpoint: Option<seq<byte>>

    function Contents(): Disk
      reads this
    {
      Disk(receipt, snapshot, genesisRange, finalizedRange, qmdbCheckpoint)
    }

    constructor ()
      ensures Contents() == NO_FILES
    {
      receipt, snapshot, genesisRange, finalizedRange, qmdbCheckpoint := None, None, None, None, None;
    }

    /** `materialize`.  The process dies after `fuse` durable writes, if it gets that far; a
        fuse of five or more lets it finish.  A rejected bundle changes nothing; a snapshot that
        does not validate is refused by its own write, after the three assets. */
    method Materialize(b: Bundle, s: Snapshot, fuse: nat) returns (r: Outcome)
      modifies this
      ensures
        match Decide(old(Contents()), b, s)
        case Err(e) => r == Failed(e) && Contents() == old(Contents())
        case Ok(effective) =>
          if Validates(effective) then
            && r == (if fuse < WRITES then Crashed else Done(effective))
            && Contents() == AfterWrites(old(Contents()), b, effective, fuse)
          else
            && r == (if fuse <= 3 then Crashed else Failed(InvalidSnapshot))
            && Contents() == AfterWrites(old(Contents()), b, effective, if fuse <= 3 then fuse else 3)
    {
      var sameBundle := false;
      if receipt.Some? {
        if receipt.value.sequence > b.payload.sequence {
          return Failed(NewerSequence);
        }
        if receipt.value.sequence == b.payload.sequence
           && (receipt.value.digest != b.digest || receipt.value.replayNonce != b.payload.replayNonce) {
          return Failed(SequenceReused);
        }
        sameBundle := receipt.value.sequence == b.payload.sequence && receipt.value.digest == b.digest
                      && receipt.value.replayNonce == b.payload.replayNonce;
      }
      var effective := s;
      if snapshot.Some? {
        var loaded := Loaded(snapshot.value);
        if loaded.None? {
          return Failed(InvalidSnapshot);
        }
        var existing := loaded.value;
        if existing.currentView > s.currentView
           || existing.lastCommittedQc.view > s.lastCommittedQc.view
           || existing.committedBlockCount > s.committedBlockCount {
          if sameBundle {
            effective := existing;
          } else {
            return Failed(NewerSnapshot);
          }
        } else if existing.currentView == s.currentView
                  && (existing.lastCommittedQc.blockHash != s.lastCommittedQc.blockHash
                      || existing.executionHeadHash != s.executionHeadHash) {
          return Failed(SameViewConflict);
        }
      }
      if fuse == 0 { return Crashed; }
      genesisRange := Some(b.payload.genesisRange);
      if fuse == 1 { return Crashed; }
      finalizedRange := Some(b.payload.finalizedRange);
      if fuse == 2 { return Crashed; }
      qmdbCheckpoint := Some(b.payload.qmdbCheckpoint);
      if fuse == 3 { return Crashed; }
      if !Validates(effective) {
        return Failed(InvalidSnapshot);
      }
      snapshot := Some(effective);
      if fuse == 4 { return Crashed; }
      receipt := Some(ReceiptOf(b));
      return Done(effective);
    }

    /** Verify a bundle and materialize it: one `Apply` of the runs below. */
    method ApplyBundle(o: Oracles, c: Config, b: Bundle, fuse: nat) returns (r: Outcome)
      modifies this
      ensures Contents() == After(o, c, old(Contents()), Apply(b, fuse))
      ensures r == match Accepted(o, c, old(Contents()), b)
                   case Err(e) => Failed(e)
                   case Ok(effective) => if fuse < WRITES then Crashed else Done(effective)
      ensures !Admissible(o, c, b) ==> r.Failed? && Contents() == old(Contents())
      ensures old(Contents()) == NO_FILES && Admissible(o, c, b) && fuse >= WRITES ==>
                && r.Done? && StartsFrom(b.payload, r.snapshot) && snapshot == Some(r.snapshot)
                && genesisRange == Some(b.payload.genesisRange) && finalizedRange == Some(b.payload.finalizedRange)
                && qmdbCheckpoint == Some(b.payload.qmdbCheckpoint)
                && receipt == Some(Receipt(1, b.payload.sequence, b.payload.replayNonce, b.digest,
                     b.payload.checkpointBlock, b.payload.checkpointHash, b.payload.checkpointRoot))
    {
      VerifiedExactly(o, c, b);
      var verified := Verify(o, c, b);
      if verified.Err? {
        return Failed(verified.error);
      }
      if Accepted(o, c, Contents(), b).Ok? { AcceptedValidates(o, c, Contents(), b); }
      r := Materialize(b, verified.value, fuse);
    }

    /** A whole run: bundles, crashes and the node's own snapshots. */
    method Run(o: Oracles, c: Config, es: seq<Event>)
      modifies this
      ensures Contents() == AfterRun(o, c, old(Contents()), es)
    {
      for i := 0 to |es|
        invariant AfterRun(o, c, Contents(), es[i..]) == AfterRun(o, c, old(Contents()), es)
      {
        assert es[i..][1..] == es[i + 1..];
        match es[i] {
          case Apply(b, fuse) =>
            var _ := ApplyBundle(o, c, b, fuse);
          case Progress(n) =>
            snapshot := Some(n);
        }
      }
    }

    /** The same bundle again and again, until it gets through. */
    method Retry(o: Oracles, c: Config, b: Bundle, fuses: seq<nat>)
      modifies this
      ensures Accepted(o, c, old(Contents()), b).Ok? && fuses != [] && fuses[|fuses| - 1] >= WRITES ==>
                Contents() == AfterWrites(old(Contents()), b, Accepted(o, c, old(Contents()), b).value, WRITES)
    {
      Run(o, c, Applies(b, fuses));
      if Accepted(o, c, old(Contents()), b).Ok? {
        AcceptedValidates(o, c, old(Contents()), b);
        AttemptsAreRuns(o, c, old(Contents()), b, fuses);
        if fuses != [] && fuses[|fuses| - 1] >= WRITES {
          RetriesConverge(old(Contents()), b, Verify(o, c, b).value, fuses);
        }
      }
    }
  }

  // ------------------------------------------------------- crash convergence

  /** After a crash at any write, the same bundle is accepted again with the same snapshot, and
      finishing it gives the disk of the uninterrupted run. */
  lemma {:induction false} CrashConverges(d: Disk, b: Bundle, s: Snapshot, k: nat)
    requires Current(s) && Decide(d, b, s).Ok?
    ensures
      var effective := Decide(d, b, s).value;
      var crashed := AfterWrites(d, b, effective, k);
      && Decide(crashed, b, s) == Ok(effective)
      && forall n: nat :: AfterWrites(crashed, b, effective, n) ==
                            AfterWrites(d, b, effective, if n < k then k else n)
  {
  }

  /** Any number of crashed attempts followed by a complete one. */
  function Attempts(d: Disk, b: Bundle, s: Snapshot, fuses: seq<nat>): Disk
    decreases |fuses|
  {
    if fuses == [] then d
    else
      var next := match Decide(d, b, s)
                  case Err(_) => d
                  case Ok(effective) => AfterWrites(d, b, effective, fuses[0]);
      Attempts(next, b, s, fuses[1..])
  }

  lemma {:induction false} RetriesConverge(d: Disk, b: Bundle, s: Snapshot, fuses: seq<nat>)
    requires Current(s) && Decide(d, b, s).Ok?
    requires fuses != [] && fuses[|fuses| - 1] >= WRITES
    ensures Attempts(d, b, s, fuses) == AfterWrites(d, b, Decide(d, b, s).value, WRITES)
    decreases |fuses|
  {
    var effective := Decide(d, b, s).value;
    CrashConverges(d, b, s, fuses[0]);
    if |fuses| > 1 {
      RetriesConverge(AfterWrites(d, b, effective, fuses[0]), b, s, fuses[1..]);
    } else {
      assert fuses[1..] == [];
    }
  }

  /** If the node runs and advances its snapshot to `n` before the bundle is re-applied, then
      what decides is whether the receipt had been written: with it, being ahead is fine; without
      it, being ahead is a rejection. */
  lemma {:induction false} RestartAfterProgress(d: Disk, b: Bundle, s: Snapshot, k: nat, n: Snapshot)
    requires Decide(d, b, s).Ok?
    ensures
      var restarted := AfterWrites(d, b, Decide(d, b, s).value, k).(snapshot := Some(n));
      var receipted := k >= WRITES || (d.receipt.Some? && SameBundle(d.receipt.value, b));
      Decide(restarted, b, s).Ok? <==> Loaded(n).Some? && if Ahead(n, s) then receipted else !Conflicts(n, s)
  {
  }

  // -------------------------------------------------------------- whole runs

  datatype Event =
    /** Verify and materialize a bundle, dying after `fuse` writes. */
    | Apply(bundle: Bundle, fuse: nat)
    /** The running node persists a snapshot of its own. */
    | Progress(snapshot: Snapshot)

  /** The three persisted components that are compared do not go down. */
  predicate NotBehind(before: Snapshot, after: Snapshot) {
    && before.currentView <= after.currentView
    && before.lastCommittedQc.view <= after.lastCommittedQc.view
    && before.committedBlockCount <= after.committedBlockCount
  }

  /** The node itself only moves forward, and saves only valid snapshots of the current version. */
  predicate Possible(d: Disk, e: Event) {
    e.Progress? ==> Current(e.snapshot) && (d.snapshot.Some? ==> NotBehind(d.snapshot.value, e.snapshot))
  }

  function Accepted(o: Oracles, c: Config, d: Disk, b: Bundle): Result<Snapshot> {
    match Verify(o, c, b)
    case Err(e) => Err(e)
    case Ok(s) => Decide(d, b, s)
  }

  function After(o: Oracles, c: Config, d: Disk, e: Event): Disk {
    match e
    case Progress(s) => d.(snapshot := Some(s))
    case Apply(b, fuse) =>
      match Accepted(o, c, d, b)
      case Err(_) => d
      case Ok(effective) => AfterWrites(d, b, effective, fuse)
  }

  predicate PossibleRun(o: Oracles, c: Config, d: Disk, es: seq<Event>)
    decreases |es|
  {
    es != [] ==> Possible(d, es[0]) && PossibleRun(o, c, After(o, c, d, es[0]), es[1..])
  }

  function AfterRun(o: Oracles, c: Config, d: Disk, es: seq<Event>): Disk
    decreases |es|
  {
    if es == [] then d else AfterRun(o, c, After(o, c, d, es[0]), es[1..])
  }

  /** What never goes backwards on disk. */
  predicate Forward(d: Disk, d': Disk) {
    && (d.receipt.Some? ==>
          && d'.receipt.Some?
          && d.receipt.value.sequence <= d'.receipt.value.sequence
          && (d.receipt.value.sequence == d'.receipt.value.sequence ==>
                && d.receipt.value.digest == d'.receipt.value.digest
                && d.receipt.value.replayNonce == d'.receipt.value.replayNonce))
    && (d.snapshot.Some? ==> d'.snapshot.Some? && NotBehind(d.snapshot.value, d'.snapshot.value))
    && (d.snapshot.Some? && Validates(d.snapshot.value) ==> Validates(d'.snapshot.value))
  }

  lemma {:induction false} StepForward(o: Oracles, c: Config, d: Disk, e: Event)
    requires Possible(d, e)
    ensures Forward(d, After(o, c, d, e))
  {
  }

  /** Over every run of bundle applications, crashes and node progress, the receipt's sequence
      and the three compared snapshot components never decrease. */
  lemma {:induction false} RunForward(o: Oracles, c: Config, d: Disk, es: seq<Event>)
    requires PossibleRun(o, c, d, es)
    ensures Forward(d, AfterRun(o, c, d, es))
    decreases |es|
  {
    if es != [] {
      StepForward(o, c, d, es[0]);
      RunForward(o, c, After(o, c, d, es[0]), es[1..]);
    }
  }

  /** What a bundle leads to is a snapshot that can be saved. */
  lemma {:induction false} AcceptedValidates(o: Oracles, c: Config, d: Disk, b: Bundle)
    requires Accepted(o, c, d, b).Ok?
    ensures Verify(o, c, b).Ok? && Current(Verify(o, c, b).value) && Validates(Accepted(o, c, d, b).value)
  {
  }

  function Applies(b: Bundle, fuses: seq<nat>): seq<Event> {
    if fuses == [] then [] else [Apply(b, fuses[0])] + Applies(b, fuses[1..])
  }

  lemma {:induction false} AttemptsAreRuns(o: Oracles, c: Config, d: Disk, b: Bundle, fuses: seq<nat>)
    requires Verify(o, c, b).Ok?
    ensures AfterRun(o, c, d, Applies(b, fuses)) == Attempts(d, b, Verify(o, c, b).value, fuses)
    decreases |fuses|
  {
    if fuses != [] {
      assert Applies(b, fuses)[1..] == Applies(b, fuses[1..]);
      AttemptsAreRuns(o, c, After(o, c, d, Apply(b, fuses[0])), b, fuses[1..]);
    }
  }

  /** A sequence number is used for one bundle only: two applications that both reach their
      receipt, at any two points of a run, agree on digest and nonce. */
  lemma {:induction false} SequenceUsedOnce(o: Oracles, c: Config, d: Disk, a: Bundle, es: seq<Event>, b: Bundle)
    requires Accepted(o, c, d, a).Ok?
    requires
      var afterA := After(o, c, d, Apply(a, WRITES));
      PossibleRun(o, c, afterA, es) && Accepted(o, c, AfterRun(o, c, afterA, es), b).Ok?
    requires a.payload.sequence == b.payload.sequence
    ensures a.digest == b.digest && a.payload.replayNonce == b.payload.replayNonce
    ensures a.payload == b.payload || Collides(o, a.payload, b.payload)
  {
    RunForward(o, c, After(o, c, d, Apply(a, WRITES)), es);
  }

  // -------------------------------------------------------- one bundle or two

  /** `b` is behind `a` in one of the compared components. */
  predicate Behind(b: Payload, a: Payload) {
    a.nextView > b.nextView || a.commitQc.view > b.commitQc.view || a.checkpointBlock > b.checkpointBlock
  }

  /** Two checkpoints for one view. */
  predicate Forks(a: Payload, b: Payload) {
    a.nextView == b.nextView && a.checkpointHash != b.checkpointHash
  }

  /** `b` may follow `a`. */
  predicate Succeeds(b: Payload, a: Payload) {
    a.sequence < b.sequence && !Behind(b, a) && !Forks(a, b)
  }

  /** A directory filled by `a` takes `b` exactly if `b` is `a` again or may follow it, unless the
      digest collides on the two. */
  lemma {:induction false} SuccessorExact(o: Oracles, c: Config, a: Bundle, b: Bundle)
    requires Verify(o, c, a).Ok? && Verify(o, c, b).Ok? && !Collides(o, a.payload, b.payload)
    ensures Accepted(o, c, After(o, c, NO_FILES, Apply(a, WRITES)), b).Ok?
            <==> a.payload == b.payload || Succeeds(b.payload, a.payload)
  {
  }

  /** Receipt and assets are those of `b`. */
  predicate FilesOf(d: Disk, b: Bundle) {
    && d.receipt == Some(ReceiptOf(b)) && d.genesisRange == Some(b.payload.genesisRange)
    && d.finalizedRange == Some(b.payload.finalizedRange) && d.qmdbCheckpoint == Some(b.payload.qmdbCheckpoint)
  }

  /** Once a bundle is through, receipt and assets are its own; the snapshot is too, exactly if the
      one on disk before was not ahead of it. */
  lemma {:induction false} DoneFiles(o: Oracles, c: Config, d: Disk, b: Bundle)
    requires Accepted(o, c, d, b).Ok?
    ensures
      var d' := After(o, c, d, Apply(b, WRITES));
      var s := SnapshotOf(b.payload);
      && FilesOf(d', b)
      && (d'.snapshot == Some(s) <==> d.snapshot.None? || !Ahead(d.snapshot.value, s))
      && (d'.snapshot != Some(s) ==>
            d'.snapshot == Loaded(d.snapshot.value) && d.receipt.Some? && SameBundle(d.receipt.value, b))
  {
  }

  /** Apply `a`, crash in its successor `b` after the snapshot was written, apply `a` again: it goes
      through, with the snapshot of `b` if that is ahead, over receipt and assets of `a`. */
  lemma {:induction false} OlderBundleAgain(o: Oracles, c: Config, a: Bundle, b: Bundle)
    requires Verify(o, c, a).Ok? && Verify(o, c, b).Ok? && Succeeds(b.payload, a.payload)
    ensures
      var run := [Apply(a, WRITES), Apply(b, WRITES - 1), Apply(a, WRITES)];
      var crashed := AfterRun(o, c, NO_FILES, run[..2]);
      var d := AfterRun(o, c, NO_FILES, run);
      && PossibleRun(o, c, NO_FILES, run) && Accepted(o, c, crashed, a).Ok? && FilesOf(d, a)
      && d.snapshot == Some(SnapshotOf(if Behind(a.payload, b.payload) then b.payload else a.payload))
  {
    var run := [Apply(a, WRITES), Apply(b, WRITES - 1), Apply(a, WRITES)];
    var first := After(o, c, NO_FILES, run[0]);
    var second := After(o, c, first, run[1]);
    assert run[..2] == [run[0], run[1]];
    ThreeSteps(o, c, NO_FILES, run[0], run[1], run[2]);
    assert first == AfterWrites(NO_FILES, a, SnapshotOf(a.payload), WRITES);
    assert second == AfterWrites(first, b, SnapshotOf(b.payload), WRITES - 1);
  }

  lemma {:induction false} ThreeSteps(o: Oracles, c: Config, d: Disk, x: Event, y: Event, z: Event)
    ensures AfterRun(o, c, d, [x, y]) == After(o, c, After(o, c, d, x), y)
    ensures AfterRun(o, c, d, [x, y, z]) == After(o, c, After(o, c, After(o, c, d, x), y), z)
    ensures PossibleRun(o, c, d, [x, y, z]) <==>
              && Possible(d, x) && Possible(After(o, c, d, x), y)
              && Possible(After(o, c, After(o, c, d, x), y), z)
  {
    var d1 := After(o, c, d, x);
    var d2 := After(o, c, d1, y);
    assert [x, y, z][1..] == [y, z] && [y, z][1..] == [z] && [z][1..] == [] && [x, y][1..] == [y] && [y][1..] == [];
    assert AfterRun(o, c, d2, [z]) == After(o, c, d2, z);
    assert AfterRun(o, c, d1, [y, z]) == After(o, c, d2, z);
    assert AfterRun(o, c, d1, [y]) == d2;
    assert PossibleRun(o, c, d2, [z]) <==> Possible(d2, z);
    assert PossibleRun(o, c, d1, [y, z]) <==> Possible(d1, y) && Possible(d2, z);
  }

  /** The receipt on disk, if there is one, is that of the verified bundle `a`, assets were written,
      and the snapshot is not behind the checkpoint of `a`. */
  predicate Covered(o: Oracles, c: Config, d: Disk, a: Option<Bundle>) {
    match a
    case None => d.receipt.None?
    case Some(b) =>
      && Verify(o, c, b).Ok? && d.receipt == Some(ReceiptOf(b))
      && d.genesisRange.Some? && d.finalizedRange.Some? && d.qmdbCheckpoint.Some?
      && d.snapshot.Some? && NotBehind(SnapshotOf(b.payload), d.snapshot.value)
  }

  /** The bundle whose receipt is on disk after a step. */
  function Holder(o: Oracles, c: Config, d: Disk, a: Option<Bundle>, e: Event): Option<Bundle> {
    if e.Apply? && Accepted(o, c, d, e.bundle).Ok? && e.fuse >= WRITES then Some(e.bundle) else a
  }

  /** After a run: the last bundle that went through, or the one before the run. */
  function HolderAfter(o: Oracles, c: Config, d: Disk, a: Option<Bundle>, es: seq<Event>): Option<Bundle>
    decreases |es|
  {
    if es == [] then a else HolderAfter(o, c, After(o, c, d, es[0]), Holder(o, c, d, a, es[0]), es[1..])
  }

  /** A bundle applied over the receipt of another with the same digest. */
  predicate Clashes(o: Oracles, a: Option<Bundle>, e: Event) {
    a.Some? && e.Apply? && Collides(o, a.value.payload, e.bundle.payload)
  }

  lemma {:induction false} CoveredStep(o: Oracles, c: Config, d: Disk, a: Option<Bundle>, e: Event)
    requires Covered(o, c, d, a) && Possible(d, e) && !Clashes(o, a, e)
    ensures Covered(o, c, After(o, c, d, e), Holder(o, c, d, a, e))
  {
    StepForward(o, c, d, e);
    if Holder(o, c, d, a, e) != a {
      ThroughCovers(o, c, d, a, e.bundle);
    }
  }

  lemma {:induction false} ThroughCovers(o: Oracles, c: Config, d: Disk, a: Option<Bundle>, b: Bundle)
    requires Covered(o, c, d, a) && Accepted(o, c, d, b).Ok?
    requires a.Some? ==> !Collides(o, a.value.payload, b.payload)
    ensures NotBehind(SnapshotOf(b.payload), Accepted(o, c, d, b).value)
  {
  }

  /** At some step of the run a bundle is applied while the directory holds the receipt of another
      one, of this run or from before it, with the same digest. */
  predicate ClashInRun(o: Oracles, c: Config, d: Disk, a: Option<Bundle>, es: seq<Event>)
    decreases |es|
  {
    es != [] && (Clashes(o, a, es[0])
                 || ClashInRun(o, c, After(o, c, d, es[0]), Holder(o, c, d, a, es[0]), es[1..]))
  }

  /** Over every run the receipt is that of the last bundle that went through, the snapshot never
      falls behind its checkpoint, and the receipt never comes before its assets, unless in this very
      run a bundle is applied over the receipt of another one with the same digest. */
  lemma {:induction false} ReceiptCovered(o: Oracles, c: Config, d: Disk, a: Option<Bundle>, es: seq<Event>)
    requires Covered(o, c, d, a) && PossibleRun(o, c, d, es)
    ensures Covered(o, c, AfterRun(o, c, d, es), HolderAfter(o, c, d, a, es)) || ClashInRun(o, c, d, a, es)
    decreases |es|
  {
    if es != [] && !Clashes(o, a, es[0]) {
      CoveredStep(o, c, d, a, es[0]);
      ReceiptCovered(o, c, After(o, c, d, es[0]), Holder(o, c, d, a, es[0]), es[1..]);
    }
  }

  /** The bundle behind the receipt. */
  ghost predicate ReceiptBy(o: Oracles, c: Config, d: Disk, a: Option<Bundle>) {
    match a
    case None => d.receipt.None?
    case Some(b) =>
      && Admissible(o, c, b)
      && d.receipt == Some(Receipt(1, b.payload.sequence, b.payload.replayNonce, b.digest,
                                   b.payload.checkpointBlock, b.payload.checkpointHash, b.payload.checkpointRoot))
  }

  /** Over every run, whatever the digest: a receipt is that of an admissible bundle, so one for the
      chain, the validators and the fault tolerance of the configuration. */
  lemma {:induction false} ReceiptIsForChain(o: Oracles, c: Config, d: Disk, a: Option<Bundle>, es: seq<Event>)
    requires ReceiptBy(o, c, d, a)
    ensures
      var a' := HolderAfter(o, c, d, a, es);
      ReceiptBy(o, c, AfterRun(o, c, d, es), a') && (a'.Some? ==> ForChain(c, a'.value.payload))
    decreases |es|
  {
    if es != [] {
      if es[0].Apply? { VerifiedExactly(o, c, es[0].bundle); }
      ReceiptIsForChain(o, c, After(o, c, d, es[0]), Holder(o, c, d, a, es[0]), es[1..]);
    }
  }

  predicate AppliedIn(es: seq<Event>, b: Bundle) {
    exists i :: 0 <= i < |es| && es[i].Apply? && es[i].bundle == b
  }

  predicate Known(a: Option<Bundle>, es: seq<Event>, b: Bundle) {
    a == Some(b) || AppliedIn(es, b)
  }

  /** Such a clash is between two payloads of the run, or between one and the bundle whose receipt was
      there before it. */
  lemma {:induction false} ClashIsKnown(o: Oracles, c: Config, d: Disk, a: Option<Bundle>, es: seq<Event>)
    returns (x: Bundle, y: Bundle)
    requires ClashInRun(o, c, d, a, es)
    ensures Collides(o, x.payload, y.payload) && Known(a, es, x) && AppliedIn(es, y)
    decreases |es|
  {
    if Clashes(o, a, es[0]) {
      x, y := a.value, es[0].bundle;
    } else {
      x, y := ClashIsKnown(o, c, After(o, c, d, es[0]), Holder(o, c, d, a, es[0]), es[1..]);
      var j :| 0 <= j < |es[1..]| && es[1..][j].Apply? && es[1..][j].bundle == y;
      assert es[j + 1].bundle == y;
      if AppliedIn(es[1..], x) {
        var i :| 0 <= i < |es[1..]| && es[1..][i].Apply? && es[1..][i].bundle == x;
        assert es[i + 1].bundle == x;
      } else if a != Some(x) {
        assert es[0].bundle == x;
      }
    }
  }

  // -------------------------------------------------- votes, locks and restarts

  /** Vote watermarks and lock are not among the compared components: applying a bundle lowers a
      persisted one exactly when the persisted snapshot is not ahead of the bundle in a compared
      component but is past it in this one. */
  lemma {:induction false} WatermarkLowered(d: Disk, b: Bundle, s: Snapshot)
    requires Validates(s) && d.snapshot.Some? && Decide(d, b, s).Ok?
    ensures
      var prior, next := d.snapshot.value, Decide(d, b, s).value;
      && (next.lastVotedView < prior.lastVotedView <==> !Ahead(prior, s) && s.lastVotedView < prior.lastVotedView)
      && (next.lastCommitVotedView < prior.lastCommitVotedView
          <==> !Ahead(prior, s) && s.lastCommitVotedView < prior.lastCommitVotedView)
      && (next.lockedQc.view < prior.lockedQc.view <==> !Ahead(prior, s) && s.lockedQc.view < prior.lockedQc.view)
  {
  }

  /** A node starts from a bundle, saves a snapshot `n` and restarts on the same bundle: it keeps
      `n` exactly if `n` is ahead in a compared component, or contradicts the bundle at its view, or
      is the bundle's own. */
  lemma {:induction false} RestartKeeps(o: Oracles, c: Config, b: Bundle, n: Snapshot)
    requires Verify(o, c, b).Ok? && Current(n) && NotBehind(Verify(o, c, b).value, n)
    ensures
      var s := Verify(o, c, b).value;
      var run := [Apply(b, WRITES), Progress(n), Apply(b, WRITES)];
      && PossibleRun(o, c, NO_FILES, run)
      && (AfterRun(o, c, NO_FILES, run).snapshot == Some(n) <==> Ahead(n, s) || Conflicts(n, s) || n == s)
      && (AfterRun(o, c, NO_FILES, run).snapshot != Some(n) ==> AfterRun(o, c, NO_FILES, run).snapshot == Some(s))
  {
    ThreeSteps(o, c, NO_FILES, Apply(b, WRITES), Progress(n), Apply(b, WRITES));
  }

  /** So a vote in the first view is forgotten by a restart from an empty directory on. */
  lemma {:induction false} WatermarkCanDrop(o: Oracles, c: Config, b: Bundle)
    requires Verify(o, c, b).Ok?
    ensures
      var s := Verify(o, c, b).value;
      var voted := s.(lastVotedView := s.currentView, lastCommitVotedView := s.currentView);
      var run := [Apply(b, WRITES), Progress(voted), Apply(b, WRITES)];
      var end := AfterRun(o, c, NO_FILES, run).snapshot;
      && PossibleRun(o, c, NO_FILES, run) && end.Some?
      && end.value.lastVotedView < voted.lastVotedView && end.value.lastCommitVotedView < voted.lastCommitVotedView
  {
    var s := Verify(o, c, b).value;
    RestartKeeps(o, c, b, s.(lastVotedView := s.currentView, lastCommitVotedView := s.currentView));
  }

  /** And so is a lock on a certificate of that view. */
  lemma {:induction false} LockCanGoBack(o: Oracles, c: Config, b: Bundle, qc: Qc)
    requires Verify(o, c, b).Ok? && qc.view == Verify(o, c, b).value.currentView
    ensures
      var locked := Verify(o, c, b).value.(lockedQc := qc);
      var run := [Apply(b, WRITES), Progress(locked), Apply(b, WRITES)];
      var end := AfterRun(o, c, NO_FILES, run).snapshot;
      PossibleRun(o, c, NO_FILES, run) && end.Some? && end.value.lockedQc.view < locked.lockedQc.view
  {
    RestartKeeps(o, c, b, Verify(o, c, b).value.(lockedQc := qc));
  }
}
