/** The commit engine as a state machine: commits in classic and write-back mode, flushes, the
    three-phase checkpoint that interleaves with them, replicated records that may stop part-way,
    and recovery after a crash at any point.

    `Next` is what one step does, whatever state it meets. The tree appears as the map it holds.
    The last fields of a state are for proofs only: `history` is the log as redo reads it, one
    record for each LSN, and everything else is stated against it. */
module EngineSteps {
  import opened Results
  import opened Keys
  import opened Stores
  import opened Overlays
  import opened Replay
  import opened Planning
  import opened WriteBack
  import opened Replicas
  import opened Lineage

  datatype EngineError = Poisoned | InvalidOp | TreeFailed | LogFailed

  /** How the write of a record ended: whole and acknowledged, failed without a trace, or failed
      although the record is in the file. */
  datatype LogOutcome = Written | Lost | WrittenButFailed

  /** When a commit's record reaches the file: written and synced, written, or held in memory
      until the next drain. */
  datatype Barrier = Immediate | Deferred | Held

  /** The durable checkpoint: a tree, and the LSN from which the log is replayed onto it. */
  datatype Manifest = Manifest(store: Store, lsn: nat)

  /** A checkpoint in progress. `begunAt` is how many records the files held when it began. */
  datatype Job =
    | Begun(snapshot: Store, lsn: nat, begunAt: nat)
    | Compacted(tree: Store, reached: nat)
    | Published(tree: Store)

  /** Where a replica's apply stopped: after `at` whole operations, and half the next one. */
  datatype Stall = Stall(at: nat, half: bool)

  /** The keys whose tombstones are missing from the tree, the manifest's tree and the job's. */
  datatype Missing = Missing(live: set<Key>, manifest: set<Key>, job: set<Key>)

  datatype State = State(
    // What a crash leaves: the first `flushed` records of the files, at least.
    manifest: Manifest, logStart: nat, log: seq<Record>, flushed: nat,
    // What a crash loses.
    pending: seq<Record>, appended: nat, synced: nat,
    tree: Store, writeBack: Option<Buffer>, absorbed: nat, lastLsn: nat, userLen: int, possible: bool,
    poisoned: bool, job: Option<Job>,
    // For proofs: the log as redo reads it, how far the manifest's tree and the job's tree have
    // come, what is missing from them, whether an apply has stopped part-way since the last open,
    // and whether the log has left the history: a record was logged under an LSN already given to
    // another, or by a commit that was misled.
    history: seq<Record>, reach: nat, jobAt: nat, missing: Missing, torn: bool, forked: bool)

  /** The map every read answers from: the tree, with the buffer laid over it. */
  function ViewOf(tree: Store, writeBack: Option<Buffer>): Store {
    if writeBack.Some? then Merge(tree, writeBack.value) else tree
  }

  function View(a: State): Store {
    ViewOf(a.tree, a.writeBack)
  }

  /** The last LSN of a run of records that starts after `start`. */
  function Top(start: nat, log: seq<Record>): nat {
    if log == [] then start else log[|log| - 1].lsn
  }

  function Max(a: nat, b: nat): nat {
    if a < b then b else a
  }

  /** Replays the records past `after` onto a tree, skipping what it has reached already. */
  function Replayed(t: Store, log: seq<Record>, after: nat): (Store, nat) {
    if log == [] then (t, after)
    else
      var n := |log| - 1;
      var before := Replayed(t, log[..n], after);
      if log[n].lsn > before.1 then (RedoAll(before.0, log[n].ops, log[n].lsn), log[n].lsn) else before
  }

  /** Between the manifest publish and the adoption the engine lock is held. */
  predicate Locked(a: State) {
    a.job.Some? && a.job.value.Published?
  }

  /** A record is logged past the LSN the engine stands at. */
  predicate Stalled(a: State) {
    |a.history| > a.lastLsn
  }

  /** What a commit is planned on is wrong: a record is logged past the LSN the engine stands at, or
      the view holds tombstones that the flag denies. */
  predicate Misled(a: State) {
    Stalled(a) || (!a.possible && exists k | k in View(a) :: IsTombstone(k))
  }

  // ----- The log ------------------------------------------------------------

  /** Every record held in memory goes to the active segment. */
  function Drained(a: State): State {
    a.(log := a.log + a.pending, pending := [], appended := Max(a.appended, Top(a.logStart, a.log + a.pending)))
  }

  /** A barrier flushes unless an earlier one covers the LSN. */
  function SyncedThrough(a: State, lsn: nat): State {
    if a.synced >= lsn then a else a.(flushed := |a.log|, synced := Max(a.synced, a.appended))
  }

  function Appended(a: State, rec: Record, barrier: Barrier): State {
    var b := a.(pending := a.pending + [rec]);
    match barrier
    case Held => b
    case Deferred => Drained(b)
    case Immediate => SyncedThrough(Drained(b), rec.lsn)
  }

  /** Redo keeps the first record of an LSN. */
  function Longer(h: seq<Record>, rec: Record): seq<Record> {
    if rec.lsn == |h| + 1 then h + [rec] else h
  }

  function AfterSync(a: State): State {
    if a.poisoned then a else SyncedThrough(Drained(a), Drained(a).appended)
  }

  // ----- Commits and flushes ------------------------------------------------

  function PlanOf(a: State, ops: seq<Operation>): Plan {
    Planned(View(a), ops, a.lastLsn + 1, a.possible)
  }

  /** The record a commit writes. */
  function RecordOf(a: State, ops: seq<Operation>): Record {
    Record(a.lastLsn + 1, PlanOf(a, ops).logged)
  }

  function CommitResult(a: State, ops: seq<Operation>, treeOk: bool, outcome: LogOutcome)
    : Result<seq<OpResult>, EngineError>
  {
    if a.poisoned then Err(Poisoned)
    else if !ValidOps(ops) then Err(InvalidOp)
    else if PlanOf(a, ops).logged == [] then Ok(PlanOf(a, ops).results)
    else if a.writeBack.None? && !treeOk then Err(EngineError.TreeFailed)
    else if outcome.Written? then Ok(PlanOf(a, ops).results)
    else Err(LogFailed)
  }

  /** The state once the batch is visible, its record not yet written. */
  function Visible(a: State, p: Plan): State {
    var b := a.(lastLsn := a.lastLsn + 1, userLen := a.userLen + p.userDelta,
                missing := a.missing.(live := a.missing.live - TouchedKeys(p.logged)));
    if a.writeBack.Some? then b.(writeBack := Some(RecordEdits(a.writeBack.value, p.mutations, a.lastLsn + 1)))
    else b.(tree := ApplyEdits(a.tree, p.mutations))
  }

  function AfterCommit(a: State, ops: seq<Operation>, barrier: Barrier, treeOk: bool, outcome: LogOutcome): State {
    if a.poisoned || !ValidOps(ops) then a
    else
      var p, rec := PlanOf(a, ops), RecordOf(a, ops);
      var flagged := a.(possible := p.possible);
      if p.logged == [] || (a.writeBack.None? && !treeOk) then flagged
      else if outcome.Lost? then flagged.(poisoned := true)
      else
        var logged := flagged.(history := Longer(a.history, rec), forked := a.forked || Misled(a));
        if outcome.Written? then Appended(Visible(logged, p), rec, barrier)
        else Appended(logged, rec, Deferred).(poisoned := true)
  }

  function AfterFlush(a: State, treeOk: bool): State {
    if a.poisoned || a.writeBack.None? || a.writeBack.value == map[] || !treeOk then a
    else a.(tree := Merge(a.tree, a.writeBack.value), writeBack := Some(map[]), absorbed := a.lastLsn)
  }

  // ----- Checkpoints --------------------------------------------------------

  /** Phase one: every commit reaches the files, and the root is noted with the LSN it reflects. */
  function AfterBegin(a: State): State {
    if a.poisoned then a
    else
      var b := AfterSync(a);
      b.(job := Some(Begun(a.tree, if a.writeBack.Some? then a.absorbed else a.lastLsn, |b.log|)),
         jobAt := if a.writeBack.Some? then a.absorbed else |a.history|,
         missing := a.missing.(job := a.missing.live))
  }

  /** Phase two: the records visible in the files are replayed onto the compacted copy. */
  function AfterCompact(a: State, visible: nat): State {
    if a.job.Some? && a.job.value.Begun? && a.job.value.begunAt <= visible <= |a.log| then
      var done := Replayed(a.job.value.snapshot, a.log[..visible], a.job.value.lsn);
      a.(job := Some(Compacted(done.0, done.1)), jobAt := Max(a.jobAt, done.1),
         missing := a.missing.(job := Fewer(a.missing.job, a.history, a.jobAt, done.1)))
    else a
  }

  /** Phase three up to its commit point: the tail is replayed and the manifest published. */
  function AfterPublish(a: State): State {
    if !a.poisoned && a.job.Some? && a.job.value.Compacted? then
      var b := Drained(a);
      var done := Replayed(a.job.value.tree, b.log, a.job.value.reached);
      b.(manifest := Manifest(done.0, a.lastLsn), job := Some(Published(done.0)), reach := Max(a.jobAt, done.1),
         missing := a.missing.(manifest := Fewer(a.missing.job, a.history, a.jobAt, done.1)))
    else a
  }

  /** Phase three, adoption: the compacted tree replaces the tree, the buffer restarts empty, the
      segment is sealed, and some of the sealed records are deleted. */
  function AfterAdopt(a: State, retired: nat): State {
    if Locked(a) then
      var n := if retired < |a.log| then retired else |a.log|;
      a.(tree := a.job.value.tree, writeBack := if a.writeBack.Some? then Some(map[]) else None, absorbed := a.lastLsn,
         job := None, missing := a.missing.(live := a.missing.manifest),
         logStart := if n == 0 then a.logStart else if n == |a.log| then a.lastLsn else Before(a.log[n].lsn),
         log := a.log[n..], flushed := |a.log| - n, synced := Max(a.synced, a.appended))
    else a
  }

  function Before(lsn: nat): nat {
    if lsn == 0 then 0 else lsn - 1
  }

  // ----- Crash and open -----------------------------------------------------

  /** A crash keeps the manifest and some of the written records, everything flushed among them. */
  function Crashed(a: State, durable: nat): State
    requires durable <= |a.log|
  {
    var log := a.log[..durable];
    var top := Top(a.logStart, log);
    var end := Max(a.reach, top);
    var h := if end <= |a.history| then a.history[..end] else a.history;
    if top < a.manifest.lsn then a.(logStart := a.manifest.lsn, log := [], history := h)
    else a.(log := log, history := h)
  }

  /** Replays the log onto the manifest's tree and rebuilds the counters. */
  function Opened(a: State): State {
    var done := Replayed(a.manifest.store, a.log, a.manifest.lsn);
    a.(flushed := |a.log|, pending := [], appended := done.1, synced := done.1, tree := done.0,
       writeBack := if a.writeBack.Some? then Some(map[]) else None, absorbed := done.1, lastLsn := done.1,
       userLen := |UserKeys(done.0)|, possible := exists k | k in done.0 :: IsTombstone(k), poisoned := false,
       job := None, missing := a.missing.(live := Fewer(a.missing.manifest, a.history, a.reach, done.1)),
       torn := |a.history| > done.1)
  }

  function AfterCrash(a: State, durable: nat): State {
    if a.flushed <= durable <= |a.log| then Opened(Crashed(a, durable)) else a
  }

  // ----- Replication --------------------------------------------------------

  /** The record is none that a primary with this history ships next: while a record is pending it
      is another, or its operations do not fit the state. */
  predicate Foreign(a: State, rec: Record) {
    || a.pending != [] || rec.ops == []
    || (if Stalled(a) then rec != a.history[a.lastLsn] else !(Addressable(rec.ops) && Hits(a.tree, rec.ops, rec.lsn)))
  }

  /** A delete of a user key finds it. */
  predicate DeleteHits(t: Store, ops: seq<Operation>, lsn: nat) {
    exists i :: 0 <= i < |ops| && ops[i].Delete? && !Reserved(ops[i].key) && ops[i].key in RedoAll(t, ops[..i], lsn)
  }

  /** Where the apply of a logged record stops, if it does. */
  function Cut(rec: Record, outcome: LogOutcome, fault: Option<Stall>): Option<Stall> {
    if rec.ops == [] then None
    else if outcome.WrittenButFailed? then Some(Stall(0, false))
    else if fault.Some? && fault.value.at < |rec.ops| then fault
    else None
  }

  /** A replica logs a shipped record verbatim and applies it with the redo rule, one published
      edit at a time. It stops at the first edit that fails, and nothing is undone. */
  function AfterReplicate(a: State, rec: Record, outcome: LogOutcome, fault: Option<Stall>): State {
    if a.poisoned || a.writeBack.Some? || rec.lsn != a.lastLsn + 1 || outcome.Lost? then a
    else
      var still := if Stalled(a) then a.missing.live else a.missing.live - TouchedKeys(rec.ops);
      var logged := a.(history := Longer(a.history, rec), forked := a.forked || Foreign(a, rec));
      var b, cut := Appended(logged, rec, Deferred), Cut(rec, outcome, fault);
      if rec.ops == [] && outcome.WrittenButFailed? then b.(torn := true)
      else if cut.None? then
        var t := RedoAll(a.tree, rec.ops, rec.lsn);
        b.(tree := t, lastLsn := rec.lsn, userLen := |UserKeys(t)|,
           possible := a.possible || DeleteHits(a.tree, rec.ops, rec.lsn), missing := a.missing.(live := still))
      else
        var at, half := cut.value.at, cut.value.half;
        b.(tree := PartialRedo(a.tree, rec.ops, rec.lsn, at, half), torn := true,
           possible := a.possible || DeleteHits(a.tree, rec.ops[..if half then at + 1 else at], rec.lsn),
           missing := a.missing.(live := still + NewlyLost(a.tree, rec.ops, at, half)))
  }

  /** How many operations the apply comes to, the one it stops at included. */
  function Tried(a: State, rec: Record, outcome: LogOutcome, fault: Option<Stall>): nat {
    var cut := Cut(rec, outcome, fault);
    if a.poisoned || a.writeBack.Some? || rec.lsn != a.lastLsn + 1 || !outcome.Written? then 0
    else if cut.Some? then cut.value.at + 1
    else |rec.ops|
  }

  // ----- Steps --------------------------------------------------------------

  datatype EngineStep =
    | CommitStep(ops: seq<Operation>, barrier: Barrier, treeOk: bool, outcome: LogOutcome)
    | SyncStep
    | FlushStep(treeOk: bool)
    | BeginStep
    | CompactStep(visible: nat)
    | PublishStep
    | AdoptStep(retired: nat)
    | CrashStep(durable: nat)
    | ReplicateStep(rec: Record, outcome: LogOutcome, fault: Option<Stall>)

  predicate Allowed(step: EngineStep) {
    step.CommitStep? ==> Addressable(step.ops)
  }

  function Next(a: State, step: EngineStep): State {
    match step
    case CompactStep(visible) => AfterCompact(a, visible)
    case AdoptStep(retired) => AfterAdopt(a, retired)
    case CrashStep(durable) => AfterCrash(a, durable)
    case _ =>
      if Locked(a) then a
      else
        match step
        case CommitStep(ops, barrier, treeOk, outcome) => AfterCommit(a, ops, barrier, treeOk, outcome)
        case SyncStep => AfterSync(a)
        case FlushStep(treeOk) => AfterFlush(a, treeOk)
        case BeginStep => AfterBegin(a)
        case PublishStep => AfterPublish(a)
        case ReplicateStep(rec, outcome, fault) => AfterReplicate(a, rec, outcome, fault)
        case _ => a
  }

  function Final(a: State, steps: seq<EngineStep>): State {
    if steps == [] then a else Next(Final(a, steps[..|steps| - 1]), steps[|steps| - 1])
  }

  function Created(buffered: bool): State {
    State(Manifest(map[], 0), 0, [], 0, [], 0, 0, map[], if buffered then Some(map[]) else None, 0, 0, 0, false, false,
          None, [], 0, 0, Missing({}, {}, {}), false, false)
  }
}
