/** Whole runs of the engine: what view, manifest and acknowledgements are worth after any
    interleaving of commits, flushes, checkpoint phases, replicated records and crashes, and the
    runs in which they are worth less. */
module EngineRuns {
  import opened Results
  import opened Keys
  import opened Stores
  import opened Overlays
  import opened Replay
  import opened Planning
  import opened Revisions
  import opened WriteBack
  import opened Replicas
  import opened Lineage
  import opened EngineSteps
  import opened EngineProofs

  // ----- Every step, every run ----------------------------------------------

  lemma CreatedOk(buffered: bool)
    ensures Sound(Created(buffered)) && !Created(buffered).forked && View(Created(buffered)) == map[]
  {
    hide Files, Served;
    CreatedFiles(buffered);
    CreatedServes(buffered);
    assert UserKeys(map[]) == {};
  }

  lemma CreatedFiles(buffered: bool)
    ensures Files(Created(buffered))
  {
    hide At, StateAt;
    Empty();
    assert AllRecords(Created(buffered)) == [];
  }

  lemma Empty()
    ensures StateAt([], 0) == map[] && At([], 0, map[], {}) && Merge(map[], map[]) == map[]
  {
    Exactly([], 0);
    FreshBuffer([]);
  }

  lemma CreatedServes(buffered: bool)
    ensures Served(Created(buffered)) && View(Created(buffered)) == map[]
  {
    hide At, StateAt, ExactBuffer, BufferTouched, Merge;
    Empty();
    FreshBuffer([]);
  }

  // What each step leaves alone.

  lemma FlushFrame(a: State, treeOk: bool)
    ensures var b := AfterFlush(a, treeOk); b == a.(tree := b.tree, writeBack := b.writeBack, absorbed := b.absorbed)
    ensures AfterFlush(a, treeOk).writeBack.Some? == a.writeBack.Some?
  {
    hide Merge;
  }

  lemma BeginFrame(a: State)
    ensures var b := AfterBegin(a);
            b == a.(log := b.log, pending := b.pending, appended := b.appended, flushed := b.flushed,
                    synced := b.synced, job := b.job, jobAt := b.jobAt, missing := a.missing.(job := b.missing.job))
    ensures a.poisoned ==> AfterBegin(a) == a
  {
    hide Top;
  }

  lemma SyncFrames(a: State)
    ensures var b := AfterSync(a);
            b == a.(log := b.log, pending := b.pending, appended := b.appended, flushed := b.flushed,
                    synced := b.synced)
    ensures a.poisoned ==> AfterSync(a) == a
  {
    hide Top;
  }

  lemma CompactFrame(a: State, visible: nat)
    ensures var b := AfterCompact(a, visible);
            b == a.(job := b.job, jobAt := b.jobAt, missing := a.missing.(job := b.missing.job))
  {
    hide Replayed, Fewer;
  }

  lemma PublishFrame(a: State)
    ensures var b := AfterPublish(a);
            b == a.(log := b.log, pending := b.pending, appended := b.appended, manifest := b.manifest,
                    reach := b.reach, job := b.job, missing := a.missing.(manifest := b.missing.manifest))
    ensures a.poisoned ==> AfterPublish(a) == a
  {
    hide Replayed, Fewer, Top;
  }

  lemma AdoptsFrame(a: State, retired: nat)
    ensures var b := AfterAdopt(a, retired);
            b == a.(log := b.log, logStart := b.logStart, flushed := b.flushed, synced := b.synced, tree := b.tree,
                    writeBack := b.writeBack, absorbed := b.absorbed, job := b.job,
                    missing := a.missing.(live := b.missing.live))
    ensures AfterAdopt(a, retired).writeBack.Some? == a.writeBack.Some?
    ensures AfterAdopt(a, retired).missing.live in {a.missing.live, a.missing.manifest}
  {
    hide Before;
  }

  lemma CrashFrame(a: State, durable: nat)
    ensures AfterCrash(a, durable).forked == a.forked
    ensures !(a.flushed <= durable <= |a.log|) ==> AfterCrash(a, durable) == a
  {
    hide Replayed, Fewer, UserKeys, Top;
  }

  lemma CommitForks(a: State, ops: seq<Operation>, barrier: Barrier, treeOk: bool, outcome: LogOutcome)
    ensures var b := AfterCommit(a, ops, barrier, treeOk, outcome);
            b.forked <==> a.forked || (Misled(a) && Writes(a, ops, treeOk, outcome))
  {
    hide PlanOf, Visible, Appended, Misled, RecordOf, ValidOps;
    var flagged := a.(possible := PlanOf(a, ops).possible);
    var logged := flagged.(history := Longer(a.history, RecordOf(a, ops)), forked := a.forked || Misled(a));
    AppendForks(logged, PlanOf(a, ops), RecordOf(a, ops), barrier);
  }

  lemma AppendForks(a: State, p: Plan, rec: Record, barrier: Barrier)
    ensures Appended(Visible(a, p), rec, barrier).forked == a.forked && Appended(a, rec, Deferred).forked == a.forked
  {
    hide Visible, Appended;
    assert Visible(a, p).forked == a.forked by { VisibleForks(a, p); }
    OnlyAppends(a, rec, Deferred);
    OnlyAppends(Visible(a, p), rec, barrier);
  }

  lemma VisibleForks(a: State, p: Plan)
    ensures Visible(a, p).forked == a.forked
  {
    hide ApplyEdits, RecordEdits, TouchedKeys;
  }

  lemma OnlyAppends(a: State, rec: Record, barrier: Barrier)
    ensures Appended(a, rec, barrier).forked == a.forked
  {
    hide Top;
  }

  /** The commit's record reaches the log. */
  predicate Writes(a: State, ops: seq<Operation>, treeOk: bool, outcome: LogOutcome) {
    && !a.poisoned && ValidOps(ops) && PlanOf(a, ops).logged != [] && (a.writeBack.Some? || treeOk)
    && !outcome.Lost?
  }

  lemma ReplicateForks(a: State, rec: Record, outcome: LogOutcome, fault: Option<Stall>)
    ensures var b := AfterReplicate(a, rec, outcome, fault);
            && a.history <= b.history
            && (a.poisoned || a.writeBack.Some? || rec.lsn != a.lastLsn + 1 || outcome.Lost? ==> b == a)
            && (b.forked <==>
                  || a.forked
                  || (&& !a.poisoned && a.writeBack.None? && rec.lsn == a.lastLsn + 1 && !outcome.Lost?
                      && Foreign(a, rec)))
  {
    hide RedoAll, PartialRedo, NewlyLost, DeleteHits, TouchedKeys, UserKeys, Top, Cut, Foreign;
  }

  /** The step takes the log off the history: a misled commit that writes its record, or a shipped
      record that is not the next one of the history. */
  ghost predicate Forks(a: State, step: EngineStep) {
    match step
    case CommitStep(ops, _, treeOk, outcome) => !Locked(a) && Misled(a) && Writes(a, ops, treeOk, outcome)
    case ReplicateStep(rec, outcome, _) =>
      && !Locked(a) && !a.poisoned && a.writeBack.None? && rec.lsn == a.lastLsn + 1 && !outcome.Lost?
      && Foreign(a, rec)
    case _ => false
  }

  /** A run forks exactly at such a step, and a fork is never undone. */
  lemma ForksExactly(a: State, step: EngineStep)
    ensures Next(a, step).forked <==> a.forked || Forks(a, step)
  {
    hide AfterCommit, AfterSync, AfterFlush, AfterBegin, AfterCompact, AfterPublish, AfterAdopt, AfterCrash,
         AfterReplicate, Foreign, Writes;
    match step
    case CommitStep(ops, barrier, treeOk, outcome) => CommitForks(a, ops, barrier, treeOk, outcome);
    case SyncStep => SyncFrames(a);
    case FlushStep(treeOk) => FlushFrame(a, treeOk);
    case BeginStep => BeginFrame(a);
    case CompactStep(visible) => CompactFrame(a, visible);
    case PublishStep => PublishFrame(a);
    case AdoptStep(retired) => AdoptsFrame(a, retired);
    case CrashStep(durable) => CrashFrame(a, durable);
    case ReplicateStep(rec, outcome, fault) => ReplicateForks(a, rec, outcome, fault);
  }

  /** Flushes, barriers and checkpoint phases log nothing. */
  predicate Quiet(step: EngineStep) {
    !step.CommitStep? && !step.ReplicateStep? && !step.CrashStep?
  }

  lemma QuietFrame(a: State, step: EngineStep)
    requires Quiet(step)
    ensures var b := Next(a, step);
            && b.history == a.history && b.forked == a.forked && b.torn == a.torn && b.lastLsn == a.lastLsn
            && b.poisoned == a.poisoned && b.writeBack.Some? == a.writeBack.Some? && b.possible == a.possible
            && b.userLen == a.userLen
  {
    hide AfterSync, AfterFlush, AfterBegin, AfterCompact, AfterPublish, AfterAdopt;
    match step
    case SyncStep => SyncFrames(a);
    case FlushStep(treeOk) => FlushFrame(a, treeOk);
    case BeginStep => BeginFrame(a);
    case CompactStep(visible) => CompactFrame(a, visible);
    case PublishStep => PublishFrame(a);
    case AdoptStep(retired) => AdoptsFrame(a, retired);
  }

  /** The history a crash cannot take is in the next one. */
  ghost predicate Carries(a: State, b: State) {
    && a.flushed <= |a.log| && b.flushed <= |b.log| && Kept(a) <= Kept(b)
    && Kept(a) <= |a.history| && a.history[..Kept(a)] <= b.history
  }

  lemma NextOk(a: State, step: EngineStep)
    requires Sound(a) && !a.forked && Allowed(step)
    ensures var b := Next(a, step); Stands(b) && (!b.forked ==> Carries(a, b))
  {
    hide Sound, Kept, AfterCommit, AfterSync, AfterFlush, AfterBegin, AfterCompact, AfterPublish, AfterAdopt,
         AfterCrash, AfterReplicate;
    SoundFlushed(a);
    var b := Next(a, step);
    match step {
      case CompactStep(visible) => CompactOk(a, visible);
      case AdoptStep(retired) => AdoptOk(a, retired);
      case CrashStep(durable) => CrashOk(a, durable); CrashFrame(a, durable);
      case CommitStep(ops, barrier, treeOk, outcome) => if !Locked(a) { CommitOk(a, ops, barrier, treeOk, outcome); }
      case SyncStep => if !Locked(a) && !a.poisoned { SyncOk(a); } SyncFrames(a);
      case FlushStep(treeOk) => if !Locked(a) { FlushOk(a, treeOk); }
      case BeginStep => if !Locked(a) && !a.poisoned { BeginOk(a); } BeginFrame(a);
      case PublishStep => if !Locked(a) { PublishOk(a); }
      case ReplicateStep(rec, outcome, fault) =>
        if !Locked(a) { ReplicateOk(a, rec, outcome, fault); ReplicateForks(a, rec, outcome, fault); }
    }
    if Quiet(step) { QuietFrame(a, step); }
    if !b.forked { SoundFlushed(b); }
  }

  /** Over every run, unless it forks: everything holds, and what no crash could take is kept. */
  lemma {:induction false} FinalOk(a: State, steps: seq<EngineStep>)
    requires Sound(a) && !a.forked && forall i :: 0 <= i < |steps| ==> Allowed(steps[i])
    ensures var b := Final(a, steps); Stands(b) && (!b.forked ==> Carries(a, b))
    decreases |steps|
  {
    hide Sound, Kept, Next;
    SoundFlushed(a);
    if steps == [] {
    } else {
      var n := |steps| - 1;
      var mid := Final(a, steps[..n]);
      FinalOk(a, steps[..n]);
      if mid.forked {
        ForksExactly(mid, steps[n]);
      } else {
        NextOk(mid, steps[n]);
      }
    }
  }

  ghost predicate ForksAt(a: State, steps: seq<EngineStep>, i: int) {
    0 <= i < |steps| && Forks(Final(a, steps[..i]), steps[i])
  }

  /** A run forks exactly when one of its steps does. */
  lemma {:induction false} ForksSomewhere(a: State, steps: seq<EngineStep>)
    ensures Final(a, steps).forked <==> a.forked || exists i :: ForksAt(a, steps, i)
    decreases |steps|
  {
    hide Next, Forks, ForksAt;
    if steps == [] {
      assert forall i :: !ForksAt(a, steps, i) by { NoForkAt(a); }
    } else {
      var n := |steps| - 1;
      ForksSomewhere(a, steps[..n]);
      ForksExactly(Final(a, steps[..n]), steps[n]);
      ForksHead(a, steps);
      if i :| ForksAt(a, steps[..n], i) { assert ForksAt(a, steps, i); }
    }
  }

  lemma NoForkAt(a: State)
    ensures forall i :: !ForksAt(a, [], i)
  {
  }

  lemma ForksHead(a: State, steps: seq<EngineStep>)
    requires steps != []
    ensures var n := |steps| - 1;
            && (forall i :: i != n ==> (ForksAt(a, steps, i) <==> ForksAt(a, steps[..n], i)))
            && !ForksAt(a, steps[..n], n) && (ForksAt(a, steps, n) <==> Forks(Final(a, steps[..n]), steps[n]))
  {
    hide Next, Forks, Final;
    var n := |steps| - 1;
    assert forall i :: 0 <= i < n ==> steps[..n][..i] == steps[..i];
  }

  lemma {:induction false} FinalSplit(a: State, steps: seq<EngineStep>, i: nat)
    requires i <= |steps|
    ensures Final(a, steps) == Final(Final(a, steps[..i]), steps[i..])
    decreases |steps|
  {
    hide Next;
    if i == |steps| {
      assert steps[..i] == steps;
    } else {
      var n := |steps| - 1;
      FinalSplit(a, steps[..n], i);
      assert steps[..n][..i] == steps[..i] && steps[..n][i..] == steps[i..][..n - i];
    }
  }

  // ----- What view and manifest are worth -----------------------------------

  /** A healthy engine that is not stalled serves the state of its history exactly when no tombstone
      is missing, and every user key is right in any case. */
  lemma Serves(a: State)
    requires Sound(a) && !a.poisoned && !Stalled(a)
    ensures |a.history| == a.lastLsn && Faithful(a.history)
    ensures View(a) == StateAt(a.history, a.lastLsn) <==> a.missing.live == {}
    ensures forall k :: !Reserved(k) ==> Lookup(View(a), k) == Lookup(StateAt(a.history, a.lastLsn), k)
    ensures a.userLen == |UserKeys(StateAt(a.history, a.lastLsn))|
  {
    hide Files, Counters, JobOk, At, Faithful, StateAt, UserKeys, Merge, ExactBuffer, BufferTouched;
    FilesFaithful(a);
    NotStalled(a);
    if a.writeBack.None? {
      AtRight(a.history, a.lastLsn, a.tree, a.missing.live);
      AtUsers(a.history, a.lastLsn, a.tree, a.missing.live);
    }
  }

  lemma AtUsers(h: seq<Record>, n: nat, t: Store, lost: set<Key>)
    requires At(h, n, t, lost)
    ensures forall k :: !Reserved(k) ==> Lookup(t, k) == Lookup(StateAt(h, n), k)
    ensures UserKeys(t) == UserKeys(StateAt(h, n))
  {
    hide StateAt;
    UserKeysWithout(StateAt(h, n), lost);
    forall k | k in lost ensures Reserved(TombstoneKey(k)) { TombstoneShape(k); }
  }

  /** The published tree is the state its contents have reached exactly when it misses no tombstone,
      and its user keys are right in any case. */
  lemma Publishes(a: State)
    requires Sound(a)
    ensures a.manifest.lsn <= a.reach <= |a.history|
    ensures a.manifest.store == StateAt(a.history, a.reach) <==> a.missing.manifest == {}
    ensures forall k :: !Reserved(k) ==> Lookup(a.manifest.store, k) == Lookup(StateAt(a.history, a.reach), k)
  {
    hide Counters, Served, Counts, JobOk, At, Faithful, StateAt, EngineProofs.Ordered, Matches;
    AtRight(a.history, a.reach, a.manifest.store, a.missing.manifest);
    AtUsers(a.history, a.reach, a.manifest.store, a.missing.manifest);
  }

  /** The apply of a shipped record stops between the two edits of a delete, and the tombstone the
      second would write is one no redo of the record brings back. */
  ghost predicate Loses(a: State, step: EngineStep) {
    && step.ReplicateStep? && !Locked(a) && !a.poisoned && a.writeBack.None? && step.rec.lsn == a.lastLsn + 1
    && !step.outcome.Lost?
    && var cut := Cut(step.rec, step.outcome, step.fault);
       cut.Some? && NewlyLost(a.tree, step.rec.ops, cut.value.at, cut.value.half) != {}
  }

  ghost predicate NoneMissing(a: State) {
    a.missing == Missing({}, {}, {})
  }

  lemma StaysWhole(a: State, step: EngineStep)
    requires NoneMissing(a) && !Loses(a, step)
    ensures NoneMissing(Next(a, step))
  {
    hide AfterCommit, AfterSync, AfterFlush, AfterBegin, AfterCompact, AfterPublish, AfterAdopt, AfterCrash,
         AfterReplicate;
    match step
    case CommitStep(ops, barrier, treeOk, outcome) => CommitMissing(a, ops, barrier, treeOk, outcome);
    case SyncStep => SyncFrames(a);
    case FlushStep(treeOk) => FlushFrame(a, treeOk);
    case BeginStep => BeginMissing(a);
    case CompactStep(visible) => CompactMissing(a, visible);
    case PublishStep => PublishMissing(a);
    case AdoptStep(retired) => AdoptsFrame(a, retired);
    case CrashStep(durable) => CrashMissing(a, durable);
    case ReplicateStep(rec, outcome, fault) => ReplicateMissing(a, rec, outcome, fault);
  }

  lemma CommitMissing(a: State, ops: seq<Operation>, barrier: Barrier, treeOk: bool, outcome: LogOutcome)
    requires NoneMissing(a)
    ensures NoneMissing(AfterCommit(a, ops, barrier, treeOk, outcome))
  {
    hide PlanOf, RecordOf, Misled, ValidOps, Visible, Appended;
    var flagged := a.(possible := PlanOf(a, ops).possible);
    var logged := flagged.(history := Longer(a.history, RecordOf(a, ops)), forked := a.forked || Misled(a));
    AppendMissing(logged, PlanOf(a, ops), RecordOf(a, ops), barrier);
  }

  lemma AppendMissing(a: State, p: Plan, rec: Record, barrier: Barrier)
    requires NoneMissing(a)
    ensures NoneMissing(Appended(Visible(a, p), rec, barrier)) && NoneMissing(Appended(a, rec, Deferred))
  {
    hide ApplyEdits, RecordEdits, Appended, TouchedKeys;
    assert {} - TouchedKeys(p.logged) == {};
    OnlyMissing(a, rec, Deferred);
    OnlyMissing(Visible(a, p), rec, barrier);
  }

  lemma OnlyMissing(a: State, rec: Record, barrier: Barrier)
    ensures Appended(a, rec, barrier).missing == a.missing
  {
    hide Top;
  }

  lemma BeginMissing(a: State)
    requires NoneMissing(a)
    ensures NoneMissing(AfterBegin(a))
  {
    hide Top;
  }

  lemma CompactMissing(a: State, visible: nat)
    requires NoneMissing(a)
    ensures NoneMissing(AfterCompact(a, visible))
  {
    hide Replayed;
    forall from, end ensures Fewer({}, a.history, from, end) == {} { FewerNone(a.history, from, end); }
  }

  lemma PublishMissing(a: State)
    requires NoneMissing(a)
    ensures NoneMissing(AfterPublish(a))
  {
    hide Replayed, Top;
    forall from, end ensures Fewer({}, a.history, from, end) == {} { FewerNone(a.history, from, end); }
  }

  lemma CrashMissing(a: State, durable: nat)
    requires NoneMissing(a)
    ensures NoneMissing(AfterCrash(a, durable))
  {
    hide Replayed, Top, UserKeys, Crashed;
    if a.flushed <= durable <= |a.log| {
      var c := Crashed(a, durable);
      assert c.missing == a.missing by { CrashedMissing(a, durable); }
      forall from, end ensures Fewer({}, c.history, from, end) == {} { FewerNone(c.history, from, end); }
    }
  }

  lemma CrashedMissing(a: State, durable: nat)
    requires durable <= |a.log|
    ensures Crashed(a, durable).missing == a.missing
  {
    hide Top;
  }

  lemma ReplicateMissing(a: State, rec: Record, outcome: LogOutcome, fault: Option<Stall>)
    requires NoneMissing(a) && !Loses(a, ReplicateStep(rec, outcome, fault))
    ensures !Locked(a) ==> NoneMissing(AfterReplicate(a, rec, outcome, fault))
  {
    hide RedoAll, PartialRedo, NewlyLost, DeleteHits, TouchedKeys, UserKeys, Cut, Foreign, Appended;
    assert {} - TouchedKeys(rec.ops) == {};
    OnlyMissing(a.(history := Longer(a.history, rec), forked := a.forked || Foreign(a, rec)), rec, Deferred);
  }

  /** Without such a stop no run misses a tombstone anywhere. */
  lemma {:induction false} MissesOnlyLost(a: State, steps: seq<EngineStep>)
    requires NoneMissing(a) && forall i :: 0 <= i < |steps| ==> !Loses(Final(a, steps[..i]), steps[i])
    ensures NoneMissing(Final(a, steps))
    decreases |steps|
  {
    hide Next, Loses;
    if steps == [] {
    } else {
      var n := |steps| - 1;
      assert forall i :: 0 <= i < n ==> steps[..n][..i] == steps[..i];
      MissesOnlyLost(a, steps[..n]);
      StaysWhole(Final(a, steps[..n]), steps[n]);
    }
  }

  // ----- What acknowledgements are worth ------------------------------------

  /** The step is a commit that logs a record and returns success once it is durable. */
  ghost predicate Acked(a: State, step: EngineStep) {
    && step.CommitStep? && step.barrier.Immediate? && !Locked(a) && PlanOf(a, step.ops).logged != []
    && CommitResult(a, step.ops, step.treeOk, step.outcome).Ok?
  }

  lemma AckedKept(a: State, step: EngineStep)
    requires Sound(a) && !a.forked && Allowed(step) && Acked(a, step) && !Next(a, step).forked
    ensures var b, rec := Next(a, step), RecordOf(a, step.ops);
            && Sound(b) && b.flushed <= |b.log| && Kept(b) == |b.history| == rec.lsn && b.history == a.history + [rec]
  {
    hide Sound, PlanOf, Visible, Appended, Kept, Misled, RecordOf;
    var ops, barrier := step.ops, step.barrier;
    CommitForks(a, ops, barrier, step.treeOk, step.outcome);
    assert !Misled(a);
    NoStall(a);
    HealthyLength(a);
    assert RecordOf(a, ops).lsn == a.lastLsn + 1 by { NextLsn(a, ops); }
    CommitWritten(a, ops, barrier);
    SoundFlushed(Appended(Visible(WithRecord(a, ops), PlanOf(a, ops)), RecordOf(a, ops), barrier));
  }

  /** In a run that does not fork, the record of every acknowledged commit is in the history at its
      own LSN ever after, and no crash can take it. */
  lemma AcksKept(a: State, steps: seq<EngineStep>, i: nat)
    requires Sound(a) && !a.forked && (forall j :: 0 <= j < |steps| ==> Allowed(steps[j])) && i < |steps|
    requires Acked(Final(a, steps[..i]), steps[i]) && !Final(a, steps).forked
    ensures var b, rec := Final(a, steps), RecordOf(Final(a, steps[..i]), steps[i].ops);
            && b.flushed <= |b.log| && 1 <= rec.lsn <= Kept(b) && rec.lsn <= |b.history|
            && b.history[rec.lsn - 1] == rec
  {
    hide Sound, Kept, Next, Acked, RecordOf, ForksAt;
    var mid := Final(a, steps[..i]);
    var next := Next(mid, steps[i]);
    assert steps[..i + 1][..i] == steps[..i];
    FinalSplit(a, steps, i);
    FinalSplit(a, steps, i + 1);
    ForksSomewhere(mid, steps[i..]);
    ForksSomewhere(next, steps[i + 1..]);
    FinalOk(a, steps[..i]);
    AckedKept(mid, steps[i]);
    FinalOk(next, steps[i + 1..]);
    assert next.history[..Kept(next)] == next.history;
  }

  /** After a barrier on a healthy engine every commit so far is out of a crash's reach. */
  lemma SyncKept(a: State, steps: seq<EngineStep>, i: nat)
    requires Sound(a) && !a.forked && (forall j :: 0 <= j < |steps| ==> Allowed(steps[j])) && i < |steps|
    requires steps[i].SyncStep? && !Final(a, steps[..i]).poisoned && !Locked(Final(a, steps[..i]))
    requires !Final(a, steps).forked
    ensures var mid := Final(a, steps[..i]);
            mid.lastLsn <= |mid.history| && mid.history[..mid.lastLsn] <= Final(a, steps).history
  {
    hide Sound, Kept, Next, ForksAt, Locked;
    var mid := Final(a, steps[..i]);
    var next := Next(mid, steps[i]);
    assert steps[..i + 1][..i] == steps[..i];
    FinalSplit(a, steps, i);
    FinalSplit(a, steps, i + 1);
    ForksSomewhere(mid, steps[i..]);
    ForksSomewhere(next, steps[i + 1..]);
    FinalOk(a, steps[..i]);
    SyncNext(mid);
    FinalOk(next, steps[i + 1..]);
    assert next.history[..Kept(next)][..mid.lastLsn] == mid.history[..mid.lastLsn];
  }

  lemma SyncNext(a: State)
    requires Sound(a) && !a.poisoned && !Locked(a)
    ensures var b := Next(a, SyncStep);
            && Sound(b) && b.history == a.history && b.forked == a.forked && b.flushed <= |b.log|
            && a.lastLsn <= Kept(b) <= |b.history|
  {
    hide Sound, Kept, AfterSync;
    SyncOk(a);
    SyncFrames(a);
    SoundFlushed(AfterSync(a));
  }

  /** The LSN replay has reached after these records. */
  ghost function Reached(log: seq<Record>, after: nat): nat {
    Replayed(map[], log, after).1
  }

  /** A crash that leaves these records leaves the last one of the files, and opening redoes it. */
  ghost predicate LastRedone(b: State, durable: int) {
    durable == |b.log| > 0 && Reached(b.log[..durable - 1], b.manifest.lsn) < b.log[durable - 1].lsn
  }

  /** Every crash leaves the last record of the files, and opening redoes it. */
  ghost predicate Honoured(b: State) {
    forall durable :: b.flushed <= durable <= |b.log| ==> LastRedone(b, durable)
  }

  /** The next LSN is unused: no record has it, and no barrier has passed it. */
  ghost predicate Free(a: State) {
    AllTop(a) == a.lastLsn && a.synced <= a.lastLsn
  }

  /** An acknowledged commit is honoured exactly when the next LSN was unused, which it always is
      unless an apply is pending. */
  lemma AckExactly(a: State, ops: seq<Operation>)
    requires Sound(a) && !a.poisoned && !Locked(a) && ValidOps(ops) && PlanOf(a, ops).logged != []
    ensures Honoured(AfterCommit(a, ops, Immediate, true, Written)) <==> Free(a)
    ensures !Stalled(a) ==> Free(a)
  {
    hide Files, Served, Counts, JobOk, PlanOf, Replayed, AfterCommit, Kept;
    if !Stalled(a) { NotStalled(a); }
    var b := AfterCommit(a, ops, Immediate, true, Written);
    AckFiles(a, ops);
    assert b.log[..|b.log| - 1] == AllRecords(a);
    FilesReach(a);
    assert LastRedone(b, |b.log|) <==> AllTop(a) == a.lastLsn;
    if a.synced > a.lastLsn { assert !LastRedone(b, a.flushed); }
  }

  lemma FilesReach(a: State)
    requires Files(a)
    ensures Reached(AllRecords(a), a.manifest.lsn) == Max(a.manifest.lsn, AllTop(a))
  {
    hide EngineProofs.Ordered, Matches, Faithful, At, RedoLog;
    ReplayedIs(a.history, a.logStart, AllRecords(a), map[], a.manifest.lsn);
  }

  lemma AckFiles(a: State, ops: seq<Operation>)
    requires !a.poisoned && ValidOps(ops) && PlanOf(a, ops).logged != [] && a.flushed <= |a.log|
    ensures var b, rec := AfterCommit(a, ops, Immediate, true, Written), RecordOf(a, ops);
            && b.log == AllRecords(a) + [rec] && b.manifest == a.manifest && rec.lsn == a.lastLsn + 1
            && b.flushed == if a.synced >= rec.lsn then a.flushed else |b.log|
  {
    hide PlanOf, Misled, Visible, Appended;
    var flagged := a.(possible := PlanOf(a, ops).possible);
    var logged := flagged.(history := Longer(a.history, RecordOf(a, ops)), forked := a.forked || Misled(a));
    VisibleFiles(logged, PlanOf(a, ops));
    ImmediateFiles(Visible(logged, PlanOf(a, ops)), RecordOf(a, ops));
  }

  lemma VisibleFiles(a: State, p: Plan)
    ensures var b := Visible(a, p);
            && b.log == a.log && b.pending == a.pending && b.manifest == a.manifest && b.synced == a.synced
            && b.flushed == a.flushed
  {
    hide ApplyEdits, RecordEdits, TouchedKeys;
  }

  lemma ImmediateFiles(a: State, rec: Record)
    ensures var b := Appended(a, rec, Immediate);
            && b.log == AllRecords(a) + [rec] && b.manifest == a.manifest
            && b.flushed == if a.synced >= rec.lsn then a.flushed else |b.log|
  {
    hide Top;
    assert a.log + (a.pending + [rec]) == AllRecords(a) + [rec];
  }

  // ----- One commit ---------------------------------------------------------

  /** A commit that is not misled: on success the batch is redone onto the view at the next LSN and
      the results report what each operation met; otherwise nothing becomes visible. */
  lemma CommitServes(a: State, ops: seq<Operation>, barrier: Barrier, treeOk: bool, outcome: LogOutcome)
    requires Sound(a) && !a.forked && !Locked(a) && Addressable(ops) && (a.poisoned || !Misled(a))
    ensures var b, r := AfterCommit(a, ops, barrier, treeOk, outcome), CommitResult(a, ops, treeOk, outcome);
            && (r.Ok? ==> View(b) == RedoAll(View(a), ops, a.lastLsn + 1))
            && (r.Ok? ==> |r.value| == |ops|)
            && (r.Ok? ==> forall i :: 0 <= i < |ops| ==>
                  r.value[i] == if ops[i].Put? then PutDone
                                else DeleteDone(ops[i].key in RedoAll(View(a), ops[..i], a.lastLsn + 1)))
            && (r.Ok? ==> b.history == Logged(a.history, View(a), ops, a.lastLsn + 1))
            && (r.Err? ==> View(b) == View(a))
  {
    hide Sound, PlanOf, Visible, Appended, RecordOf, RedoAll, Effective, Misled, ValidOps, PlanFor;
    if a.poisoned || !ValidOps(ops) {
      return;
    }
    assert PlanFor(View(a), ops, a.lastLsn + 1, PlanOf(a, ops)) by { NotMisled(a); PlanHolds(a, ops); }
    PlanSays(View(a), ops, a.lastLsn + 1, PlanOf(a, ops));
    assert RecordOf(a, ops) == Record(a.lastLsn + 1, PlanOf(a, ops).logged) by { RecordIs(a, ops); }
    if PlanOf(a, ops).logged != [] && (a.writeBack.Some? || treeOk) && !outcome.Lost? {
      NoStall(a);
      HealthyLength(a);
      var logged := WithRecord(a, ops);
      assert View(Appended(Visible(logged, PlanOf(a, ops)), RecordOf(a, ops), barrier)) ==
             View(Visible(logged, PlanOf(a, ops))) by {
        AppendView(Visible(logged, PlanOf(a, ops)), RecordOf(a, ops), barrier);
      }
      AppendView(logged, RecordOf(a, ops), Deferred);
      CommitView(a, ops);
    }
    CommitFrame(a, ops, barrier, treeOk, outcome);
  }

  /** When a commit is accepted, and why it is refused otherwise: the engine is healthy, keys have 1 to
      65536 bytes and values at most 16 MiB, and either every operation deletes a key that is not
      there or the record is written, after the tree was when there is no buffer. */
  lemma CommitAccepted(a: State, ops: seq<Operation>, treeOk: bool, outcome: LogOutcome)
    ensures var r := CommitResult(a, ops, treeOk, outcome);
            var sized := forall i :: 0 <= i < |ops| ==>
                               1 <= |ops[i].key| <= 65536 && (ops[i].Put? ==> |ops[i].value| <= 16777216);
            var idle := forall i :: 0 <= i < |ops| ==> ops[i].Delete? && ops[i].key !in View(a);
            && (r.Ok? <==> !a.poisoned && sized && (idle || ((a.writeBack.Some? || treeOk) && outcome.Written?)))
            && (r.Err? ==> r.error == if a.poisoned then Poisoned else if !sized then InvalidOp
                                      else if a.writeBack.None? && !treeOk then EngineError.TreeFailed else LogFailed)
  {
    hide Planned, View;
    NothingLogged(View(a), ops, a.lastLsn + 1, a.possible);
  }

  /** The history after a batch: one more record unless the batch had no effect. */
  function Logged(h: seq<Record>, view: Store, ops: seq<Operation>, lsn: nat): seq<Record> {
    var logged := Effective(view, ops, lsn);
    if logged == [] then h else h + [Record(lsn, logged)]
  }

  lemma PlanSays(view: Store, ops: seq<Operation>, lsn: nat, p: Plan)
    requires PlanFor(view, ops, lsn, p)
    ensures p.logged == Effective(view, ops, lsn) && Reports(p.results, view, ops, lsn)
    ensures p.logged == [] ==> RedoAll(view, ops, lsn) == view
  {
  }

  lemma RecordIs(a: State, ops: seq<Operation>)
    ensures RecordOf(a, ops) == Record(a.lastLsn + 1, PlanOf(a, ops).logged)
  {
  }

  lemma AppendView(a: State, rec: Record, barrier: Barrier)
    ensures View(Appended(a, rec, barrier)) == View(a)
  {
    hide Top, Merge;
  }

  lemma CommitView(a: State, ops: seq<Operation>)
    requires Sound(a) && !a.poisoned && !Locked(a) && Addressable(ops) && !Misled(a)
    ensures View(Visible(WithRecord(a, ops), PlanOf(a, ops))) == RedoAll(View(a), ops, a.lastLsn + 1)
  {
    hide Files, Counters, JobOk, At, Faithful, StateAt, UserKeys, NoTombstones, RedoAll, ApplyEdits, RecordEdits, Merge,
         ExactBuffer, BufferTouched, TouchedKeys, PlanOf, PlanFor;
    NotMisled(a);
    PlanHolds(a, ops);
    NotStalled(a);
    CountsAfter(View(a), ops, a.lastLsn + 1, PlanOf(a, ops));
    if a.writeBack.Some? {
      BufferCommit(a, ops);
      FilesFaithful(a);
      PlanRecords(a.history, View(a), ops, PlanOf(a, ops));
    }
  }

  // ----- Replicas -----------------------------------------------------------

  predicate FromPrimary(primary: seq<Record>, rec: Record) {
    1 <= rec.lsn <= |primary| && primary[rec.lsn - 1] == rec && rec.ops != []
  }

  /** What a replica may do: anything but commit, and replicate only the primary's records. */
  predicate Follows(primary: seq<Record>, step: EngineStep) {
    !step.CommitStep? && (step.ReplicateStep? ==> FromPrimary(primary, step.rec))
  }

  ghost predicate Replica(primary: seq<Record>, a: State) {
    Sound(a) && !a.forked && a.writeBack.None? && a.pending == [] && a.history <= primary
  }

  /** The primary's record is never foreign to its replica. */
  lemma OwnRecord(primary: seq<Record>, a: State, rec: Record)
    requires Faithful(primary) && Replica(primary, a) && !a.poisoned && FromPrimary(primary, rec)
    requires rec.lsn == a.lastLsn + 1
    ensures !Foreign(a, rec)
  {
    hide Files, Counters, Counts, JobOk, At, Onto, Faithful, StateAt, Hits;
    if !Stalled(a) {
      NotStalled(a);
      FilesFaithful(a);
      assert FaithfulAt(primary, a.lastLsn) by { FaithfulHere(primary, a.lastLsn); }
      StateAtKept(a.history, primary, a.lastLsn);
      AtIs(a.history, a.lastLsn, a.tree, a.missing.live);
      HitsWithout(StateAt(a.history, a.lastLsn), rec.ops, rec.lsn, a.missing.live);
    }
  }

  lemma FaithfulHere(h: seq<Record>, n: nat)
    requires Faithful(h) && n < |h|
    ensures FaithfulAt(h, n)
  {
  }

  lemma AtIs(h: seq<Record>, n: nat, t: Store, lost: set<Key>)
    requires At(h, n, t, lost)
    ensures t == Without(StateAt(h, n), lost)
  {
  }

  lemma FollowStep(primary: seq<Record>, a: State, step: EngineStep)
    requires Faithful(primary) && Replica(primary, a) && Follows(primary, step)
    ensures Replica(primary, Next(a, step))
  {
    hide Sound, AfterSync, AfterFlush, AfterBegin, AfterCompact, AfterPublish, AfterAdopt, AfterCrash, AfterReplicate,
         Faithful, Foreign;
    var b := Next(a, step);
    NextOk(a, step);
    ForksExactly(a, step);
    PendingStays(a, step);
    match step {
      case ReplicateStep(rec, outcome, fault) =>
        if !Locked(a) && !a.poisoned && rec.lsn == a.lastLsn + 1 && !outcome.Lost? {
          OwnRecord(primary, a, rec);
          ForeignForks(a, rec, outcome, fault);
          SoundLength(a);
        } else {
          ReplicateForks(a, rec, outcome, fault);
        }
      case CrashStep(durable) =>
        CrashOk(a, durable);
        CrashFrame(a, durable);
      case _ => QuietFrame(a, step);
    }
  }

  lemma SoundLength(a: State)
    requires Sound(a) && !a.poisoned
    ensures a.lastLsn <= |a.history| <= a.lastLsn + 1
  {
  }

  /** Without commits nothing is held in memory. */
  lemma PendingStays(a: State, step: EngineStep)
    requires a.pending == [] && a.writeBack.None? && !step.CommitStep?
    ensures Next(a, step).pending == [] && Next(a, step).writeBack.None?
  {
    hide AfterSync, AfterFlush, AfterBegin, AfterCompact, AfterPublish, AfterAdopt, AfterCrash, AfterReplicate;
    match step
    case SyncStep => SyncPending(a);
    case FlushStep(treeOk) => FlushFrame(a, treeOk);
    case BeginStep => SyncPending(a);
    case CompactStep(visible) => CompactFrame(a, visible);
    case PublishStep => PublishPending(a);
    case AdoptStep(retired) => AdoptsFrame(a, retired);
    case CrashStep(durable) => CrashPending(a, durable);
    case ReplicateStep(rec, outcome, fault) => ReplicatePending(a, rec, outcome, fault);
  }

  lemma SyncPending(a: State)
    requires a.pending == [] && a.writeBack.None?
    ensures AfterSync(a).pending == [] && AfterSync(a).writeBack.None?
    ensures AfterBegin(a).pending == [] && AfterBegin(a).writeBack.None?
  {
    hide Top;
  }

  lemma PublishPending(a: State)
    requires a.pending == [] && a.writeBack.None?
    ensures AfterPublish(a).pending == [] && AfterPublish(a).writeBack.None?
  {
    hide Top, Replayed, Fewer;
  }

  lemma CrashPending(a: State, durable: nat)
    requires a.pending == [] && a.writeBack.None?
    ensures AfterCrash(a, durable).pending == [] && AfterCrash(a, durable).writeBack.None?
  {
    hide Top, Replayed, Fewer, UserKeys;
  }

  lemma ReplicatePending(a: State, rec: Record, outcome: LogOutcome, fault: Option<Stall>)
    requires a.pending == [] && a.writeBack.None?
    ensures var b := AfterReplicate(a, rec, outcome, fault); b.pending == [] && b.writeBack.None?
  {
    hide RedoAll, PartialRedo, NewlyLost, DeleteHits, TouchedKeys, UserKeys, Top, Cut, Foreign;
  }

  /** A replica shipped any of the primary's records in any order, over any failures, retries,
      checkpoints and crashes, never leaves the primary's log. Whenever it is not stalled its user
      keys are the primary's at its own LSN, and it is the primary's state there exactly when no
      tombstone is missing. */
  lemma {:induction false} Follow(primary: seq<Record>, a: State, steps: seq<EngineStep>)
    requires Faithful(primary) && Replica(primary, a)
    requires forall i :: 0 <= i < |steps| ==> Follows(primary, steps[i])
    ensures var b := Final(a, steps);
            && Replica(primary, b)
            && (!b.poisoned && !Stalled(b) ==>
                  && b.lastLsn <= |primary| && (View(b) == StateAt(primary, b.lastLsn) <==> b.missing.live == {})
                  && forall k :: !Reserved(k) ==> Lookup(View(b), k) == Lookup(StateAt(primary, b.lastLsn), k))
    decreases |steps|
  {
    hide Sound, Next, Faithful, StateAt, View, Follows;
    var b := Final(a, steps);
    if steps == [] {
    } else {
      var n := |steps| - 1;
      Follow(primary, a, steps[..n]);
      FollowStep(primary, Final(a, steps[..n]), steps[n]);
    }
    if !b.poisoned && !Stalled(b) {
      Serves(b);
      StateAtKept(b.history, primary, b.lastLsn);
    }
  }

  // ----- Two modes, one map -------------------------------------------------

  /** A classic and a write-back engine that have logged the same. */
  ghost predicate Alike(c: State, b: State) {
    && Sound(c) && Sound(b) && !c.forked && !b.forked && c.writeBack.None? && b.writeBack.Some?
    && c.history == b.history && c.poisoned == b.poisoned && !c.torn && NoneMissing(c)
  }

  lemma AlikeViews(c: State, b: State)
    requires Alike(c, b) && !c.poisoned
    ensures View(c) == View(b) == StateAt(c.history, c.lastLsn) && c.lastLsn == b.lastLsn
    ensures !Misled(c) && !Misled(b) && c.userLen == b.userLen
  {
    hide Files, JobOk, At, StateAt, UserKeys, Merge, ExactBuffer, BufferTouched, EngineProofs.Ordered, Matches,
         Faithful;
    NotStalled(c);
    NotStalled(b);
    AtRight(c.history, c.lastLsn, c.tree, {});
  }

  lemma QuietAlike(c: State, b: State, step: EngineStep)
    requires Alike(c, b) && Quiet(step)
    ensures Alike(Next(c, step), b) && Alike(c, Next(b, step))
  {
    hide Sound, Next, Loses;
    NextOk(c, step);
    NextOk(b, step);
    QuietFrame(c, step);
    QuietFrame(b, step);
    QuietLoses(c, step);
    StaysWhole(c, step);
  }

  lemma QuietLoses(a: State, step: EngineStep)
    requires Quiet(step)
    ensures !Loses(a, step)
  {
  }

  /** The same batch gives both the same results, the same record and the same map. */
  lemma CommitAlike(c: State, b: State, ops: seq<Operation>, barrier: Barrier, outcome: LogOutcome)
    requires Alike(c, b) && Addressable(ops) && !Locked(c) && !Locked(b)
    ensures CommitResult(c, ops, true, outcome) == CommitResult(b, ops, true, outcome)
    ensures Alike(AfterCommit(c, ops, barrier, true, outcome), AfterCommit(b, ops, barrier, true, outcome))
  {
    hide Sound, PlanOf, Visible, Appended, RecordOf, AfterCommit, Loses, ValidOps, Kept;
    var step := CommitStep(ops, barrier, true, outcome);
    NextOk(c, step);
    NextOk(b, step);
    CommitForks(c, ops, barrier, true, outcome);
    CommitForks(b, ops, barrier, true, outcome);
    StaysWhole(c, step) by { CommitLoses(c, step); }
    CommitFrame(c, ops, barrier, true, outcome);
    CommitFrame(b, ops, barrier, true, outcome);
    if !c.poisoned {
      AlikeViews(c, b);
      SamePlan(c, b, ops);
    }
  }

  lemma CommitLoses(a: State, step: EngineStep)
    requires step.CommitStep?
    ensures !Loses(a, step)
  {
  }

  /** Both plan the same record and the same results. */
  lemma SamePlan(c: State, b: State, ops: seq<Operation>)
    requires View(c) == View(b) && c.lastLsn == b.lastLsn && !Misled(c) && !Misled(b) && Addressable(ops)
    ensures PlanOf(c, ops).logged == PlanOf(b, ops).logged && PlanOf(c, ops).results == PlanOf(b, ops).results
    ensures RecordOf(c, ops) == RecordOf(b, ops)
  {
    hide PlanOf, PlanFor, Misled, View, RecordOf;
    NotMisled(c);
    NotMisled(b);
    PlanHolds(c, ops);
    PlanHolds(b, ops);
    PlanSays(View(c), ops, c.lastLsn + 1, PlanOf(c, ops));
    PlanSays(View(b), ops, b.lastLsn + 1, PlanOf(b, ops));
    SameReports(PlanOf(c, ops).results, PlanOf(b, ops).results, View(c), ops, c.lastLsn + 1);
    RecordIs(c, ops);
    RecordIs(b, ops);
  }

  lemma SameReports(a: seq<OpResult>, b: seq<OpResult>, view: Store, ops: seq<Operation>, lsn: nat)
    requires Reports(a, view, ops, lsn) && Reports(b, view, ops, lsn)
    ensures a == b
  {
  }

  /** What a commit does to history and health, whatever it meets. */
  lemma CommitFrame(a: State, ops: seq<Operation>, barrier: Barrier, treeOk: bool, outcome: LogOutcome)
    ensures var b := AfterCommit(a, ops, barrier, treeOk, outcome);
            && b.history == (if Writes(a, ops, treeOk, outcome) then Longer(a.history, RecordOf(a, ops)) else a.history)
            && b.poisoned == (a.poisoned || CommitResult(a, ops, treeOk, outcome) == Err(LogFailed))
            && b.torn == a.torn && b.writeBack.Some? == a.writeBack.Some?
  {
    hide PlanOf, Visible, Appended, Misled, RecordOf, ValidOps;
    var flagged := a.(possible := PlanOf(a, ops).possible);
    var logged := flagged.(history := Longer(a.history, RecordOf(a, ops)), forked := a.forked || Misled(a));
    VisibleFrame(logged, PlanOf(a, ops));
    AppendsFrame(logged, RecordOf(a, ops), Deferred);
    AppendsFrame(Visible(logged, PlanOf(a, ops)), RecordOf(a, ops), barrier);
  }

  lemma VisibleFrame(a: State, p: Plan)
    ensures var b := Visible(a, p);
            && b.history == a.history && b.poisoned == a.poisoned && b.torn == a.torn
            && b.writeBack.Some? == a.writeBack.Some?
  {
    hide ApplyEdits, RecordEdits, TouchedKeys;
  }

  lemma AppendsFrame(a: State, rec: Record, barrier: Barrier)
    ensures var b := Appended(a, rec, barrier);
            && b.history == a.history && b.poisoned == a.poisoned && b.torn == a.torn
            && b.writeBack.Some? == a.writeBack.Some?
  {
    hide Top;
  }

  // ----- Steps get somewhere ------------------------------------------------

  /** A flush that the tree takes empties the buffer into it; the tree is then the whole view. */
  lemma FlushCompletes(a: State)
    requires Sound(a) && !a.poisoned && !Locked(a) && a.writeBack.Some?
    ensures var b := Next(a, FlushStep(true));
            && b.writeBack == Some(map[]) && b.tree == View(a) == View(b)
            && (a.writeBack != Some(map[]) ==> b.absorbed == a.lastLsn)
  {
    hide Sound, Merge;
    FlushOk(a, true);
    FreshTree(a.tree);
    FreshTree(Merge(a.tree, a.writeBack.value));
  }

  lemma FreshTree(t: Store)
    ensures Merge(t, map[]) == t
  {
  }

  /** The phases of a checkpoint, one after the other, with anything visible at least that was there
      when it began. */
  function Checkpointed(a: State, visible: nat, retired: nat): State {
    Next(Next(Next(Next(a, BeginStep), CompactStep(visible)), PublishStep), AdoptStep(retired))
  }

  lemma BeginsJob(a: State)
    requires !a.poisoned && !Locked(a)
    ensures var b := Next(a, BeginStep);
            && b.job.Some? && b.job.value.Begun? && b.job.value.begunAt == |b.log| && b.log == a.log + a.pending
            && b.pending == [] && b.lastLsn == a.lastLsn && !b.poisoned && b.torn == a.torn
            && b.writeBack.Some? == a.writeBack.Some?
  {
    hide Top;
  }

  lemma CompactsJob(a: State, visible: nat)
    requires a.job.Some? && a.job.value.Begun? && a.job.value.begunAt <= visible <= |a.log|
    ensures var b := Next(a, CompactStep(visible));
            && b.job.Some? && b.job.value.Compacted? && b.lastLsn == a.lastLsn && b.poisoned == a.poisoned
            && b.torn == a.torn && b.writeBack.Some? == a.writeBack.Some?
  {
    hide Replayed, Fewer;
  }

  lemma PublishesJob(a: State)
    requires !a.poisoned && a.job.Some? && a.job.value.Compacted?
    ensures var b := Next(a, PublishStep);
            && b.job == Some(Published(b.manifest.store)) && b.manifest.lsn == b.lastLsn == a.lastLsn && b.pending == []
            && !b.poisoned && b.torn == a.torn && b.writeBack.Some? == a.writeBack.Some?
  {
    hide Replayed, Fewer, Top;
  }

  lemma AdoptsJob(a: State, retired: nat)
    requires Locked(a)
    ensures var b := Next(a, AdoptStep(retired));
            && b.manifest == a.manifest && b.tree == a.job.value.tree && b.job.None? && b.poisoned == a.poisoned
            && b.lastLsn == b.absorbed == a.lastLsn && b.pending == a.pending && b.flushed == |b.log|
            && b.writeBack == if a.writeBack.Some? then Some(map[]) else None
  {
    hide Before;
  }

  /** The tree a checkpoint has just published is the view. */
  lemma PublishedWhole(a: State)
    requires Sound(a) && Locked(a) && !a.torn && NoneMissing(a)
    ensures a.manifest.store == View(a) == a.job.value.tree
  {
    hide Files, Served, Counts, StateAt, View, Kept;
    Publishes(a);
    Serves(a);
  }

  /** A checkpoint of a healthy engine in either mode, taken without interruption, publishes the state
      of the whole history under the LSN the engine stands at, adopts it, and empties the buffer. */
  lemma CheckpointCompletes(a: State, retired: nat)
    requires Sound(a) && !a.poisoned && !Locked(a) && !a.torn && NoneMissing(a)
    ensures var b := Checkpointed(a, |a.log| + |a.pending|, retired);
            && b.manifest == Manifest(View(a), a.lastLsn) && b.tree == View(b) == View(a) && b.job.None? && !b.poisoned
            && b.lastLsn == a.lastLsn && b.absorbed == a.lastLsn && b.writeBack.Some? == a.writeBack.Some?
            && (b.writeBack.Some? ==> b.writeBack.value == map[]) && b.pending == [] && b.flushed == |b.log|
  {
    hide Sound, Merge, AfterBegin, AfterCompact, AfterPublish, AfterAdopt;
    var visible := |a.log| + |a.pending|;
    var s1 := Next(a, BeginStep);
    BeginsJob(a);
    BeginOk(a);
    var s2 := Next(s1, CompactStep(visible));
    CompactsJob(s1, visible);
    CompactOk(s1, visible);
    var s3 := Next(s2, PublishStep);
    PublishesJob(s2);
    PublishOk(s2);
    var s4 := Next(s3, AdoptStep(retired));
    AdoptsJob(s3, retired);
    AdoptOk(s3, retired);
    StaysWhole(a, BeginStep);
    StaysWhole(s1, CompactStep(visible));
    StaysWhole(s2, PublishStep);
    PublishedWhole(s3);
    FreshTree(s4.tree);
  }

  /** After a crash that left any written records beyond the flushed ones, opening serves exactly the
      state of what survived, healthy and with nothing pending, and its user keys in any case. */
  lemma Reopens(a: State, durable: nat)
    requires Sound(a) && a.flushed <= durable <= |a.log|
    ensures var b := Next(a, CrashStep(durable));
            && !b.poisoned && b.job.None? && b.pending == [] && b.writeBack.Some? == a.writeBack.Some?
            && b.history <= a.history && |b.history| == Max(a.reach, Top(a.logStart, a.log[..durable]))
            && (!Stalled(b) ==>
                  && b.lastLsn == |b.history|
                  && (View(b) == StateAt(a.history, b.lastLsn) <==> b.missing.live == {})
                  && forall k :: !Reserved(k) ==> Lookup(View(b), k) == Lookup(StateAt(a.history, b.lastLsn), k))
  {
    hide Sound, AfterCrash, StateAt, View, Kept, Top;
    var b := Next(a, CrashStep(durable));
    CrashOk(a, durable);
    CrashHealthy(a, durable);
    if !Stalled(b) {
      Serves(b);
      StateAtKept(b.history, a.history, b.lastLsn);
    }
  }

  lemma CrashHealthy(a: State, durable: nat)
    requires a.flushed <= durable <= |a.log|
    ensures var b := AfterCrash(a, durable);
            !b.poisoned && b.job.None? && b.pending == [] && b.writeBack.Some? == a.writeBack.Some?
  {
    hide Replayed, Fewer, UserKeys, Top;
  }

  /** A replica whose log and tree take the record is at the record's state. */
  lemma ReplicaAdvances(a: State, rec: Record)
    requires !a.poisoned && !Locked(a) && a.writeBack.None? && rec.lsn == a.lastLsn + 1
    ensures var b := Next(a, ReplicateStep(rec, Written, None));
            && b.lastLsn == rec.lsn && View(b) == RedoAll(View(a), rec.ops, rec.lsn) && !b.poisoned
            && b.log == a.log + a.pending + [rec] && b.userLen == |UserKeys(View(b))|
  {
    hide RedoAll, DeleteHits, TouchedKeys, UserKeys, Top, Foreign;
    assert a.log + (a.pending + [rec]) == a.log + a.pending + [rec];
  }
}
