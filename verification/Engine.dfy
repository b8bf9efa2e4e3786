/** The commit engine as it runs: each method takes the fields from one state of `EngineSteps` to
    the next, whatever state it meets. */
module Engine {
  import opened Results
  import opened Stores
  import opened Overlays
  import opened Replay
  import opened Planning
  import opened WriteBack
  import opened Replicas
  import opened Lineage
  import opened EngineSteps
  import opened EngineProofs
  import opened EngineRuns

  /** Applies the operations of a record edit by edit, up to where one fails, and notes whether a
      delete of a user key found it. */
  method ApplyOps(before: Store, ops: seq<Operation>, lsn: nat, cut: Option<Stall>) returns (m: Store, hit: bool)
    requires cut.Some? ==> cut.value.at < |ops|
    ensures cut.None? ==> m == RedoAll(before, ops, lsn) && hit == DeleteHits(before, ops, lsn)
    ensures cut.Some? ==>
              var at, half := cut.value.at, cut.value.half;
              m == PartialRedo(before, ops, lsn, at, half) &&
                hit == DeleteHits(before, ops[..if half then at + 1 else at], lsn)
  {
    hide RedoAll, Redo;
    m, hit := before, false;
    var whole := if cut.Some? then cut.value.at else |ops|;
    RedoNone(before, lsn);
    for i := 0 to whole
      invariant m == RedoAll(before, ops[..i], lsn) && hit == DeleteHits(before, ops[..i], lsn)
    {
      DeleteHitsSnoc(before, ops, i, lsn);
      hit := hit || (ops[i].Delete? && !Reserved(ops[i].key) && ops[i].key in m);
      m := Redo(m, ops[i], lsn);
    }
    if cut.Some? && cut.value.half {
      DeleteHitsSnoc(before, ops, whole, lsn);
      hit := hit || (ops[whole].Delete? && !Reserved(ops[whole].key) && ops[whole].key in m);
      m := HalfRedo(m, ops[whole], lsn);
    }
    assert ops[..|ops|] == ops;
  }

  lemma RedoNone(m: Store, lsn: nat)
    ensures RedoAll(m, [], lsn) == m && !DeleteHits(m, [], lsn)
  {
  }

  lemma DeleteHitsSnoc(m: Store, ops: seq<Operation>, i: nat, lsn: nat)
    requires i < |ops|
    ensures RedoAll(m, ops[..i + 1], lsn) == Redo(RedoAll(m, ops[..i], lsn), ops[i], lsn)
    ensures DeleteHits(m, ops[..i + 1], lsn) <==>
            || DeleteHits(m, ops[..i], lsn)
            || (ops[i].Delete? && !Reserved(ops[i].key) && ops[i].key in RedoAll(m, ops[..i], lsn))
  {
    hide Redo, RedoAll, Reserved;
    var more, head := ops[..i + 1], ops[..i];
    RedoSnoc(m, head, ops[i], lsn);
    assert more == head + [ops[i]] && more[..i] == head && forall j :: 0 <= j < i ==> more[..j] == head[..j];
    if DeleteHits(m, head, lsn) {
      var j :| && 0 <= j < |head| && head[j].Delete? && !Reserved(head[j].key)
               && head[j].key in RedoAll(m, head[..j], lsn);
      assert more[j] == head[j];
    }
  }

  /** The records past `after`, replayed onto `tree`; a record at or below what is reached is skipped. */
  method ReplayLog(tree: Store, log: seq<Record>, after: nat) returns (replayed: Store, reached: nat)
    ensures (replayed, reached) == Replayed(tree, log, after)
  {
    hide RedoAll;
    replayed, reached := tree, after;
    for i := 0 to |log|
      invariant (replayed, reached) == Replayed(tree, log[..i], after)
    {
      assert log[..i + 1][..i] == log[..i];
      if log[i].lsn > reached {
        var hit;
        replayed, hit := ApplyOps(replayed, log[i].ops, log[i].lsn, None);
        reached := log[i].lsn;
      }
    }
    assert log[..|log|] == log;
  }

  /** The log: the segment files, and what is still to reach them. */
  datatype Wal = Wal(start: nat, records: seq<Record>, flushed: nat, pending: seq<Record>, appended: nat, synced: nat)

  /** What the engine serves from, and the counters beside it. */
  datatype Live = Live(tree: Store, writeBack: Option<Buffer>, absorbed: nat, lastLsn: nat, userLen: int,
                       possible: bool)

  function WalOf(a: State): Wal {
    Wal(a.logStart, a.log, a.flushed, a.pending, a.appended, a.synced)
  }

  function LiveOf(a: State): Live {
    Live(a.tree, a.writeBack, a.absorbed, a.lastLsn, a.userLen, a.possible)
  }

  class Engine {
    var manifest: Manifest
    var wal: Wal
    var live: Live
    var poisoned: bool
    var job: Option<Job>
    /** The state these fields are in, with what only proofs look at. */
    ghost var now: State

    ghost predicate Valid()
      reads this
    {
      now.manifest == manifest && WalOf(now) == wal && LiveOf(now) == live && now.poisoned == poisoned && now.job == job
    }

    function View(): Store
      reads this
    {
      ViewOf(live.tree, live.writeBack)
    }

    predicate Publishing()
      reads this
    {
      job.Some? && job.value.Published?
    }

    constructor (buffered: bool)
      ensures Valid() && now == Created(buffered)
    {
      manifest, wal := Manifest(map[], 0), Wal(0, [], 0, [], 0, 0);
      live := Live(map[], if buffered then Some(map[]) else None, 0, 0, 0, false);
      poisoned, job, now := false, None, Created(buffered);
    }

    // ----- The log ----------------------------------------------------------

    /** Writes the records held in memory to the active segment. */
    method Drain()
      requires Valid()
      modifies this
      ensures Valid() && now == Drained(old(now))
    {
      var all := wal.records + wal.pending;
      wal := wal.(records := all, pending := [], appended := Max(wal.appended, Top(wal.start, all)));
      now := Drained(now);
    }

    /** Flushes the files unless an earlier flush has passed the LSN. */
    method SyncThrough(lsn: nat)
      requires Valid()
      modifies this
      ensures Valid() && now == SyncedThrough(old(now), lsn)
    {
      if wal.synced < lsn {
        wal := wal.(flushed := |wal.records|, synced := Max(wal.synced, wal.appended));
      }
      now := SyncedThrough(now, lsn);
    }

    method Append(rec: Record, barrier: Barrier)
      requires Valid()
      modifies this
      ensures Valid() && now == Appended(old(now), rec, barrier)
    {
      hide Drained, SyncedThrough;
      wal, now := wal.(pending := wal.pending + [rec]), now.(pending := now.pending + [rec]);
      if !barrier.Held? {
        Drain();
      }
      if barrier.Immediate? {
        SyncThrough(rec.lsn);
      }
    }

    /** Makes every commit so far durable. */
    method Sync() returns (r: Result<(), EngineError>)
      requires Valid()
      modifies this
      ensures Valid() && now == AfterSync(old(now)) && r == if now.poisoned then Err(Poisoned) else Ok(())
    {
      hide Drained, SyncedThrough;
      if poisoned {
        return Err(Poisoned);
      }
      ghost var a := now;
      Drain();
      SyncThrough(wal.appended);
      SyncFrames(a);
      r := Ok(());
    }

    // ----- Commits and flushes ----------------------------------------------

    /** Applies a batch: plans it on the view, makes it visible, logs one record. Returns also the
        operations that became visible. */
    method Commit(ops: seq<Operation>, barrier: Barrier, treeOk: bool, outcome: LogOutcome)
      returns (r: Result<seq<OpResult>, EngineError>, shown: seq<Operation>)
      requires Valid() && Addressable(ops)
      modifies this
      ensures Valid() && now == AfterCommit(old(now), ops, barrier, treeOk, outcome)
      ensures r == CommitResult(old(now), ops, treeOk, outcome)
      ensures shown == if r.Ok? then PlanOf(old(now), ops).logged else []
    {
      hide Planned, LoggedWith, Misled, AfterCommit, CommitResult;
      ghost var a := now;
      CommitIs(a, ops, barrier, treeOk, outcome);
      if poisoned {
        return Err(Poisoned), [];
      }
      var valid := forall i | 0 <= i < |ops| :: ValidOp(ops[i]);
      if !valid {
        return Err(InvalidOp), [];
      }
      var p := PlanBatch(View(), ops, live.lastLsn + 1, live.possible);
      live, now := live.(possible := p.possible), now.(possible := p.possible);
      if p.logged == [] {
        return Ok(p.results), [];
      }
      if live.writeBack.None? && !treeOk {
        return Err(EngineError.TreeFailed), [];
      }
      Log(p, barrier, outcome, Misled(a));
      if !outcome.Written? {
        return Err(LogFailed), [];
      }
      r, shown := Ok(p.results), p.logged;
    }

    /** Logs a planned batch and makes it visible. In classic mode the tree changes first and goes
        back to its old root when the log fails; in write-back mode the record comes first. */
    method Log(p: Plan, barrier: Barrier, outcome: LogOutcome, ghost misled: bool)
      requires Valid()
      modifies this
      ensures Valid() && now == LoggedWith(old(now), p, barrier, outcome, misled)
    {
      hide Visible, Appended;
      var rec := Record(live.lastLsn + 1, p.logged);
      if outcome.Lost? {
        poisoned, now := true, now.(poisoned := true);
        return;
      }
      now := now.(history := Longer(now.history, rec), forked := now.forked || misled);
      if outcome.WrittenButFailed? {
        Append(rec, Deferred);
        poisoned, now := true, now.(poisoned := true);
        return;
      }
      Show(p);
      Append(rec, barrier);
    }

    /** Makes a planned batch visible at the next LSN: in the buffer when there is one, else in the
        tree. */
    method Show(p: Plan)
      requires Valid()
      modifies this
      ensures Valid() && now == Visible(old(now), p)
    {
      hide ApplyEdits, RecordEdits, TouchedKeys;
      var lsn := live.lastLsn + 1;
      live := live.(lastLsn := lsn, userLen := live.userLen + p.userDelta);
      if live.writeBack.Some? {
        live := live.(writeBack := Some(RecordEdits(live.writeBack.value, p.mutations, lsn)));
      } else {
        live := live.(tree := ApplyEdits(live.tree, p.mutations));
      }
      now := Visible(now, p);
    }

    /** One amortised tree pass over the whole buffer; when it fails the buffer stays. */
    method Flush(treeOk: bool) returns (r: Result<(), EngineError>)
      requires Valid()
      modifies this
      ensures Valid() && now == AfterFlush(old(now), treeOk)
      ensures r.Ok? <==> !now.poisoned && (old(now).writeBack in {None, Some(map[])} || treeOk)
    {
      hide Merge, ApplyEdits;
      if poisoned {
        return Err(Poisoned);
      }
      if live.writeBack.None? || live.writeBack.value == map[] {
        return Ok(());
      }
      if !treeOk {
        return Err(EngineError.TreeFailed);
      }
      var edits := FlushEdits(live.writeBack.value, live.tree);
      live := live.(tree := ApplyEdits(live.tree, edits), writeBack := Some(map[]), absorbed := live.lastLsn);
      now := AfterFlush(now, treeOk);
      r := Ok(());
    }

    // ----- Checkpoints ------------------------------------------------------

    /** Phase one, locked and brief. The buffer is not flushed. */
    method BeginCheckpoint() returns (r: Result<(), EngineError>)
      requires Valid()
      modifies this
      ensures Valid() && now == AfterBegin(old(now)) && (r.Ok? <==> !now.poisoned)
    {
      hide AfterSync;
      if poisoned {
        return Err(Poisoned);
      }
      ghost var a := now;
      r := Sync();
      SyncFrames(a);
      var lsn := if live.writeBack.Some? then live.absorbed else live.lastLsn;
      job, now := Some(Begun(live.tree, lsn, |wal.records|)), AfterBegin(a);
    }

    /** Phase two, without the lock: replays onto the compacted copy the records visible in the files,
        which are at least those that were there when it began. */
    method Compact(visible: nat)
      requires Valid() && job.Some? && job.value.Begun? && job.value.begunAt <= visible <= |wal.records|
      modifies this
      ensures Valid() && now == AfterCompact(old(now), visible)
    {
      hide Replayed, Fewer;
      var compacted, reached := ReplayLog(job.value.snapshot, wal.records[..visible], job.value.lsn);
      job, now := Some(Compacted(compacted, reached)), AfterCompact(now, visible);
    }

    /** Phase three up to its commit point: replays the tail and publishes the manifest. */
    method PublishCheckpoint() returns (r: Result<(), EngineError>)
      requires Valid() && job.Some? && job.value.Compacted?
      modifies this
      ensures Valid() && now == AfterPublish(old(now)) && (r.Ok? <==> !now.poisoned)
    {
      hide Replayed, Fewer, Top;
      if poisoned {
        return Err(Poisoned);
      }
      ghost var a := now;
      Drain();
      var final, end := ReplayLog(job.value.tree, wal.records, job.value.reached);
      manifest, job, now := Manifest(final, live.lastLsn), Some(Published(final)), AfterPublish(a);
      r := Ok(());
    }

    /** Phase three, adoption: the compacted tree replaces the tree, the buffer restarts empty, the
        segment is sealed, and the first `retired` records go with the segments that held them. */
    method AdoptCheckpoint(retired: nat)
      requires Valid() && Publishing()
      modifies this
      ensures Valid() && now == AfterAdopt(old(now), retired)
    {
      hide Before, AfterAdopt;
      AdoptedIs(now, retired);
      var cleared := if live.writeBack.Some? then Some(map[]) else None;
      live := live.(tree := job.value.tree, writeBack := cleared, absorbed := live.lastLsn);
      var n := if retired < |wal.records| then retired else |wal.records|;
      var start := if n == 0 then wal.start
      else if n == |wal.records| then live.lastLsn else Before(wal.records[n].lsn);
      wal := Wal(start, wal.records[n..], |wal.records| - n, wal.pending, wal.appended, Max(wal.synced, wal.appended));
      job, now := None, AfterAdopt(now, retired);
    }

    // ----- Crash and open ---------------------------------------------------

    /** What the files hold after a crash that left the first `durable` records. */
    method Crash(durable: nat)
      requires Valid() && wal.flushed <= durable <= |wal.records|
      modifies this
      ensures Valid() && now == Crashed(old(now), durable)
    {
      var kept := wal.records[..durable];
      if Top(wal.start, kept) < manifest.lsn {
        wal := wal.(start := manifest.lsn, records := []);
      } else {
        wal := wal.(records := kept);
      }
      now := Crashed(now, durable);
    }

    /** Opens the database: replays the log onto the manifest's tree and rebuilds the counters. */
    method Open()
      requires Valid()
      modifies this
      ensures Valid() && now == Opened(old(now))
    {
      hide Replayed, Fewer, UserKeys, IsTombstone;
      var t, end := ReplayLog(manifest.store, wal.records, manifest.lsn);
      wal := wal.(flushed := |wal.records|, pending := [], appended := end, synced := end);
      var cleared := if live.writeBack.Some? then Some(map[]) else None;
      live := Live(t, cleared, end, end, |UserKeys(t)|, exists k | k in t :: IsTombstone(k));
      poisoned, job, now := false, None, Opened(now);
    }

    // ----- Replication ------------------------------------------------------

    /** A replica logs a shipped record verbatim and applies it one published edit at a time. When an
        edit fails the record is in the log, the tree shows the edits made so far, and the engine
        is not poisoned. Returns also how many operations it came to. */
    method ApplyReplicated(rec: Record, outcome: LogOutcome, fault: Option<Stall>)
      returns (r: Result<nat, EngineError>, tried: nat)
      requires Valid()
      modifies this
      ensures Valid() && now == AfterReplicate(old(now), rec, outcome, fault)
      ensures r.Ok? <==> !now.poisoned && now.writeBack.None? && rec.lsn == old(now).lastLsn + 1 && outcome.Written?
                         && Cut(rec, outcome, fault).None?
      ensures r.Ok? ==> r.value == now.lastLsn == rec.lsn
      ensures tried == Tried(old(now), rec, outcome, fault)
    {
      hide RedoAll, PartialRedo, DeleteHits, UserKeys, Foreign, Appended, AfterReplicate;
      if poisoned || live.writeBack.Some? || rec.lsn != live.lastLsn + 1 || outcome.Lost? {
        RefusedIs(now, rec, outcome, fault);
        return Err(if poisoned then Poisoned else LogFailed), 0;
      }
      ghost var a := now;
      ReplicatedIs(a, rec, outcome, fault);
      now := a.(history := Longer(a.history, rec), forked := a.forked || Foreign(a, rec));
      Append(rec, Deferred);
      now := AfterReplicate(a, rec, outcome, fault);
      if rec.ops == [] && !outcome.Written? {
        return Err(LogFailed), 0;
      }
      var cut := Cut(rec, outcome, fault);
      var t, hit := ApplyOps(live.tree, rec.ops, rec.lsn, cut);
      live := live.(tree := t, possible := live.possible || hit);
      if cut.Some? {
        if !outcome.Written? {
          return Err(LogFailed), 0;
        }
        return Err(EngineError.TreeFailed), cut.value.at + 1;
      }
      live := live.(lastLsn := rec.lsn, userLen := |UserKeys(t)|);
      r, tried := Ok(rec.lsn), |rec.ops|;
    }

    // ----- Every run --------------------------------------------------------

    /** Takes one step of any kind; a step that is not enabled does nothing. Says whether the step
        was a commit that reported a logged record as durable. */
    method Take(step: EngineStep) returns (acked: bool)
      requires Valid() && Allowed(step)
      modifies this
      ensures Valid() && now == Next(old(now), step) && acked == Acked(old(now), step)
    {
      hide AfterCommit, AfterSync, AfterFlush, AfterBegin, AfterCompact, AfterPublish, AfterAdopt, AfterCrash,
           AfterReplicate, CommitResult;
      acked := false;
      match step {
        case CompactStep(visible) =>
          TakeCompact(visible);
        case AdoptStep(retired) =>
          if Publishing() {
            AdoptCheckpoint(retired);
          } else {
            NotLocked(now, retired);
          }
        case CrashStep(durable) =>
          TakeCrash(durable);
        case _ =>
          if !Publishing() {
            acked := TakeUnlocked(step);
          }
      }
    }

    method TakeCompact(visible: nat)
      requires Valid()
      modifies this
      ensures Valid() && now == AfterCompact(old(now), visible)
    {
      hide Replayed, Fewer;
      if job.Some? && job.value.Begun? && job.value.begunAt <= visible <= |wal.records| {
        Compact(visible);
      }
    }

    method TakeCrash(durable: nat)
      requires Valid()
      modifies this
      ensures Valid() && now == AfterCrash(old(now), durable)
    {
      hide Crashed, Opened;
      if wal.flushed <= durable <= |wal.records| {
        Crash(durable);
        Open();
      }
    }

    method TakePublish()
      requires Valid()
      modifies this
      ensures Valid() && now == AfterPublish(old(now))
    {
      hide Replayed, Fewer, Drained;
      if job.Some? && job.value.Compacted? {
        var r := PublishCheckpoint();
      }
    }

    /** The steps that need the engine lock. */
    method TakeUnlocked(step: EngineStep) returns (acked: bool)
      requires Valid() && Allowed(step) && !Publishing()
      requires !step.CompactStep? && !step.AdoptStep? && !step.CrashStep?
      modifies this
      ensures Valid() && now == Next(old(now), step) && acked == Acked(old(now), step)
    {
      hide AfterCommit, AfterSync, AfterFlush, AfterBegin, AfterPublish, AfterReplicate, CommitResult, PlanOf;
      acked := false;
      match step {
        case CommitStep(ops, barrier, treeOk, outcome) =>
          var r, shown := Commit(ops, barrier, treeOk, outcome);
          acked := r.Ok? && barrier.Immediate? && shown != [];
        case SyncStep =>
          var r := Sync();
        case FlushStep(treeOk) =>
          var r := Flush(treeOk);
        case BeginStep =>
          var r := BeginCheckpoint();
        case PublishStep =>
          TakePublish();
        case ReplicateStep(rec, outcome, fault) =>
          var r, tried := ApplyReplicated(rec, outcome, fault);
      }
    }

    /** Whatever the interleaving of commits, barriers, flushes, checkpoint phases, segment deletions,
        replicated records that may stop part-way, and crashes: the run leaves its history exactly
        when some step forks. Until then a healthy engine that is not stalled serves the state of
        its history, and the manifest is one, exactly when no tombstone is missing there; every
        user key is right; and `acked` are the records of the commits reported as durable, each in
        the history at its own LSN. */
    method Run(steps: seq<EngineStep>) returns (ghost acked: seq<Record>)
      requires Valid() && Stands(now) && forall i :: 0 <= i < |steps| ==> Allowed(steps[i])
      modifies this
      ensures Valid() && Stands(now) && now == Final(old(now), steps)
      ensures now.forked <==> old(now).forked || exists i :: ForksAt(old(now), steps, i)
      ensures !now.forked && !poisoned && !Stalled(now) ==>
                && (View() == StateAt(now.history, now.lastLsn) <==> now.missing.live == {})
                && forall k :: !Reserved(k) ==> Lookup(View(), k) == Lookup(StateAt(now.history, now.lastLsn), k)
      ensures !now.forked ==>
                && manifest.lsn <= now.reach <= |now.history|
                && (manifest.store == StateAt(now.history, now.reach) <==> now.missing.manifest == {})
      ensures forall r :: r in acked <==> exists i :: AckedAt(old(now), steps, i, r)
      ensures !now.forked ==> forall r :: r in acked ==> 1 <= r.lsn <= |now.history| && now.history[r.lsn - 1] == r
    {
      hide Next, Acked, Stands, ForksAt, StateAt, AckedAt;
      acked := [];
      ghost var a := now;
      AckedWithin(a, steps);
      for i := 0 to |steps|
        invariant Valid() && now == Final(a, steps[..i])
        invariant forall r :: r in acked <==> exists j :: j < i && AckedAt(a, steps, j, r)
      {
        assert steps[..i + 1][..i] == steps[..i];
        AckedHere(a, steps, i);
        ghost var mid := now;
        var durable := Take(steps[i]);
        if durable {
          acked := acked + [AckedRecord(mid, steps[i])];
        }
      }
      assert steps[..|steps|] == steps;
      RunStands(a, steps);
      AcksStand(a, steps);
    }
  }

  ghost function AckedRecord(a: State, step: EngineStep): Record {
    if step.CommitStep? then RecordOf(a, step.ops) else Record(0, [])
  }

  /** Step `i` is a commit reported as durable, and `r` the record it logged. */
  ghost predicate AckedAt(a: State, steps: seq<EngineStep>, i: int, r: Record) {
    0 <= i < |steps| && Acked(Final(a, steps[..i]), steps[i]) && r == RecordOf(Final(a, steps[..i]), steps[i].ops)
  }

  lemma AckedHere(a: State, steps: seq<EngineStep>, i: nat)
    requires i < |steps|
    ensures var mid := Final(a, steps[..i]);
            if Acked(mid, steps[i]) then AckedAt(a, steps, i, AckedRecord(mid, steps[i])) &&
                                           forall r :: AckedAt(a, steps, i, r) ==> r == AckedRecord(mid, steps[i])
            else forall r :: !AckedAt(a, steps, i, r)
  {
    hide Final, RecordOf;
  }

  lemma AckedWithin(a: State, steps: seq<EngineStep>)
    ensures forall j, r :: AckedAt(a, steps, j, r) ==> 0 <= j < |steps|
  {
  }

  /** What a run that has not forked is worth. */
  lemma RunStands(a: State, steps: seq<EngineStep>)
    requires Stands(a) && forall i :: 0 <= i < |steps| ==> Allowed(steps[i])
    ensures var b := Final(a, steps);
            && Stands(b) && (b.forked <==> a.forked || exists i :: ForksAt(a, steps, i))
            && (!b.forked && !b.poisoned && !Stalled(b) ==>
                  && (View(b) == StateAt(b.history, b.lastLsn) <==> b.missing.live == {})
                  && forall k :: !Reserved(k) ==> Lookup(View(b), k) == Lookup(StateAt(b.history, b.lastLsn), k))
            && (!b.forked ==>
                  && b.manifest.lsn <= b.reach <= |b.history|
                  && (b.manifest.store == StateAt(b.history, b.reach) <==> b.missing.manifest == {}))
  {
    hide Sound, Next, ForksAt, StateAt, View, Final;
    var b := Final(a, steps);
    ForksSomewhere(a, steps);
    if !b.forked {
      FinalOk(a, steps);
      Publishes(b);
      if !b.poisoned && !Stalled(b) { Serves(b); }
    }
  }

  lemma AcksStand(a: State, steps: seq<EngineStep>)
    requires Stands(a) && forall i :: 0 <= i < |steps| ==> Allowed(steps[i])
    ensures var h := Final(a, steps).history;
            !Final(a, steps).forked ==>
              forall i, r :: AckedAt(a, steps, i, r) ==> 1 <= r.lsn <= |h| && h[r.lsn - 1] == r
  {
    hide Sound, Next, ForksAt, Acked, RecordOf, Final;
    var b := Final(a, steps);
    ForksSomewhere(a, steps);
    if !b.forked {
      forall i, r | AckedAt(a, steps, i, r) ensures 1 <= r.lsn <= |b.history| && b.history[r.lsn - 1] == r {
        AcksKept(a, steps, i);
      }
    }
  }

  lemma NotLocked(a: State, retired: nat)
    requires !Locked(a)
    ensures AfterAdopt(a, retired) == a
  {
  }

  /** What logging a planned batch comes to. */
  ghost function LoggedWith(a: State, p: Plan, barrier: Barrier, outcome: LogOutcome, misled: bool): State {
    var rec := Record(a.lastLsn + 1, p.logged);
    if outcome.Lost? then a.(poisoned := true)
    else
      var logged := a.(history := Longer(a.history, rec), forked := a.forked || misled);
      if outcome.Written? then Appended(Visible(logged, p), rec, barrier)
      else Appended(logged, rec, Deferred).(poisoned := true)
  }

  lemma CommitIs(a: State, ops: seq<Operation>, barrier: Barrier, treeOk: bool, outcome: LogOutcome)
    ensures var b, r := AfterCommit(a, ops, barrier, treeOk, outcome), CommitResult(a, ops, treeOk, outcome);
            if a.poisoned then b == a && r == Err(Poisoned)
            else if !ValidOps(ops) then b == a && r == Err(InvalidOp)
            else
              var p := Planned(View(a), ops, a.lastLsn + 1, a.possible);
              var flagged := a.(possible := p.possible);
              if p.logged == [] then b == flagged && r == Ok(p.results)
              else if a.writeBack.None? && !treeOk then b == flagged && r == Err(EngineError.TreeFailed)
              else b == LoggedWith(flagged, p, barrier, outcome, Misled(a)) &&
                   r == if outcome.Written? then Ok(p.results) else Err(LogFailed)
  {
    hide Planned, Visible, Appended, Misled, ValidOps;
  }

  lemma AdoptedIs(a: State, retired: nat)
    requires Locked(a)
    ensures var b, n := AfterAdopt(a, retired), if retired < |a.log| then retired else |a.log|;
            var start := if n == 0 then a.logStart else if n == |a.log| then a.lastLsn else Before(a.log[n].lsn);
            && WalOf(b) == Wal(start, a.log[n..], |a.log| - n, a.pending, a.appended, Max(a.synced, a.appended))
            && LiveOf(b) == LiveOf(a).(tree := a.job.value.tree, absorbed := a.lastLsn,
                                       writeBack := if a.writeBack.Some? then Some(map[]) else None)
            && b.manifest == a.manifest && b.poisoned == a.poisoned && b.job == None
  {
    hide Before;
  }

  lemma RefusedIs(a: State, rec: Record, outcome: LogOutcome, fault: Option<Stall>)
    requires a.poisoned || a.writeBack.Some? || rec.lsn != a.lastLsn + 1 || outcome.Lost?
    ensures AfterReplicate(a, rec, outcome, fault) == a
  {
  }

  lemma ReplicatedIs(a: State, rec: Record, outcome: LogOutcome, fault: Option<Stall>)
    requires !a.poisoned && a.writeBack.None? && rec.lsn == a.lastLsn + 1 && !outcome.Lost?
    ensures var logged := a.(history := Longer(a.history, rec), forked := a.forked || Foreign(a, rec));
            var b, c, cut := AfterReplicate(a, rec, outcome, fault), Appended(logged, rec, Deferred),
            Cut(rec, outcome, fault);
            && b.manifest == c.manifest && WalOf(b) == WalOf(c) && b.poisoned == c.poisoned && b.job == c.job
            && c == logged.(log := c.log, pending := c.pending, appended := c.appended)
            && (cut.Some? ==>
                  var at, half := cut.value.at, cut.value.half;
                  var hit := DeleteHits(a.tree, rec.ops[..if half then at + 1 else at], rec.lsn);
                  var t := PartialRedo(a.tree, rec.ops, rec.lsn, at, half);
                  LiveOf(b) == LiveOf(a).(tree := t, possible := a.possible || hit))
            && (cut.None? && (rec.ops != [] || outcome.Written?) ==>
                  var t, hit := RedoAll(a.tree, rec.ops, rec.lsn), DeleteHits(a.tree, rec.ops, rec.lsn);
                  LiveOf(b) == Live(t, None, a.absorbed, rec.lsn, |UserKeys(t)|, a.possible || hit))
            && (rec.ops == [] && outcome.WrittenButFailed? ==> LiveOf(b) == LiveOf(a))
  {
    hide Top, Foreign, RedoAll, PartialRedo, NewlyLost, DeleteHits, TouchedKeys, UserKeys;
  }

  // ----- Two modes, one map -------------------------------------------------

  /** One batch given to two engines, with what each does on its own beforehand. */
  datatype Round = Round(classicFirst: seq<EngineStep>, bufferedFirst: seq<EngineStep>, ops: seq<Operation>,
                         barrier: Barrier, outcome: LogOutcome)

  predicate ValidRound(r: Round) {
    && Addressable(r.ops) && (forall i :: 0 <= i < |r.classicFirst| ==> Quiet(r.classicFirst[i]))
    && forall i :: 0 <= i < |r.bufferedFirst| ==> Quiet(r.bufferedFirst[i])
  }

  /** What a round makes of the two: each takes its own steps, then both commit unless one of them is
      between publishing a checkpoint and adopting it. */
  ghost function AfterRound(c: State, b: State, r: Round): (State, State) {
    var c1, b1 := Final(c, r.classicFirst), Final(b, r.bufferedFirst);
    if Locked(c1) || Locked(b1) then (c1, b1)
    else (AfterCommit(c1, r.ops, r.barrier, true, r.outcome), AfterCommit(b1, r.ops, r.barrier, true, r.outcome))
  }

  /** What the classic engine answers. */
  ghost function RoundAnswer(c: State, b: State, r: Round): Option<Result<seq<OpResult>, EngineError>> {
    var c1, b1 := Final(c, r.classicFirst), Final(b, r.bufferedFirst);
    if Locked(c1) || Locked(b1) then None else Some(CommitResult(c1, r.ops, true, r.outcome))
  }

  /** A classic and a write-back engine given the same batches return the same results, hold the
      same map, revisions and tombstones included, and write the same log, whatever barriers,
      flushes and checkpoint phases each runs in between and however the log writes end. */
  method Lockstep(classic: Engine, buffered: Engine, rounds: seq<Round>)
    returns (a: seq<Option<Result<seq<OpResult>, EngineError>>>, b: seq<Option<Result<seq<OpResult>, EngineError>>>,
             ghost trace: seq<(State, State)>)
    requires classic != buffered && classic.Valid() && buffered.Valid() && Alike(classic.now, buffered.now)
    requires forall i :: 0 <= i < |rounds| ==> ValidRound(rounds[i])
    modifies classic, buffered
    ensures classic.Valid() && buffered.Valid() && Alike(classic.now, buffered.now)
    ensures !classic.poisoned ==> classic.View() == buffered.View()
    ensures a == b && |a| == |rounds| && |trace| == |rounds| + 1
    ensures trace[0] == (old(classic.now), old(buffered.now)) && trace[|rounds|] == (classic.now, buffered.now)
    ensures forall i :: 0 <= i < |rounds| ==>
              && trace[i + 1] == AfterRound(trace[i].0, trace[i].1, rounds[i])
              && a[i] == RoundAnswer(trace[i].0, trace[i].1, rounds[i])
  {
    hide Alike, AfterCommit, CommitResult, Final;
    a, b, trace := [], [], [(classic.now, buffered.now)];
    for i := 0 to |rounds|
      invariant classic.Valid() && buffered.Valid() && Alike(classic.now, buffered.now) && a == b
      invariant |a| == i && |trace| == i + 1 && trace[i] == (classic.now, buffered.now)
      invariant trace[0] == (old(classic.now), old(buffered.now))
      invariant forall j :: 0 <= j < i ==>
                  && trace[j + 1] == AfterRound(trace[j].0, trace[j].1, rounds[j])
                  && a[j] == RoundAnswer(trace[j].0, trace[j].1, rounds[j])
    {
      Quietly(classic, rounds[i].classicFirst, buffered.now, true);
      Quietly(buffered, rounds[i].bufferedFirst, classic.now, false);
      var r, q := None, None;
      if !classic.Publishing() && !buffered.Publishing() {
        r, q := CommitBoth(classic, buffered, rounds[i].ops, rounds[i].barrier, rounds[i].outcome);
      }
      a, b, trace := a + [r], b + [q], trace + [(classic.now, buffered.now)];
    }
    if !classic.poisoned { AlikeViews(classic.now, buffered.now); }
  }

  method CommitBoth(classic: Engine, buffered: Engine, ops: seq<Operation>, barrier: Barrier, outcome: LogOutcome)
    returns (r: Option<Result<seq<OpResult>, EngineError>>, q: Option<Result<seq<OpResult>, EngineError>>)
    requires classic != buffered && classic.Valid() && buffered.Valid() && Alike(classic.now, buffered.now)
    requires Addressable(ops) && !classic.Publishing() && !buffered.Publishing()
    modifies classic, buffered
    ensures classic.Valid() && buffered.Valid() && Alike(classic.now, buffered.now)
    ensures classic.now == AfterCommit(old(classic.now), ops, barrier, true, outcome)
    ensures buffered.now == AfterCommit(old(buffered.now), ops, barrier, true, outcome)
    ensures r == q == Some(CommitResult(old(classic.now), ops, true, outcome))
  {
    hide Alike, AfterCommit, CommitResult;
    CommitAlike(classic.now, buffered.now, ops, barrier, outcome);
    var x, _ := classic.Commit(ops, barrier, true, outcome);
    var y, _ := buffered.Commit(ops, barrier, true, outcome);
    r, q := Some(x), Some(y);
  }

  /** Steps that commit nothing leave an engine like the other one. */
  method Quietly(e: Engine, steps: seq<EngineStep>, ghost other: State, ghost classic: bool)
    requires e.Valid() && forall i :: 0 <= i < |steps| ==> Quiet(steps[i])
    requires if classic then Alike(e.now, other) else Alike(other, e.now)
    modifies e
    ensures e.Valid() && e.now == Final(old(e.now), steps)
    ensures if classic then Alike(e.now, other) else Alike(other, e.now)
  {
    hide Alike, Next, Acked;
    for i := 0 to |steps|
      invariant e.Valid() && e.now == Final(old(e.now), steps[..i])
      invariant if classic then Alike(e.now, other) else Alike(other, e.now)
    {
      assert steps[..i + 1][..i] == steps[..i];
      if classic { QuietAlike(e.now, other, steps[i]); } else { QuietAlike(other, e.now, steps[i]); }
      var acked := e.Take(steps[i]);
    }
    assert steps[..|steps|] == steps;
  }
}
