/** Runs in which an engine keeps less than its callers were told: each takes a record whose apply
    stopped part-way, which neither poisons the engine nor keeps it from serving commits. */
module EngineFaults {
  import opened Results
  import opened Keys
  import opened Mutations
  import opened Stores
  import opened Replay
  import opened Planning
  import opened WriteBack
  import opened Replicas
  import opened Lineage
  import opened EngineSteps
  import opened EngineProofs
  import opened EngineRuns

  // ----- A commit under an LSN that is taken --------------------------------

  /** While the files hold a record under the next LSN, a commit is acknowledged, written behind that
      record, and forgotten: opening gives what it would have given without the commit. */
  lemma Forgotten(a: State, ops: seq<Operation>)
    requires Sound(a) && !a.poisoned && a.writeBack.None? && ValidOps(ops) && PlanOf(a, ops).logged != []
    requires a.pending == [] && AllTop(a) > a.lastLsn
    ensures CommitResult(a, ops, true, Written).Ok?
    ensures var b := AfterCommit(a, ops, Immediate, true, Written);
            b.flushed <= |b.log| && View(AfterCrash(b, |b.log|)) == View(AfterCrash(a, |a.log|))
  {
    hide Served, Counts, JobOk, PlanOf, Replayed, AfterCommit, Kept, Files, AllTop, AfterCrash;
    var b, rec := AfterCommit(a, ops, Immediate, true, Written), RecordOf(a, ops);
    assert a.flushed <= |a.log| by { SoundFlushed(a); }
    AckFiles(a, ops);
    CommitFrame(a, ops, Immediate, true, Written);
    assert AllRecords(a) == a.log;
    FilesReach(a);
    SkipsLast(a.manifest.store, a.log, rec, a.manifest.lsn);
    CommitStart(a, ops);
    TopsAlike(a, rec);
    OpensTo(a);
    OpensTo(b);
  }

  lemma CommitStart(a: State, ops: seq<Operation>)
    ensures AfterCommit(a, ops, Immediate, true, Written).logStart == a.logStart
  {
    hide PlanOf, Misled, Top, ApplyEdits, RecordEdits, TouchedKeys, ValidOps;
  }

  lemma TopsAlike(a: State, rec: Record)
    requires Files(a) && Counters(a) && a.pending == [] && AllTop(a) > a.lastLsn && rec.lsn == a.lastLsn + 1
    ensures Top(a.logStart, a.log + [rec]) >= a.manifest.lsn && Top(a.logStart, a.log) >= a.manifest.lsn
  {
    hide EngineProofs.Ordered, Matches, Faithful, At, Kept;
    assert AllRecords(a) == a.log;
  }

  lemma OpensTo(a: State)
    requires a.flushed <= |a.log| && Top(a.logStart, a.log) >= a.manifest.lsn && a.writeBack.None?
    ensures View(AfterCrash(a, |a.log|)) == Replayed(a.manifest.store, a.log, a.manifest.lsn).0
  {
    hide Replayed, Top, UserKeys, Fewer;
    assert a.log[..|a.log|] == a.log;
  }

  lemma SkipsLast(t: Store, log: seq<Record>, rec: Record, after: nat)
    requires Reached(log, after) >= rec.lsn
    ensures Replayed(t, log + [rec], after) == Replayed(t, log, after)
  {
    assert (log + [rec])[..|log|] == log;
    SameReach(t, map[], log, after);
  }

  lemma {:induction false} SameReach(t: Store, u: Store, log: seq<Record>, after: nat)
    ensures Replayed(t, log, after).1 == Replayed(u, log, after).1
    decreases |log|
  {
    hide RedoAll;
    if log == [] {
    } else {
      SameReach(t, u, log[..|log| - 1], after);
    }
  }

  // ----- Whole runs ---------------------------------------------------------

  /** What a shipped record leaves. */
  lemma Ships(a: State, rec: Record, outcome: LogOutcome, fault: Option<Stall>)
    requires !a.poisoned && a.writeBack.None? && rec.lsn == a.lastLsn + 1 && !outcome.Lost? && !Locked(a)
    requires rec.ops != []
    ensures var b, cut := Next(a, ReplicateStep(rec, outcome, fault)), Cut(rec, outcome, fault);
            var still := if Stalled(a) then a.missing.live else a.missing.live - TouchedKeys(rec.ops);
            && b.log == AllRecords(a) + [rec] && b.pending == [] && b.history == Longer(a.history, rec)
            && b.manifest == a.manifest && b.logStart == a.logStart && b.job == a.job && !b.poisoned
            && b.writeBack.None? && b.flushed == a.flushed && b.synced == a.synced
            && (cut.None? ==>
                  && b.tree == RedoAll(a.tree, rec.ops, rec.lsn) && b.lastLsn == rec.lsn && b.missing.live == still
                  && b.possible == (a.possible || DeleteHits(a.tree, rec.ops, rec.lsn)))
            && (cut.Some? ==>
                  var at, half := cut.value.at, cut.value.half;
                  && b.tree == PartialRedo(a.tree, rec.ops, rec.lsn, at, half) && b.lastLsn == a.lastLsn
                  && b.missing.live == still + NewlyLost(a.tree, rec.ops, at, half)
                  && b.possible == (a.possible || DeleteHits(a.tree, rec.ops[..if half then at + 1 else at], rec.lsn)))
  {
    hide RedoAll, PartialRedo, NewlyLost, DeleteHits, TouchedKeys, UserKeys, Top, Foreign;
    assert a.log + (a.pending + [rec]) == AllRecords(a) + [rec];
  }

  /** One key, put or deleted by one operation. */
  lemma OneOp(m: Store, op: Operation, lsn: nat)
    ensures RedoAll(m, [op], lsn) == Redo(m, op, lsn) && Effective(m, [op], lsn) == Contribution(m, op)
    ensures PartialRedo(m, [op], lsn, 0, false) == m && PartialRedo(m, [op], lsn, 0, true) == HalfRedo(m, op, lsn)
  {
    assert [op][..0] == [];
    assert RedoAll(m, [], lsn) == m && Effective(m, [], lsn) == [];
  }

  function LostCommitRun(k: Key, j: Key, v: Value): seq<EngineStep> {
    [ReplicateStep(Record(1, [Operation.Put(k, v)]), Written, Some(Stall(0, false))),
     CommitStep([Operation.Put(j, v)], Immediate, true, Written),
     CrashStep(2)]
  }

  /** A record is in the files and nothing of it in the tree. */
  ghost predicate Bare(a: State, r: Record) {
    && a.log == [r] && a.pending == [] && a.tree == map[] && a.writeBack.None? && a.manifest == Manifest(map[], 0)
    && a.logStart == a.flushed == a.synced == a.lastLsn == 0 && !a.poisoned && a.job.None? && !a.possible
  }

  lemma StopsAtOnce(r: Record)
    requires r.lsn == 1 && |r.ops| == 1
    ensures Bare(Next(Created(false), ReplicateStep(r, Written, Some(Stall(0, false)))), r)
  {
    hide AfterReplicate, RedoAll;
    Ships(Created(false), r, Written, Some(Stall(0, false)));
    assert r.ops == [r.ops[0]] && r.ops[..0] == [];
    OneOp(map[], r.ops[0], 1);
    assert !DeleteHits(map[], [], 1);
  }

  lemma CommitsBehind(a: State, r: Record, put: Operation)
    requires Bare(a, r) && r.lsn == 1 && put.Put? && ValidOp(put) && !Reserved(put.key)
    ensures var step := CommitStep([put], Immediate, true, Written);
            && Acked(a, step) && View(Next(a, step)) == Redo(map[], put, 1)
            && View(Next(Next(a, step), CrashStep(2))) == RedoAll(map[], r.ops, 1)
  {
    hide PlanOf, Replayed, AfterCommit, AfterCrash, RedoAll, Redo, Top;
    UserTomb(put.key);
    PlanHolds(a, [put]);
    PlanSays(map[], [put], 1, PlanOf(a, [put]));
    OneOp(map[], put, 1);
    AckFiles(a, [put]);
    CommitFrame(a, [put], Immediate, true, Written);
    CommitStart(a, [put]);
    TakesEffect(a, [put]);
    var b := AfterCommit(a, [put], Immediate, true, Written);
    assert b.log == [r, Record(1, [put])];
    OpensTo(b);
    TwoRecords(r, Record(1, [put]));
  }

  /** A replica logs a record and stops before its first edit. Promoted, it acknowledges a commit as
      durable; after a crash the commit is gone. */
  lemma LostCommit(k: Key, j: Key, v: Value)
    requires !Reserved(k) && !Reserved(j) && k != j && ValidOp(Operation.Put(j, v))
    ensures var steps := LostCommitRun(k, j, v);
            && Acked(Final(Created(false), steps[..1]), steps[1])
            && j in View(Final(Created(false), steps[..2])) && j !in View(Final(Created(false), steps))
  {
    hide Next, Acked, RedoAll, Final, View;
    var steps := LostCommitRun(k, j, v);
    var r, put := Record(1, [Operation.Put(k, v)]), Operation.Put(j, v);
    Firsts(Created(false), steps);
    StopsAtOnce(r);
    CommitsBehind(Next(Created(false), steps[0]), r, put);
    OneOp(map[], r.ops[0], 1);
    TombstoneShape(j);
  }

  lemma UserTomb(k: Key)
    requires !Reserved(k)
    ensures !IsTombstone(k)
  {
  }

  lemma Firsts(a: State, steps: seq<EngineStep>)
    requires |steps| == 3
    ensures Final(a, steps[..1]) == Next(a, steps[0])
    ensures Final(a, steps[..2]) == Next(Next(a, steps[0]), steps[1])
    ensures Final(a, steps) == Next(Next(Next(a, steps[0]), steps[1]), steps[2])
  {
    hide Next;
    assert steps[..1][..0] == [] && steps[..2][..1] == steps[..1];
    assert Final(a, []) == a;
  }

  lemma TakesEffect(a: State, ops: seq<Operation>)
    requires !a.poisoned && a.writeBack.None? && ValidOps(ops) && (a.possible || NoTombstones(View(a)))
    requires Addressable(ops) && PlanOf(a, ops).logged != []
    ensures View(AfterCommit(a, ops, Immediate, true, Written)) == RedoAll(View(a), ops, a.lastLsn + 1)
  {
    hide PlanOf, Misled, Top, ApplyEdits, TouchedKeys, RedoAll, PlanFor, UserKeys;
    PlanHolds(a, ops);
    CountsAfter(View(a), ops, a.lastLsn + 1, PlanOf(a, ops));
  }

  lemma TwoRecords(r: Record, c: Record)
    requires r.lsn == c.lsn == 1
    ensures Replayed(map[], [r, c], 0) == (RedoAll(map[], r.ops, 1), 1)
  {
    hide RedoAll;
    assert [r, c][..1] == [r] && [r][..0] == [];
    assert Replayed(map[], [], 0) == (map[], 0);
    assert Replayed(map[], [r], 0) == (RedoAll(map[], r.ops, 1), 1);
  }

  // ----- A tombstone that is lost, and published so -------------------------

  function PutRecord(k: Key, v: Value): Record {
    Record(1, [Operation.Put(k, v)])
  }

  function DeleteRecord(k: Key): Record {
    Record(2, [Operation.Delete(k)])
  }

  const CHECKPOINT: seq<EngineStep> := [BeginStep, CompactStep(3), PublishStep]

  lemma FinalHead(a: State, step: EngineStep, steps: seq<EngineStep>)
    ensures Final(a, [step] + steps) == Final(Next(a, step), steps)
  {
    hide Next;
    FinalSplit(a, [step] + steps, 1);
    assert ([step] + steps)[..1] == [step] && ([step] + steps)[1..] == steps && [step][..0] == [];
    assert Final(a, []) == a && Final(a, [step]) == Next(a, step);
  }

  lemma FinalThree(a: State, x: EngineStep, y: EngineStep, z: EngineStep)
    ensures Final(a, [x, y, z]) == Next(Next(Next(a, x), y), z)
  {
    hide Next, Final;
    Firsts(a, [x, y, z]);
  }

  /** Replaying records at or below where a tree stands changes nothing. */
  lemma {:induction false} NothingNew(t: Store, log: seq<Record>, after: nat)
    requires forall i :: 0 <= i < |log| ==> log[i].lsn <= after
    ensures Replayed(t, log, after) == (t, after)
    decreases |log|
  {
    if log == [] {
    } else {
      NothingNew(t, log[..|log| - 1], after);
    }
  }

  /** A checkpoint of a classic engine publishes its tree as it is. */
  lemma PublishesTree(a: State)
    requires !a.poisoned && a.writeBack.None? && a.job.None? && a.pending == [] && |a.log| == 3
    requires forall i :: 0 <= i < |a.log| ==> a.log[i].lsn <= a.lastLsn
    ensures Final(a, CHECKPOINT).manifest == Manifest(a.tree, a.lastLsn)
  {
    hide AfterBegin, AfterCompact, AfterPublish;
    FinalThree(a, BeginStep, CompactStep(3), PublishStep);
    var b := AfterBegin(a);
    BeginsWith(a);
    var c := AfterCompact(b, 3);
    assert a.log[..3] == a.log;
    NothingNew(a.tree, a.log, a.lastLsn);
    CompactsTo(b, 3);
    PublishesFrom(c);
  }

  lemma BeginsWith(a: State)
    requires !a.poisoned && a.writeBack.None? && a.pending == []
    ensures var b := AfterBegin(a);
            && b.log == a.log && b.pending == [] && b.lastLsn == a.lastLsn && !b.poisoned && b.writeBack.None?
            && b.job == Some(Begun(a.tree, a.lastLsn, |a.log|)) && b.tree == a.tree && b.logStart == a.logStart
            && b.history == a.history && b.possible == a.possible && b.manifest == a.manifest
  {
    hide Top;
    assert a.log + [] == a.log;
  }

  lemma CompactsTo(a: State, visible: nat)
    requires a.job.Some? && a.job.value.Begun? && a.job.value.begunAt <= visible <= |a.log|
    ensures var b, done := AfterCompact(a, visible), Replayed(a.job.value.snapshot, a.log[..visible], a.job.value.lsn);
            b == a.(job := Some(Compacted(done.0, done.1)), jobAt := b.jobAt, missing := b.missing)
  {
    hide Replayed, Fewer;
  }

  lemma PublishesFrom(a: State)
    requires a.job.Some? && a.job.value.Compacted? && !a.poisoned && a.pending == []
    ensures var b, done := AfterPublish(a), Replayed(a.job.value.tree, a.log, a.job.value.reached);
            && b.manifest == Manifest(done.0, a.lastLsn) && b.job == Some(Published(done.0)) && b.log == a.log
            && b.pending == [] && b.lastLsn == a.lastLsn && b.writeBack == a.writeBack && !b.poisoned
            && b.logStart == a.logStart && b.history == a.history && b.possible == a.possible
  {
    hide Replayed, Fewer, Top;
    assert a.log + [] == a.log;
  }

  function LostTombstoneRun(k: Key, v: Value): seq<EngineStep> {
    [ReplicateStep(PutRecord(k, v), Written, None),
     ReplicateStep(DeleteRecord(k), Written, Some(Stall(0, true))),
     ReplicateStep(DeleteRecord(k), Written, None)]
  }

  /** The apply of a delete stops between its two edits and the same record is shipped again. It is
      applied, the replica is at the primary's LSN, and the tombstone is missing. A checkpoint then
      publishes a tree without it, so no crash brings it back. */
  lemma LostTombstone(k: Key, v: Value)
    requires !Reserved(k)
    ensures var b := Final(Created(false), LostTombstoneRun(k, v));
            && b.lastLsn == 2 && !Stalled(b) && View(b) == map[]
            && TombstoneKey(k) in StateAt([PutRecord(k, v), DeleteRecord(k)], 2)
            && Final(b, CHECKPOINT).manifest == Manifest(map[], 2)
  {
    hide Next, RedoAll, StateAt, Final;
    var a, put, del := Created(false), PutRecord(k, v), DeleteRecord(k);
    var steps := LostTombstoneRun(k, v);
    FinalThree(a, steps[0], steps[1], steps[2]);
    var s1 := Next(a, steps[0]);
    Ships(a, put, Written, None);
    OneOp(map[], put.ops[0], 1);
    TombstoneShape(k);
    var s2 := Next(s1, steps[1]);
    Ships(s1, del, Written, Some(Stall(0, true)));
    OneOp(s1.tree, del.ops[0], 2);
    assert s2.tree == map[];
    var s3 := Next(s2, steps[2]);
    Ships(s2, del, Written, None);
    OneOp(s2.tree, del.ops[0], 2);
    assert s3.log == [put, del, del];
    PublishesTree(s3);
    TwoApplied(k, v);
  }

  lemma TwoApplied(k: Key, v: Value)
    requires !Reserved(k)
    ensures TombstoneKey(k) in StateAt([PutRecord(k, v), DeleteRecord(k)], 2)
  {
    var put, del := PutRecord(k, v), DeleteRecord(k);
    var h := [put, del];
    hide RedoAll;
    assert h[..2] == h && h[..1] == [put] && [put][..0] == [];
    assert RedoLog(map[], []) == map[] && RedoLog(map[], [put]) == RedoAll(map[], put.ops, 1);
    PutThenDelete(k, v);
  }

  // ----- A tombstone the flag denies ----------------------------------------

  function DeniedTombstoneRun(k: Key, v: Value): seq<EngineStep> {
    [ReplicateStep(PutRecord(k, v), Written, None),
     ReplicateStep(DeleteRecord(k), WrittenButFailed, None),
     BeginStep, CompactStep(2), PublishStep, AdoptStep(0),
     ReplicateStep(DeleteRecord(k), Written, None)]
  }

  /** The record waits in the log while a checkpoint replays it; shipped again it meets a tree that
      has it already, and the flag never learns of the tombstone. A commit that puts the key leaves
      the tombstone beside it, which no replay of the log would. */
  lemma DeniedTombstone(k: Key, v: Value)
    requires !Reserved(k) && ValidOp(Operation.Put(k, v))
    ensures var b := Final(Created(false), DeniedTombstoneRun(k, v));
            var c := AfterCommit(b, [Operation.Put(k, v)], Immediate, true, Written);
            && !Stalled(b) && Misled(b) && CommitResult(b, [Operation.Put(k, v)], true, Written).Ok?
            && k in View(c) && TombstoneKey(k) in View(c)
            && TombstoneKey(k) !in RedoAll(View(b), [Operation.Put(k, v)], b.lastLsn + 1)
  {
    hide Next, RedoAll, Final, AfterCommit, PlanOf;
    var b := Final(Created(false), DeniedTombstoneRun(k, v));
    Denied(k, v);
    PutsBeside(b, k, v);
    OneOp(View(b), Operation.Put(k, v), 3);
  }

  lemma PutsBeside(a: State, k: Key, v: Value)
    requires !Reserved(k) && ValidOp(Operation.Put(k, v)) && !a.possible && !a.poisoned && a.writeBack.None?
    requires TombstoneKey(k) in a.tree
    ensures var b := AfterCommit(a, [Operation.Put(k, v)], Immediate, true, Written);
            && CommitResult(a, [Operation.Put(k, v)], true, Written).Ok? && k in View(b) && TombstoneKey(k) in View(b)
  {
    hide Top, TouchedKeys, Misled, Planned, ApplyEdits;
    var put := Operation.Put(k, v);
    OnePut(View(a), k, v, a.lastLsn + 1);
    EditOnce(a.tree, [], Edit(k, Mutation.Put(v, a.lastLsn + 1)));
    assert ApplyEdits(a.tree, []) == a.tree by { NoEdits(a.tree); }
    assert [] + [Edit(k, Mutation.Put(v, a.lastLsn + 1))] == [Edit(k, Mutation.Put(v, a.lastLsn + 1))];
  }

  lemma NoEdits(m: Store)
    ensures ApplyEdits(m, []) == m
  {
  }

  lemma OnePut(view: Store, k: Key, v: Value, lsn: nat)
    ensures var p := Planned(view, [Operation.Put(k, v)], lsn, false);
            p.mutations == [Edit(k, Mutation.Put(v, lsn))] && p.logged == [Operation.Put(k, v)]
  {
    var ops := [Operation.Put(k, v)];
    var p := Seed(view, ops, false);
    assert ops[..0] == [];
    assert PlanAll(p, [], lsn) == p;
  }

  /** The state that run ends in. */
  lemma Denied(k: Key, v: Value)
    requires !Reserved(k)
    ensures var b := Final(Created(false), DeniedTombstoneRun(k, v));
            && !b.possible && !b.poisoned && b.writeBack.None? && b.lastLsn == 2 && |b.history| == 2
            && TombstoneKey(k) in b.tree && IsTombstone(TombstoneKey(k))
  {
    hide Next, RedoAll, Final, AfterBegin, AfterCompact, AfterPublish, AfterAdopt, AfterReplicate;
    var a, put, del := Created(false), PutRecord(k, v), DeleteRecord(k);
    var steps := DeniedTombstoneRun(k, v);
    TombstoneShape(k);
    var s2 := Final(a, steps[..2]);
    DeniedShips(k, v);
    var s5 := Final(s2, steps[2..5]);
    DeniedPublishes(s2, k, v);
    var s6 := Next(s5, steps[5]);
    var s7 := Next(s6, steps[6]);
    DeniedAgain(s5, k);
    FinalSplit(a, steps, 2);
    FinalSplit(s2, steps[2..], 3);
    assert steps[2..][..3] == steps[2..5] && steps[2..][3..] == [steps[5], steps[6]];
    FinalHead(s5, steps[5], [steps[6]]);
    assert [steps[5]] + [steps[6]] == [steps[5], steps[6]] && [steps[6]] + [] == [steps[6]];
    FinalHead(s6, steps[6], []);
    assert Final(s7, []) == s7 by { FinalNone(s7); }
  }

  lemma FinalNone(a: State)
    ensures Final(a, []) == a
  {
  }

  /** The first record is applied, the second only logged. */
  ghost predicate Waiting(a: State, first: Record, second: Record) {
    && !a.poisoned && a.writeBack.None? && a.pending == [] && a.job.None? && !a.possible && a.lastLsn == 1
    && a.log == [first, second] && a.history == a.log && first.lsn == 1 && second.lsn == 2
    && a.tree == RedoAll(map[], first.ops, 1)
  }

  /** A put is applied, and the log of the next record fails although the record is in the file. */
  lemma Waits(k: Key, v: Value, second: Record)
    requires !Reserved(k) && second.lsn == 2 && second.ops != []
    ensures var s1 := Next(Created(false), ReplicateStep(PutRecord(k, v), Written, None));
            && s1.tree == map[k := Stamped(v, 1)] && !s1.poisoned && s1.job.None? && s1.writeBack.None?
            && Waiting(Next(s1, ReplicateStep(second, WrittenButFailed, None)), PutRecord(k, v), second)
  {
    hide Next, RedoAll;
    var a, put := Created(false), PutRecord(k, v);
    var s1 := Next(a, ReplicateStep(put, Written, None));
    Ships(a, put, Written, None);
    OneOp(map[], put.ops[0], 1);
    assert s1.tree == map[k := Stamped(v, 1)] by { TombstoneShape(k); }
    assert !DeleteHits(map[], put.ops, 1);
    Ships(s1, second, WrittenButFailed, None);
    assert PartialRedo(s1.tree, second.ops, 2, 0, false) == s1.tree by { NoOps(s1.tree); assert second.ops[..0] == []; }
    assert second.ops[..0] == [];
    assert !DeleteHits(s1.tree, [], 2);
  }

  lemma DeniedShips(k: Key, v: Value)
    requires !Reserved(k)
    ensures Waiting(Final(Created(false), DeniedTombstoneRun(k, v)[..2]), PutRecord(k, v), DeleteRecord(k))
  {
    hide Next, RedoAll, Final;
    var a := Created(false);
    var steps := DeniedTombstoneRun(k, v)[..2];
    FinalHead(a, steps[0], [steps[1]]);
    assert [steps[0]] + [steps[1]] == steps && [steps[1]] + [] == [steps[1]];
    var s1 := Next(a, steps[0]);
    FinalHead(s1, steps[1], []);
    FinalNone(Next(s1, steps[1]));
    Waits(k, v, DeleteRecord(k));
  }

  /** A checkpoint has published a tree in which the waiting record is replayed. */
  ghost predicate Renewed(a: State, t: Store) {
    && !a.poisoned && a.writeBack.None? && a.pending == [] && !a.possible && a.lastLsn == 1 && |a.history| == 2
    && a.job == Some(Published(t))
  }

  lemma DeniedPublishes(a: State, k: Key, v: Value)
    requires Waiting(a, PutRecord(k, v), DeleteRecord(k)) && !Reserved(k)
    ensures Renewed(Final(a, DeniedTombstoneRun(k, v)[2..5]), map[TombstoneKey(k) := Stamped([], 2)])
  {
    hide Next, RedoAll, Final;
    assert DeniedTombstoneRun(k, v)[2..5] == [BeginStep, CompactStep(2), PublishStep];
    FinalThree(a, BeginStep, CompactStep(2), PublishStep);
    Overtakes(a, PutRecord(k, v), DeleteRecord(k));
    PutThenDelete(k, v);
  }

  lemma PutThenDelete(k: Key, v: Value)
    requires !Reserved(k)
    ensures RedoAll(RedoAll(map[], PutRecord(k, v).ops, 1), DeleteRecord(k).ops, 2) ==
            map[TombstoneKey(k) := Stamped([], 2)]
  {
    hide RedoAll;
    TombstoneShape(k);
    OneOp(map[], PutRecord(k, v).ops[0], 1);
    assert RedoAll(map[], PutRecord(k, v).ops, 1) == map[k := Stamped(v, 1)];
    OneOp(map[k := Stamped(v, 1)], DeleteRecord(k).ops[0], 2);
    assert map[k := Stamped(v, 1)] - {k} == map[];
  }

  /** A checkpoint replays the record that waits in the log. */
  lemma Overtakes(a: State, first: Record, second: Record)
    requires Waiting(a, first, second)
    ensures Renewed(Next(Next(Next(a, BeginStep), CompactStep(2)), PublishStep), RedoAll(a.tree, second.ops, 2))
  {
    hide RedoAll, AfterBegin, AfterCompact, AfterPublish, Replayed;
    BeginsWith(a);
    var b := AfterBegin(a);
    CompactsTo(b, 2);
    assert a.log[..2] == a.log;
    SecondReplayed(a.tree, first, second);
    var c := AfterCompact(b, 2);
    PublishesFrom(c);
    NothingNew(c.job.value.tree, c.log, 2);
  }

  lemma SecondReplayed(t: Store, first: Record, second: Record)
    requires first.lsn == 1 && second.lsn == 2
    ensures Replayed(t, [first, second], 1) == (RedoAll(t, second.ops, 2), 2)
  {
    hide RedoAll;
    assert [first, second][..1] == [first];
    NothingNew(t, [first], 1);
  }

  lemma DeniedAgain(a: State, k: Key)
    requires Renewed(a, map[TombstoneKey(k) := Stamped([], 2)]) && !Reserved(k)
    ensures var b := Next(Next(a, AdoptStep(0)), ReplicateStep(DeleteRecord(k), Written, None));
            && !b.possible && !b.poisoned && b.writeBack.None? && b.lastLsn == 2 && |b.history| == 2
            && TombstoneKey(k) in b.tree
  {
    hide RedoAll, AfterAdopt, AfterReplicate, DeleteHits;
    var b, del := Next(a, AdoptStep(0)), DeleteRecord(k);
    AdoptsFrame(a, 0);
    Adopts(a, 0);
    Ships(b, del, Written, None);
    MissesAgain(b.tree, k);
  }

  lemma MissesAgain(t: Store, k: Key)
    requires t == map[TombstoneKey(k) := Stamped([], 2)] && !Reserved(k)
    ensures !DeleteHits(t, DeleteRecord(k).ops, 2) && RedoAll(t, DeleteRecord(k).ops, 2) == t
  {
    hide RedoAll;
    var del := DeleteRecord(k);
    TombstoneShape(k);
    OneOp(t, del.ops[0], 2);
    assert del.ops[..0] == [];
    NoOps(t);
  }

  lemma NoOps(m: Store)
    ensures RedoAll(m, [], 2) == m
  {
  }

  lemma Adopts(a: State, retired: nat)
    requires Locked(a) && a.writeBack.None?
    ensures var b := AfterAdopt(a, retired); b.tree == a.job.value.tree && b.writeBack.None? && b.job.None?
  {
    hide Before;
  }
}
