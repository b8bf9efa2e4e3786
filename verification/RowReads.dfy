/** Point reads through the row cache of a running engine: commits and replicated records drop the
    rows they change, checkpoint phases drop none, and a hit is the value of the map at that moment,
    except after a checkpoint that adopts a record whose apply is still pending. */
module RowReads {
  import opened Results
  import opened Keys
  import opened Stores
  import opened Replay
  import opened Overlays
  import opened Planning
  import opened Revisions
  import opened WriteBack
  import opened Indexes
  import opened Replicas
  import opened Lineage
  import opened Caches
  import opened EngineSteps
  import opened EngineProofs
  import opened EngineRuns
  import opened EngineFaults
  import opened Engine

  datatype RowError = Refused(error: ReadError) | Unhealthy

  datatype RowStep = Get(key: Key) | Act(step: EngineStep)

  /** What a read of the engine's own map answers. */
  function Answer(a: State, key: Key): Result<Option<Value>, RowError> {
    var bad := CheckUserKey(key);
    if bad.Some? then Err(Refused(bad.value))
    else if a.poisoned then Err(Unhealthy)
    else Ok(if key in View(a) then Some(View(a)[key].value) else None)
  }

  /** A read is answered exactly for a key of 1 to 65536 bytes outside the internal prefix, on a
      healthy engine, and then with what the map holds. */
  lemma AnswerMeans(a: State, key: Key)
    ensures Answer(a, key).Ok? <==> 1 <= |key| <= 65536 && !(INTERNAL_PREFIX <= key) && !a.poisoned
    ensures Answer(a, key).Ok? ==>
              Answer(a, key).value == if key in View(a) then Some(View(a)[key].value) else None
  {
  }

  // ----- What a step may change under the cache -----------------------------

  /** The keys whose rows the step drops: those of the operations that became visible. */
  function Dropped(a: State, step: EngineStep): set<Key> {
    match step
    case CommitStep(ops, _, treeOk, outcome) =>
      if !Locked(a) && CommitResult(a, ops, treeOk, outcome).Ok? then TouchedKeys(PlanOf(a, ops).logged) else {}
    case ReplicateStep(rec, outcome, fault) =>
      if Locked(a) then {} else TouchedKeys(rec.ops[..Tried(a, rec, outcome, fault)])
    case _ => {}
  }

  /** The keys whose rows the step leaves behind: an adoption moves the view past the record that is
      still pending. */
  ghost function Behind(a: State, step: EngineStep): set<Key> {
    if step.AdoptStep? && Locked(a) && Stalled(a) then TouchedKeys(a.history[a.lastLsn].ops) else {}
  }

  /** The rows that may be stale after a run. */
  ghost function Stale(a: State, steps: seq<RowStep>): set<Key> {
    if steps == [] then {}
    else
      var n := |steps| - 1;
      var before := Stale(a, steps[..n]);
      match steps[n]
      case Get(_) => before
      case Act(step) => After(Reach(a, steps[..n]), step, before)
  }

  ghost function After(a: State, step: EngineStep, stale: set<Key>): set<Key> {
    if step.CrashStep? && a.flushed <= step.durable <= |a.log| then {} else stale - Dropped(a, step) + Behind(a, step)
  }

  /** The engine after a run; reads do not matter. */
  ghost function Reach(a: State, steps: seq<RowStep>): State {
    if steps == [] then a
    else
      var n := |steps| - 1;
      match steps[n]
      case Get(_) => Reach(a, steps[..n])
      case Act(step) => Next(Reach(a, steps[..n]), step)
  }

  /** A batch leaves a user key it does not name as it was. */
  lemma Untouched(m: Store, ops: seq<Operation>, lsn: nat, k: Key)
    requires !Reserved(k) && k !in TouchedKeys(ops)
    ensures Lookup(RedoAll(m, ops, lsn), k) == Lookup(m, k)
  {
    forall j | 0 <= j < |ops| ensures ops[j].key != k { assert ops[j].key in TouchedKeys(ops); }
    TombstoneShape(k);
    NotOn(ops, k);
    PresentAfter(m, ops, lsn, k);
  }

  lemma UntouchedPart(m: Store, ops: seq<Operation>, lsn: nat, at: nat, half: bool, k: Key)
    requires at < |ops| && !Reserved(k) && k !in TouchedKeys(ops[..at + 1])
    ensures Lookup(PartialRedo(m, ops, lsn, at, half), k) == Lookup(m, k)
  {
    hide RedoAll;
    var head := ops[..at + 1];
    assert head[at].key in TouchedKeys(head);
    forall key | key in TouchedKeys(ops[..at]) ensures key in TouchedKeys(head) {
      var i :| 0 <= i < |ops[..at]| && ops[..at][i].key == key;
      assert head[i].key == key;
    }
    Untouched(m, ops[..at], lsn, k);
  }

  lemma CommitRows(a: State, ops: seq<Operation>, barrier: Barrier, treeOk: bool, outcome: LogOutcome, k: Key)
    requires Sound(a) && !a.forked && !Locked(a) && Addressable(ops) && !Reserved(k)
    requires var b := AfterCommit(a, ops, barrier, treeOk, outcome); !b.forked
    requires CommitResult(a, ops, treeOk, outcome).Ok? ==> k !in TouchedKeys(PlanOf(a, ops).logged)
    ensures Lookup(View(AfterCommit(a, ops, barrier, treeOk, outcome)), k) == Lookup(View(a), k)
  {
    hide Sound, AfterCommit, PlanOf, RedoAll, View, Effective, TouchedKeys, CommitResult, Reports, Misled, PlanFor;
    CommitForks(a, ops, barrier, treeOk, outcome);
    var r := CommitResult(a, ops, treeOk, outcome);
    if a.poisoned || !Misled(a) {
      CommitServes(a, ops, barrier, treeOk, outcome);
      if r.Ok? {
        OkMeans(a, ops, treeOk, outcome);
        NotMisled(a);
        PlanHolds(a, ops);
        PlanSays(View(a), ops, a.lastLsn + 1, PlanOf(a, ops));
        EffectiveReplays(View(a), ops, a.lastLsn + 1);
        Untouched(View(a), PlanOf(a, ops).logged, a.lastLsn + 1, k);
      }
    } else {
      NotWritten(a, ops, barrier, treeOk, outcome);
    }
  }

  lemma OkMeans(a: State, ops: seq<Operation>, treeOk: bool, outcome: LogOutcome)
    requires CommitResult(a, ops, treeOk, outcome).Ok?
    ensures !a.poisoned
  {
  }

  /** A commit whose record does not reach the log leaves the view alone. */
  lemma NotWritten(a: State, ops: seq<Operation>, barrier: Barrier, treeOk: bool, outcome: LogOutcome)
    requires !Writes(a, ops, treeOk, outcome)
    ensures View(AfterCommit(a, ops, barrier, treeOk, outcome)) == View(a)
  {
    hide PlanOf, Misled, Visible, Appended, Merge, ValidOps;
  }

  lemma ReplicateRows(a: State, rec: Record, outcome: LogOutcome, fault: Option<Stall>, k: Key)
    requires !Reserved(k) && k !in TouchedKeys(rec.ops[..Tried(a, rec, outcome, fault)])
    ensures Lookup(View(AfterReplicate(a, rec, outcome, fault)), k) == Lookup(View(a), k)
  {
    hide RedoAll, PartialRedo, TouchedKeys, Appended, AfterReplicate, DeleteHits, UserKeys, Foreign;
    if a.poisoned || a.writeBack.Some? || rec.lsn != a.lastLsn + 1 || outcome.Lost? {
      RefusedIs(a, rec, outcome, fault);
    } else {
      ReplicatedIs(a, rec, outcome, fault);
      var cut := Cut(rec, outcome, fault);
      if cut.None? {
        assert rec.ops[..|rec.ops|] == rec.ops;
        if rec.ops != [] || outcome.Written? { Untouched(a.tree, rec.ops, rec.lsn, k); }
      } else if outcome.Written? {
        UntouchedPart(a.tree, rec.ops, rec.lsn, cut.value.at, cut.value.half, k);
      } else {
        NothingApplied(a.tree, rec.ops, rec.lsn);
      }
    }
  }

  lemma NothingApplied(m: Store, ops: seq<Operation>, lsn: nat)
    requires ops != []
    ensures PartialRedo(m, ops, lsn, 0, false) == m
  {
    assert ops[..0] == [];
  }

  /** Adoption serves the state of the whole history; only the record that was still pending can
      make that differ from what was served before. */
  lemma AdoptRows(a: State, retired: nat, k: Key)
    requires Sound(a) && Locked(a) && !Reserved(k)
    ensures !a.poisoned
    ensures Lookup(View(AfterAdopt(a, retired)), k) == Lookup(StateAt(a.history, |a.history|), k)
    ensures !Stalled(a) ==> Lookup(View(AfterAdopt(a, retired)), k) == Lookup(View(a), k)
  {
    hide Counters, Counts, At, StateAt, Faithful, Merge, EngineProofs.Ordered, Matches, ExactBuffer, BufferTouched,
         AfterAdopt, Before;
    AdoptedIs(a, retired);
    AtUsers(a.history, a.reach, a.manifest.store, a.missing.manifest);
    FreshView(a.manifest.store);
    if !Stalled(a) { Serves(a); }
  }

  lemma FreshView(m: Store)
    ensures Merge(m, map[]) == m
  {
  }

  /** Every other user key is served as it was. */
  lemma StepRows(a: State, step: EngineStep, k: Key)
    requires Sound(a) && !a.forked && Allowed(step) && !Next(a, step).forked && !step.CrashStep?
    requires !Reserved(k) && k !in Dropped(a, step) && k !in Behind(a, step)
    ensures Lookup(View(Next(a, step)), k) == Lookup(View(a), k)
  {
    hide Sound, AfterCommit, AfterSync, AfterFlush, AfterBegin, AfterCompact, AfterPublish, AfterAdopt, AfterCrash,
         AfterReplicate, StateAt, RedoAll, PlanOf, CommitResult, Tried;
    match step
    case CommitStep(ops, barrier, treeOk, outcome) =>
      if !Locked(a) { CommitRows(a, ops, barrier, treeOk, outcome, k); }
    case SyncStep => SyncFrames(a);
    case FlushStep(treeOk) => if !Locked(a) { FlushOk(a, treeOk); }
    case BeginStep => BeginFrame(a);
    case CompactStep(visible) => CompactFrame(a, visible);
    case PublishStep => PublishFrame(a);
    case AdoptStep(retired) =>
      if Locked(a) {
        AdoptRows(a, retired, k);
        if Stalled(a) { PendingRows(a, k); }
      } else {
        NotLocked(a, retired);
      }
    case ReplicateStep(rec, outcome, fault) =>
      if !Locked(a) { ReplicateRows(a, rec, outcome, fault, k); }
  }

  /** While a record is pending, a key it does not name is served as both states around it have it. */
  lemma PendingRows(a: State, k: Key)
    requires Sound(a) && !a.poisoned && Stalled(a) && !Reserved(k) && k !in TouchedKeys(a.history[a.lastLsn].ops)
    ensures Lookup(View(a), k) == Lookup(StateAt(a.history, a.lastLsn), k) ==
            Lookup(StateAt(a.history, |a.history|), k)
  {
    hide Counts, At, StateAt, Faithful, EngineProofs.Ordered, Matches, RedoAll, Toward, JobOk, EngineProofs.Kept;
    var n := a.lastLsn;
    SoundLength(a);
    FilesFaithful(a);
    RecordFits(a.history, n);
    Untouched(StateAt(a.history, n), a.history[n].ops, n + 1, k);
    TowardUsers(StateAt(a.history, n), a.history[n].ops, n + 1, a.tree, a.missing.live, k);
  }

  /** A tree on its way through a record shows a key the record does not name as it was. */
  lemma TowardUsers(s: Store, ops: seq<Operation>, lsn: nat, t: Store, lost: set<Key>, k: Key)
    requires Toward(s, ops, lsn, t, lost) && k !in TouchedKeys(ops) && !Reserved(k)
    ensures Lookup(t, k) == Lookup(s, k)
  {
    assert OnWay(CellOf(s, k), CellOf(t, k), ops, lsn, k, k in lost);
  }

  // ----- The reader ---------------------------------------------------------

  type Rows = map<Key, Cached<Value>>

  /** Every cached row is a user key with its current value, unless it may be stale. */
  ghost predicate Right(rows: Rows, m: Store, stale: set<Key>) {
    forall k :: k in rows && k !in stale ==> k in m && m[k].value == rows[k].value
  }

  ghost predicate UserRows(rows: Rows) {
    forall k :: k in rows ==> !Reserved(k)
  }

  /** Rows survive a step that leaves their keys alone. */
  lemma RowsKept(a: State, step: EngineStep, rows: Rows, stale: set<Key>, left: Rows)
    requires Sound(a) && !a.forked && Allowed(step) && !Next(a, step).forked && !step.CrashStep?
    requires UserRows(rows) && Right(rows, View(a), stale)
    requires Caches.Kept(rows, left) && forall k :: k in left ==> k !in Dropped(a, step)
    ensures UserRows(left) && Right(left, View(Next(a, step)), After(a, step, stale))
  {
    hide Sound, Next, View, Dropped, Behind;
    forall k | k in left && k !in After(a, step, stale)
      ensures k in View(Next(a, step)) && View(Next(a, step))[k].value == left[k].value
    {
      assert k in rows && k !in stale;
      StepRows(a, step, k);
    }
  }

  class RowReader {
    const engine: Engine
    const budget: nat
    var cache: ClockCache<Key, Value>
    /** The keys whose cached rows may be stale. */
    ghost var stale: set<Key>

    ghost predicate Valid()
      reads this, engine, cache
    {
      && Mounted() && UserRows(cache.entries)
      && (!engine.now.forked ==> Sound(engine.now) && Right(cache.entries, View(engine.now), stale))
    }

    ghost predicate Mounted()
      reads this, engine, cache
    {
      engine.Valid() && cache.Valid() && cache.budget == budget && cache.cost == RowCost
    }

    constructor (buffered: bool, budget: nat)
      ensures Valid() && engine.now == Created(buffered) && stale == {} && fresh(engine) && fresh(cache)
      ensures this.budget == budget && cache.entries == map[]
    {
      engine := new Engine(buffered);
      this.budget := budget;
      cache := new ClockCache<Key, Value>(budget, RowCost);
      stale := {};
      new;
      CreatedOk(buffered);
    }

    /** Reads a user key, from the cache when it is there. */
    method Get(key: Key) returns (r: Result<Option<Value>, RowError>)
      requires Valid()
      modifies cache
      ensures Valid()
      ensures !engine.now.forked && key !in stale ==> r == Answer(engine.now, key)
      ensures CheckUserKey(key).None? && !engine.poisoned && key in old(cache.entries) ==>
                r == Ok(Some(old(cache.entries)[key].value))
      ensures CheckUserKey(key).None? && !engine.poisoned && key !in old(cache.entries) && key in engine.View() &&
              RowCost(key, engine.View()[key].value) <= budget / 8 && budget > 0 ==>
                key in cache.entries && cache.entries[key].value == engine.View()[key].value
    {
      hide Sound, Merge;
      var refused := CheckUserKey(key);
      if refused.Some? {
        return Err(Refused(refused.value));
      }
      if engine.poisoned {
        return Err(Unhealthy);
      }
      var hit := cache.Get(key);
      if hit.Some? {
        return Ok(hit);
      }
      var m := engine.View();
      if key in m {
        cache.Insert(key, m[key].value);
        return Ok(Some(m[key].value));
      }
      return Ok(None);
    }

    /** Drops the cached rows of these operations. */
    method InvalidateAll(ops: seq<Operation>)
      requires cache.Valid()
      modifies cache
      ensures cache.Valid() && cache.entries == old(cache.entries) - TouchedKeys(ops)
    {
      for i := 0 to |ops|
        invariant cache.Valid() && cache.entries == old(cache.entries) - TouchedKeys(ops[..i])
      {
        TouchedMore(ops, i);
        cache.Invalidate(ops[i].key);
      }
      assert ops[..|ops|] == ops;
    }

    /** Commits a batch; the keys of the operations that became visible leave the cache. */
    method Commit(ops: seq<Operation>, barrier: Barrier, treeOk: bool, outcome: LogOutcome)
      returns (r: Result<seq<OpResult>, EngineError>)
      requires Valid() && Addressable(ops) && !engine.Publishing()
      modifies this, engine, cache
      ensures Valid() && cache == old(cache)
      ensures Follows(old(engine.now), old(stale), CommitStep(ops, barrier, treeOk, outcome))
      ensures r == CommitResult(old(engine.now), ops, treeOk, outcome)
      ensures cache.entries == old(cache.entries) - Dropped(old(engine.now), CommitStep(ops, barrier, treeOk, outcome))
    {
      hide Sound, View, Right, PlanOf, CommitResult, AfterCommit, TouchedKeys;
      ghost var a, rows, step := engine.now, cache.entries, CommitStep(ops, barrier, treeOk, outcome);
      var shown;
      r, shown := engine.Commit(ops, barrier, treeOk, outcome);
      InvalidateAll(shown);
      NoneTouched();
      stale := After(a, step, stale);
      Keep(a, step, rows, old(stale));
    }

    /** Applies a shipped record; the keys of the operations it came to leave the cache. */
    method ApplyReplicated(rec: Record, outcome: LogOutcome, fault: Option<Stall>) returns (r: Result<nat, EngineError>)
      requires Valid() && !engine.Publishing()
      modifies this, engine, cache
      ensures Valid() && cache == old(cache) && Follows(old(engine.now), old(stale), ReplicateStep(rec, outcome, fault))
      ensures cache.entries == old(cache.entries) - Dropped(old(engine.now), ReplicateStep(rec, outcome, fault))
    {
      hide Sound, View, Right, AfterReplicate, TouchedKeys, Tried;
      ghost var a, rows, step := engine.now, cache.entries, ReplicateStep(rec, outcome, fault);
      var tried;
      r, tried := engine.ApplyReplicated(rec, outcome, fault);
      assert tried <= |rec.ops| by { TriedWithin(a, rec, outcome, fault); }
      InvalidateAll(rec.ops[..tried]);
      stale := After(a, step, stale);
      Keep(a, step, rows, old(stale));
    }

    /** A crash takes the cache with it. */
    method Reopen(durable: nat)
      requires Valid() && engine.wal.flushed <= durable <= |engine.wal.records|
      modifies this, engine
      ensures Valid() && fresh(cache) && Follows(old(engine.now), old(stale), CrashStep(durable))
    {
      hide Sound, View, AfterCrash, Crashed, Opened;
      ghost var a := engine.now;
      engine.TakeCrash(durable);
      CrashFrame(a, durable);
      if !a.forked { CrashOk(a, durable); }
      cache := new ClockCache<Key, Value>(budget, RowCost);
      stale := {};
    }

    /** The engine took `step`, and what may be stale follows. */
    ghost predicate Follows(a: State, was: set<Key>, step: EngineStep)
      reads this, engine
    {
      engine.now == Next(a, step) && stale == After(a, step, was)
    }

    /** The rows left in the cache are right after the step. */
    lemma Keep(a: State, step: EngineStep, rows: Rows, was: set<Key>)
      requires Mounted() && Follows(a, was, step) && Allowed(step) && !step.CrashStep?
      requires UserRows(rows) && (!a.forked ==> Sound(a) && Right(rows, View(a), was))
      requires Caches.Kept(rows, cache.entries) && forall k :: k in cache.entries ==> k !in Dropped(a, step)
      ensures Valid()
    {
      hide Sound, View, Right, Next, Dropped, Behind;
      ForksExactly(a, step);
      if !engine.now.forked {
        NextOk(a, step);
        RowsKept(a, step, rows, was, cache.entries);
      }
    }

    /** Takes an engine step of any kind. */
    method Act(step: EngineStep)
      requires Valid() && Allowed(step)
      modifies this, engine, cache
      ensures Valid() && (cache == old(cache) || fresh(cache)) && Follows(old(engine.now), old(stale), step)
    {
      hide Sound, View, Right, CommitResult, AfterCommit, AfterReplicate, AfterCrash, Acked, TouchedKeys, PlanOf, Tried;
      ghost var a, rows := engine.now, cache.entries;
      match step {
        case CommitStep(ops, barrier, treeOk, outcome) =>
          if engine.Publishing() {
            NothingStirs(a, step, stale);
          } else {
            var r := Commit(ops, barrier, treeOk, outcome);
          }
        case ReplicateStep(rec, outcome, fault) =>
          if engine.Publishing() {
            NothingStirs(a, step, stale);
          } else {
            var r := ApplyReplicated(rec, outcome, fault);
          }
        case CrashStep(durable) =>
          if engine.wal.flushed <= durable <= |engine.wal.records| {
            Reopen(durable);
          } else {
            CrashFrame(a, durable);
          }
        case _ =>
          ActQuietly(step);
      }
    }

    /** Barriers, flushes and checkpoint phases drop no row. */
    method ActQuietly(step: EngineStep)
      requires Valid() && Quiet(step)
      modifies this, engine
      ensures Valid() && cache == old(cache) && Follows(old(engine.now), old(stale), step)
    {
      hide Sound, View, Right, Next, Acked;
      ghost var a, rows := engine.now, cache.entries;
      var acked := engine.Take(step);
      stale := After(a, step, stale);
      Keep(a, step, rows, old(stale));
    }

    /** Any run of reads and engine steps: while the engine has not forked, a read of a key that is
        not stale answers from the engine's map as it is at that step. */
    method Run(steps: seq<RowStep>) returns (answers: seq<Option<Result<Option<Value>, RowError>>>)
      requires Valid() && stale == {} && forall i :: 0 <= i < |steps| && steps[i].Act? ==> Allowed(steps[i].step)
      modifies this, engine, cache
      ensures Valid() && engine.now == Reach(old(engine.now), steps) && |answers| == |steps|
      ensures forall i :: 0 <= i < |steps| && steps[i].Get? ==> ReadRight(old(engine.now), steps, i, answers[i])
    {
      hide Sound, View, Next, Answer, Right;
      answers := [];
      ghost var a := engine.now;
      for i := 0 to |steps|
        invariant Valid() && (cache == old(cache) || fresh(cache)) && |answers| == i
        invariant engine.now == Reach(a, steps[..i]) && stale == Stale(a, steps[..i])
        invariant forall j :: 0 <= j < i && steps[j].Get? ==> ReadRight(a, steps, j, answers[j])
      {
        assert steps[..i + 1][..i] == steps[..i];
        match steps[i]
        case Get(key) =>
          var r := Get(key);
          answers := answers + [Some(r)];
        case Act(step) =>
          Act(step);
          answers := answers + [None];
      }
      assert steps[..|steps|] == steps;
    }
  }

  function RowCost(k: Key, v: Value): nat {
    2 * |k| + |v|
  }

  lemma TouchedMore(ops: seq<Operation>, i: nat)
    requires i < |ops|
    ensures TouchedKeys(ops[..i + 1]) == TouchedKeys(ops[..i]) + {ops[i].key}
  {
    var more, head := ops[..i + 1], ops[..i];
    assert more[i] == ops[i];
    forall k | k in TouchedKeys(head) ensures k in TouchedKeys(more) {
      var j :| 0 <= j < |head| && head[j].key == k;
      assert more[j].key == k;
    }
  }

  lemma NoneTouched()
    ensures TouchedKeys([]) == {}
  {
  }

  lemma TriedWithin(a: State, rec: Record, outcome: LogOutcome, fault: Option<Stall>)
    ensures Tried(a, rec, outcome, fault) <= |rec.ops|
  {
  }

  /** A locked engine takes no commit and no record. */
  lemma NothingStirs(a: State, step: EngineStep, stale: set<Key>)
    requires Locked(a) && (step.CommitStep? || step.ReplicateStep?)
    ensures Next(a, step) == a && After(a, step, stale) == stale
  {
  }

  /** The answer to read `i` is what the engine's map holds at that step. */
  ghost predicate ReadRight(a: State, steps: seq<RowStep>, i: nat, answer: Option<Result<Option<Value>, RowError>>)
    requires i < |steps| && steps[i].Get?
  {
    var here, key := Reach(a, steps[..i]), steps[i].key;
    !here.forked && key !in Stale(a, steps[..i]) ==> answer == Some(Answer(here, key))
  }

  lemma NoneTried(a: State, rec: Record)
    ensures Dropped(a, ReplicateStep(rec, WrittenButFailed, None)) == {}
  {
    assert rec.ops[..0] == [];
  }

  lemma PutLast(m: Store, k: Key, w: Value)
    ensures var t := RedoAll(m, [Operation.Put(k, w)], 2); k in t && t[k].value == w
  {
    TombstoneShape(k);
    OneOp(m, Operation.Put(k, w), 2);
  }

  lemma AdoptsTree(a: State, t: Store)
    requires Renewed(a, t)
    ensures var b := Next(a, AdoptStep(0)); View(b) == t && !b.poisoned
  {
    hide AfterAdopt;
    Adopts(a, 0);
    AdoptsFrame(a, 0);
  }

  /** A checkpoint replays the record that waits in the log, and no row leaves the cache. */
  method AdoptPending(reader: RowReader, first: Record, second: Record)
    requires reader.Valid() && Waiting(reader.engine.now, first, second)
    modifies reader, reader.engine
    ensures reader.Valid() && reader.cache == old(reader.cache)
    ensures var b := reader.engine.now; !b.poisoned && View(b) == RedoAll(old(reader.engine.now.tree), second.ops, 2)
  {
    hide Sound, Next, RedoAll, Right, View, Waiting, UserRows, After;
    Overtakes(reader.engine.now, first, second);
    ghost var t := RedoAll(reader.engine.now.tree, second.ops, 2);
    reader.ActQuietly(BeginStep);
    reader.ActQuietly(CompactStep(2));
    reader.ActQuietly(PublishStep);
    AdoptsTree(reader.engine.now, t);
    reader.ActQuietly(AdoptStep(0));
  }

  /** A record is applied, its row is read, and the next record is only logged: the row is cached. */
  method CacheRow(k: Key, v: Value, second: Record) returns (reader: RowReader)
    requires CheckUserKey(k).None? && second.lsn == 2 && second.ops != []
    ensures fresh(reader) && fresh(reader.engine) && fresh(reader.cache) && reader.Valid()
    ensures Waiting(reader.engine.now, PutRecord(k, v), second)
    ensures k in reader.cache.entries && reader.cache.entries[k].value == v
  {
    hide Sound, Next, RedoAll, Right, Waiting, UserRows, After, Dropped;
    reader := new RowReader(false, 8 * RowCost(k, v));
    Waits(k, v, second);
    var done := reader.ApplyReplicated(PutRecord(k, v), Written, None);
    var r := reader.Get(k);
    NoneTried(reader.engine.now, second);
    done := reader.ApplyReplicated(second, WrittenButFailed, None);
  }

  /** A row is read, so cached; the next record for its key is logged and its apply fails before the
      first operation; a checkpoint replays that record and is adopted. The map now holds the new
      value, and the cache still answers with the old one. */
  method StaleRead(k: Key, v: Value, w: Value)
    returns (reader: RowReader, r: Result<Option<Value>, RowError>)
    requires CheckUserKey(k).None? && v != w
    ensures fresh(reader) && reader.Valid() && r == Ok(Some(v)) && Answer(reader.engine.now, k) == Ok(Some(w))
  {
    hide Sound, RedoAll, Right, View, Waiting, UserRows;
    var second := Record(2, [Operation.Put(k, w)]);
    reader := CacheRow(k, v, second);
    PutLast(reader.engine.now.tree, k, w);
    AdoptPending(reader, PutRecord(k, v), second);
    r := reader.Get(k);
  }
}
