/** What every step of the engine keeps, over every run: while no LSN was given to two records, the
    view, the manifest and the log are states of one history, and exactly the tombstones an apply
    lost are missing from them. */
module EngineProofs {
  import opened Results
  import opened Keys
  import opened Stores
  import opened Overlays
  import opened Replay
  import opened Planning
  import opened Revisions
  import opened WriteBack
  import opened Replicas
  import opened Lineage
  import opened EngineSteps

  // ----- The invariant ------------------------------------------------------

  /** Consecutive LSNs, each possibly more than once. */
  ghost predicate Ordered(start: nat, log: seq<Record>) {
    && (log != [] ==> log[0].lsn == start + 1)
    && (forall i :: 0 < i < |log| ==> log[i - 1].lsn <= log[i].lsn <= log[i - 1].lsn + 1)
  }

  /** Every record is the history's record at its LSN. */
  ghost predicate Matches(h: seq<Record>, log: seq<Record>) {
    forall i :: 0 <= i < |log| ==> 1 <= log[i].lsn <= |h| && log[i] == h[log[i].lsn - 1]
  }

  ghost function AllRecords(a: State): seq<Record> {
    a.log + a.pending
  }

  ghost function AllTop(a: State): nat {
    Top(a.logStart, AllRecords(a))
  }

  /** What the files hold. */
  ghost predicate Files(a: State) {
    && Faithful(a.history) && Ordered(a.logStart, AllRecords(a)) && Matches(a.history, AllRecords(a))
    && a.flushed <= |a.log| && a.logStart <= a.manifest.lsn <= a.reach <= |a.history|
    && a.reach <= a.manifest.lsn + 1 && At(a.history, a.reach, a.manifest.store, a.missing.manifest)
    && (a.writeBack.Some? ==> a.reach == a.manifest.lsn && a.missing.manifest == {})
  }

  /** How much of the history survives any crash. */
  ghost function Kept(a: State): nat
    requires a.flushed <= |a.log|
  {
    Max(a.reach, Top(a.logStart, a.log[..a.flushed]))
  }

  ghost predicate Counters(a: State) {
    && a.flushed <= |a.log| && a.manifest.lsn <= a.lastLsn <= AllTop(a) <= a.lastLsn + 1
    && (AllRecords(a) == [] ==> a.lastLsn == a.logStart)
    && |a.history| == Max(a.reach, AllTop(a)) <= a.lastLsn + 1
    && Top(a.logStart, a.log) <= a.appended <= |a.history| && a.synced <= a.appended && a.synced <= Kept(a)
    && (Stalled(a) ==> a.torn && a.pending == [] && a.writeBack.None?)
  }

  ghost predicate Served(a: State) {
    match a.writeBack
    case None =>
      if Stalled(a) then
        Onto(a.history, a.lastLsn, a.tree, a.missing.live) &&
          (AllTop(a) == a.lastLsn ==> At(a.history, |a.history|, a.tree, a.missing.live))
      else At(a.history, a.lastLsn, a.tree, a.missing.live)
    case Some(buffer) =>
      && a.missing.live == {} && !a.torn && a.absorbed <= |a.history| == a.lastLsn
      && (Locked(a) || a.manifest.lsn <= a.absorbed)
      && a.tree == StateAt(a.history, a.absorbed) && View(a) == StateAt(a.history, |a.history|)
      && ExactBuffer(a.history, a.absorbed, buffer) && BufferTouched(a.history, buffer)
  }

  ghost predicate Counts(a: State) {
    && (!a.torn && !a.possible ==> NoTombstones(View(a)))
    && (!Stalled(a) ==> a.userLen == |UserKeys(View(a))|)
  }

  ghost predicate JobOk(a: State) {
    && (a.job.Some? && !Locked(a) ==>
          && a.jobAt <= |a.history| && (AllTop(a) < |a.history| ==> a.jobAt == |a.history|)
          && (a.writeBack.Some? ==> a.missing.job == {})
          && (!a.torn ==> Fewer(a.missing.job, a.history, a.jobAt, |a.history|) == a.missing.live))
    && match a.job
       case None => true
       case Some(Begun(t, lsn, at)) =>
         && at <= |a.log| && a.logStart <= lsn
         && ((a.jobAt == lsn && At(a.history, lsn, t, a.missing.job)) ||
             (a.jobAt == lsn + 1 && a.writeBack.None? && Onto(a.history, lsn, t, a.missing.job) &&
              (Top(a.logStart, a.log[..at]) > lsn || At(a.history, lsn + 1, t, a.missing.job))))
       case Some(Compacted(t, reached)) =>
         && a.logStart <= reached <= a.jobAt <= reached + 1 && At(a.history, a.jobAt, t, a.missing.job)
         && (a.writeBack.Some? ==> a.jobAt == reached)
       case Some(Published(t)) =>
         && a.manifest == Manifest(t, a.lastLsn) && a.reach == |a.history| && a.pending == []
         && (!a.torn ==> a.missing.manifest == a.missing.live)
  }

  ghost predicate Sound(a: State) {
    Files(a) && (if a.poisoned then !Locked(a) else Counters(a) && Served(a) && Counts(a) && JobOk(a))
  }

  /** What every run keeps. */
  ghost predicate Stands(a: State) {
    !a.forked ==> Sound(a)
  }

  // ----- Runs of records ----------------------------------------------------

  lemma OrderedHead(start: nat, log: seq<Record>, n: nat)
    requires Ordered(start, log) && n <= |log|
    ensures Ordered(start, log[..n])
  {
  }

  lemma {:induction false} OrderedTop(start: nat, log: seq<Record>, n: nat)
    requires Ordered(start, log) && n <= |log|
    ensures start <= Top(start, log[..n]) <= Top(start, log) && (n > 0 ==> start < Top(start, log[..n]))
    decreases |log| - n, n
  {
    if n == |log| {
      assert log[..n] == log;
      if n == 0 {
      } else {
        OrderedFirst(start, log, n);
      }
    } else {
      OrderedTop(start, log, n + 1);
      if n > 0 { OrderedFirst(start, log, n); }
    }
  }

  lemma {:induction false} OrderedFirst(start: nat, log: seq<Record>, n: nat)
    requires Ordered(start, log) && 0 < n <= |log|
    ensures start < log[n - 1].lsn
    decreases n
  {
    if n == 1 {
    } else {
      OrderedFirst(start, log, n - 1);
    }
  }

  /** Replay of an ordered run of the history's own records is replay of the history. */
  lemma {:induction false} ReplayedIs(h: seq<Record>, start: nat, log: seq<Record>, t: Store, after: nat)
    requires Ordered(start, log) && Matches(h, log) && start <= after <= |h|
    ensures var end := Max(after, Top(start, log));
            end <= |h| && Replayed(t, log, after) == (RedoLog(t, h[after..end]), end)
    decreases |log|
  {
    hide RedoAll, RedoLog;
    if log == [] {
      assert h[after..after] == [];
      Nothing(t);
    } else {
      var n := |log| - 1;
      OrderedHead(start, log, n);
      ReplayedIs(h, start, log[..n], t, after);
      OrderedTop(start, log, n);
      var end := Max(after, Top(start, log[..n]));
      assert n > 0 ==> log[..n][n - 1] == log[n - 1];
      if log[n].lsn > end {
        assert log[n].lsn == end + 1;
        ReplaySnoc(t, h, after, end + 1);
      }
    }
  }

  /** Replay from a tree at `content`, labelled with the LSN at or just before it. */
  lemma ReplayFrom(h: seq<Record>, from: nat, content: nat, t: Store, lost: set<Key>, top: nat)
    requires Faithful(h) && from <= content <= from + 1 && At(h, content, t, lost) && top <= |h|
    ensures var end := Max(from, top);
            && end <= |h| && Max(content, end) <= |h|
            && At(h, Max(content, end), RedoLog(t, h[from..end]), Fewer(lost, h, content, end))
  {
    hide Faithful, At, Onto, RedoLog;
    AtBound(h, content, t, lost);
    var end := Max(from, top);
    if end == from {
      assert h[from..end] == [];
      Nothing(t);
    } else if content == from {
      ReplayAt(h, from, t, lost, end);
    } else {
      AtBack(h, from, t, lost);
      ReplayOnto(h, from, t, lost, end);
    }
  }

  lemma AtBound(h: seq<Record>, n: nat, t: Store, lost: set<Key>)
    requires At(h, n, t, lost)
    ensures n <= |h|
  {
  }

  // ----- The log ------------------------------------------------------------

  /** Draining moves records from memory to the files and changes nothing else. */
  lemma DrainKeeps(a: State)
    requires Files(a)
    ensures var b := Drained(a);
            && Files(b) && AllRecords(b) == AllRecords(a) && Top(b.logStart, b.log) == AllTop(a) <= b.appended
            && b.log[..b.flushed] == a.log[..a.flushed]
  {
    hide Faithful, At, Ordered, Matches;
    assert a.log + a.pending + [] == a.log + a.pending;
    assert (a.log + a.pending)[..a.flushed] == a.log[..a.flushed];
  }

  lemma DrainCounts(a: State)
    requires Files(a) && Counters(a)
    ensures Counters(Drained(a)) && Kept(Drained(a)) == Kept(a)
  {
    hide Files;
    DrainKeeps(a);
    FilesTop(a);
  }

  lemma FilesTop(a: State)
    requires Files(a)
    ensures a.flushed <= |a.log| && a.logStart <= AllTop(a) <= |a.history|
    ensures Top(a.logStart, a.log[..a.flushed]) <= Top(a.logStart, a.log) <= AllTop(a)
  {
    hide Faithful, At, Ordered, Matches;
    var all := AllRecords(a);
    assert all[..|a.log|] == a.log && all[..|all|] == all;
    OrderedTop(a.logStart, all, |a.log|);
    OrderedHead(a.logStart, all, |a.log|);
    OrderedTop(a.logStart, a.log, a.flushed);
    OrderedTop(a.logStart, a.log, 0);
    TopWithin(a.history, a.logStart, all);
  }

  lemma SyncCounts(a: State, lsn: nat)
    requires Files(a) && Counters(a) && a.pending == []
    ensures var b := SyncedThrough(a, lsn);
            Files(b) && Counters(b) && Kept(a) <= Kept(b) && (a.synced < lsn ==> Kept(b) == |a.history|)
  {
    hide Faithful, At, Ordered, Matches;
    FilesTop(a);
    assert a.log[..|a.log|] == a.log && a.log + a.pending == a.log;
  }

  /** The job sees more records in the files. */
  lemma DrainJob(a: State)
    requires JobOk(a)
    ensures JobOk(Drained(a))
  {
    hide At, Onto, Fewer;
    var b := Drained(a);
    assert AllRecords(b) == AllRecords(a);
    if a.job.Some? && a.job.value.Begun? {
      var at := a.job.value.begunAt;
      assert b.log[..at] == a.log[..at];
    }
  }

  lemma DrainServed(a: State)
    requires Served(a)
    ensures Served(Drained(a))
  {
    hide At, Onto, ExactBuffer, BufferTouched, StateAt;
    assert AllRecords(Drained(a)) == AllRecords(a);
  }

  lemma DrainOk(a: State)
    requires Sound(a) && !a.poisoned
    ensures Sound(Drained(a)) && Kept(Drained(a)) == Kept(a) && Drained(a).appended >= AllTop(a)
  {
    hide Files, Counters, Served, JobOk, Counts;
    DrainKeeps(a);
    DrainCounts(a);
    DrainJob(a);
    DrainServed(a);
    DrainKeepsCounts(a);
  }

  lemma DrainKeepsCounts(a: State)
    requires Counts(a)
    ensures Counts(Drained(a))
  {
  }

  lemma SyncOk(a: State)
    requires Sound(a) && !a.poisoned
    ensures var b := AfterSync(a);
            && Sound(b) && Kept(a) <= Kept(b) && a.lastLsn <= Kept(b) && b.pending == [] && AllTop(b) == AllTop(a)
            && b.log == a.log + a.pending
  {
    hide Files, Served, JobOk, Counts;
    var d := Drained(a);
    DrainOk(a);
    SyncCounts(d, d.appended);
    SyncServes(d, d.appended);
    assert AllRecords(d) == AllRecords(a);
    assert AllRecords(AfterSync(a)) == AllRecords(d);
  }

  lemma SyncServes(a: State, lsn: nat)
    requires Served(a) && JobOk(a) && Counts(a)
    ensures var b := SyncedThrough(a, lsn); Served(b) && JobOk(b) && Counts(b)
  {
    hide At, Onto, Fewer, ExactBuffer, BufferTouched, StateAt, NoTombstones, UserKeys;
  }

  // ----- One more record ----------------------------------------------------

  /** `c` is `a` with one more record in the history, its record not yet written. */
  ghost predicate Grew(a: State, rec: Record, c: State) {
    && c.manifest == a.manifest && c.logStart == a.logStart && c.log == a.log && c.flushed == a.flushed
    && c.pending == a.pending && c.appended == a.appended && c.synced == a.synced && c.reach == a.reach
    && c.missing.manifest == a.missing.manifest && c.writeBack.Some? == a.writeBack.Some? && c.torn == a.torn
    && c.history == a.history + [rec]
  }

  lemma OrderedSnoc(start: nat, log: seq<Record>, rec: Record)
    requires Ordered(start, log) && Top(start, log) <= rec.lsn <= Top(start, log) + 1
    requires log == [] ==> rec.lsn == start + 1
    ensures Ordered(start, log + [rec])
  {
  }

  lemma MatchesLonger(h: seq<Record>, longer: seq<Record>, log: seq<Record>)
    requires Matches(h, log) && h <= longer
    ensures Matches(longer, log)
  {
  }

  /** A record of the next LSN may be held, written, or written and synced. */
  lemma AppendFiles(a: State, rec: Record, c: State, barrier: Barrier)
    requires Files(a) && Grew(a, rec, c) && Faithful(c.history)
    requires rec.lsn == |a.history| + 1 == AllTop(a) + 1
    ensures var b := Appended(c, rec, barrier);
            && Files(b) && AllRecords(b) == AllRecords(a) + [rec] && AllTop(b) == rec.lsn
            && (!barrier.Held? ==> b.pending == [] && b.log == AllRecords(a) + [rec])
  {
    hide Faithful, Ordered, Matches, At;
    var held := c.(pending := c.pending + [rec]);
    assert AllRecords(held) == AllRecords(a) + [rec];
    OrderedSnoc(a.logStart, AllRecords(a), rec);
    AppendMatches(a, rec);
    AtLonger(a.history, c.history, a.reach, a.manifest.store, a.missing.manifest);
    assert Files(held);
    DrainKeeps(held);
    assert AllRecords(Drained(held)) + [] == AllRecords(Drained(held));
  }

  lemma AppendMatches(a: State, rec: Record)
    requires Matches(a.history, AllRecords(a)) && rec.lsn == |a.history| + 1
    ensures Matches(a.history + [rec], AllRecords(a) + [rec])
  {
    MatchesLonger(a.history, a.history + [rec], AllRecords(a));
  }

  lemma AppendCounters(a: State, rec: Record, c: State, barrier: Barrier)
    requires Files(a) && Counters(a) && Grew(a, rec, c) && Faithful(c.history) && c.lastLsn == rec.lsn
    requires rec.lsn == |a.history| + 1 && !Stalled(a)
    ensures var b := Appended(c, rec, barrier);
            Counters(b) && Kept(a) <= Kept(b) && (barrier.Immediate? ==> Kept(b) == |b.history|)
  {
    hide Files, Faithful;
    AppendFiles(a, rec, c, barrier);
    AppendFiles(a, rec, c, Deferred);
    FilesTop(a);
    var held := c.(pending := c.pending + [rec]);
    AppendFiles(a, rec, c, Held);
    assert held.log[..held.flushed] == a.log[..a.flushed];
    assert Counters(held);
    DrainCounts(held);
    if barrier.Immediate? { SyncCounts(Drained(held), rec.lsn); }
  }

  lemma {:induction false} FewerLonger(lost: set<Key>, h: seq<Record>, longer: seq<Record>, from: nat, end: nat)
    requires h <= longer && end <= |h|
    ensures Fewer(lost, longer, from, end) == Fewer(lost, h, from, end)
    decreases end
  {
    if from < end { FewerLonger(lost, h, longer, from, end - 1); }
  }

  /** A checkpoint in progress is not disturbed by one more record. */
  lemma AppendJob(a: State, rec: Record, c: State, barrier: Barrier)
    requires JobOk(a) && !Locked(a) && Grew(a, rec, c) && AllTop(a) == |a.history| && rec.lsn == |a.history| + 1
    requires c.job == a.job && c.jobAt == a.jobAt && c.missing.job == a.missing.job
    requires c.missing.live == a.missing.live - TouchedKeys(rec.ops)
    ensures JobOk(Appended(c, rec, barrier))
  {
    hide At, Onto, TouchedKeys, Fewer;
    var held := c.(pending := c.pending + [rec]);
    assert AllRecords(held) == AllRecords(a) + [rec];
    if a.job.Some? {
      JobLonger(a, rec);
      FewerSnoc(a.missing.job, a.history, rec, a.jobAt);
    }
    assert JobOk(held);
    DrainJob(held);
    if barrier.Immediate? { SyncJob(Drained(held), rec.lsn); }
  }

  lemma FewerSnoc(lost: set<Key>, h: seq<Record>, rec: Record, from: nat)
    requires from <= |h|
    ensures Fewer(lost, h + [rec], from, |h| + 1) == Fewer(lost, h, from, |h|) - TouchedKeys(rec.ops)
  {
    FewerLonger(lost, h, h + [rec], from, |h|);
  }

  lemma JobLonger(a: State, rec: Record)
    requires JobOk(a) && a.job.Some? && !Locked(a)
    ensures match a.job.value
            case Begun(t, lsn, at) =>
              && (lsn <= |a.history| ==>
                    (At(a.history + [rec], lsn, t, a.missing.job) <==> At(a.history, lsn, t, a.missing.job)))
              && (lsn < |a.history| ==>
                    && (Onto(a.history + [rec], lsn, t, a.missing.job) <==> Onto(a.history, lsn, t, a.missing.job))
                    && (At(a.history + [rec], lsn + 1, t, a.missing.job) <==> At(a.history, lsn + 1, t, a.missing.job)))
            case Compacted(t, reached) => At(a.history + [rec], a.jobAt, t, a.missing.job)
            case Published(_) => true
  {
    hide Onto, At, Fewer;
    var longer := a.history + [rec];
    match a.job.value
    case Begun(t, lsn, at) =>
      if lsn <= |a.history| { AtLonger(a.history, longer, lsn, t, a.missing.job); }
      if lsn < |a.history| {
        OntoLonger(a.history, longer, lsn, t, a.missing.job);
        AtLonger(a.history, longer, lsn + 1, t, a.missing.job);
      }
    case Compacted(t, reached) =>
      AtLonger(a.history, longer, a.jobAt, t, a.missing.job);
    case Published(_) =>
  }

  lemma SyncJob(a: State, lsn: nat)
    requires JobOk(a)
    ensures JobOk(SyncedThrough(a, lsn))
  {
    hide At, Onto, Fewer;
  }

  // ----- Commits ------------------------------------------------------------

  /** While the flag is right, a commit's plan says what redoing the batch does. */
  lemma PlanHolds(a: State, ops: seq<Operation>)
    requires (a.possible || NoTombstones(View(a))) && Addressable(ops)
    ensures PlanFor(View(a), ops, a.lastLsn + 1, PlanOf(a, ops)) && (a.possible ==> PlanOf(a, ops).possible)
  {
    hide PlanFor, NoTombstones, UserKeys, Planned;
    PlannedIs(View(a), ops, a.lastLsn + 1, a.possible);
  }

  lemma NotMisled(a: State)
    requires !Misled(a)
    ensures a.possible || NoTombstones(View(a))
  {
  }

  lemma CountsAfter(v: Store, ops: seq<Operation>, lsn: nat, p: Plan)
    requires PlanFor(v, ops, lsn, p)
    ensures var after := RedoAll(v, ops, lsn);
            && ApplyEdits(v, p.mutations) == RedoAll(v, p.logged, lsn) == after
            && |UserKeys(after)| == |UserKeys(v)| + p.userDelta && (!p.possible ==> NoTombstones(after))
            && Addressable(p.logged) && Hits(v, p.logged, lsn) && OwnedBy(p.mutations, p.logged, lsn)
            && p.logged == Effective(v, ops, lsn) && Reports(p.results, v, ops, lsn)
  {
  }

  /** A record whose deletes hit a tree with tombstones missing fits the log, and redoing it leaves
      fewer missing. */
  lemma NextRecord(h: seq<Record>, t: Store, lost: set<Key>, ops: seq<Operation>)
    requires Faithful(h) && At(h, |h|, t, lost) && Addressable(ops) && Hits(t, ops, |h| + 1)
    ensures var longer := h + [Record(|h| + 1, ops)];
            Faithful(longer) && At(longer, |h| + 1, RedoAll(t, ops, |h| + 1), lost - TouchedKeys(ops))
  {
    hide Faithful, StateAt, RedoAll, Hits;
    var longer := h + [Record(|h| + 1, ops)];
    HitsWithout(StateAt(h, |h|), ops, |h| + 1, lost);
    FaithfulExtends(h, Record(|h| + 1, ops));
    assert At(longer, |h|, t, lost) by { AtLonger(h, longer, |h|, t, lost); }
    AtStarts(longer, |h|, t, lost);
    OntoFinishes(longer, |h|, t, lost - TouchedKeys(ops));
  }

  lemma TreeCommit(a: State, ops: seq<Operation>)
    requires Files(a) && Served(a) && Counts(a) && !Misled(a) && a.writeBack.None? && Addressable(ops)
    requires |a.history| == a.lastLsn
    ensures var p, rec := PlanOf(a, ops), RecordOf(a, ops);
            && Faithful(a.history + [rec])
            && At(a.history + [rec], rec.lsn, ApplyEdits(a.tree, p.mutations), a.missing.live - TouchedKeys(p.logged))
            && |UserKeys(ApplyEdits(a.tree, p.mutations))| == a.userLen + p.userDelta
            && (!p.possible ==> NoTombstones(ApplyEdits(a.tree, p.mutations)))
  {
    hide PlanFor, Faithful, At, Onto, UserKeys, NoTombstones, RedoAll, ApplyEdits, Hits, Ordered, Matches, Planned;
    NotMisled(a);
    PlanHolds(a, ops);
    CountsAfter(a.tree, ops, a.lastLsn + 1, PlanOf(a, ops));
    NextRecord(a.history, a.tree, a.missing.live, PlanOf(a, ops).logged);
  }

  /** A planned batch, committed at the next LSN of a log whose state it was planned on. */
  lemma PlanRecords(h: seq<Record>, view: Store, ops: seq<Operation>, p: Plan)
    requires Faithful(h) && view == StateAt(h, |h|) && PlanFor(view, ops, |h| + 1, p)
    ensures var longer := h + [Record(|h| + 1, p.logged)];
            && Faithful(longer) && StateAt(longer, |longer|) == RedoAll(view, ops, |h| + 1)
            && Committed(longer, |longer|, p.mutations)
  {
    var rec := Record(|h| + 1, p.logged);
    FaithfulExtends(h, rec);
    StateAtKept(h, h + [rec], |h|);
    hide RedoAll, StateAt, Faithful, ApplyEdits, Effective, Hits;
    forall i | 0 <= i < |p.mutations| && p.mutations[i].change.Put?
      ensures p.mutations[i].change.revision == |h| + 1
    {
      assert OwnedEdit(p.mutations[i], p.logged, |h| + 1);
    }
  }

  lemma BufferTakes(h: seq<Record>, rec: Record, absorbed: nat, buffer: Buffer, edits: seq<Edit>)
    requires ExactBuffer(h, absorbed, buffer) && BufferTouched(h, buffer)
    requires Committed(h + [rec], |h| + 1, edits) && Addressable(rec.ops) && OwnedBy(edits, rec.ops, |h| + 1)
    ensures var b := RecordEdits(buffer, edits, |h| + 1);
            && ExactBuffer(h + [rec], absorbed, b) && BufferTouched(h + [rec], b)
            && StateAt(h + [rec], absorbed) == StateAt(h, absorbed)
            && Merge(StateAt(h, absorbed), b) == StateAt(h + [rec], |h| + 1)
  {
    ExactCommit(h, rec, absorbed, buffer, edits);
    TouchedLonger(h, rec, absorbed, buffer, edits);
    StateAtKept(h, h + [rec], absorbed);
    ExactMerges(h + [rec], absorbed, absorbed, RecordEdits(buffer, edits, |h| + 1));
  }

  lemma BufferCommit(a: State, ops: seq<Operation>)
    requires Files(a) && Served(a) && Counts(a) && !Misled(a) && a.writeBack.Some? && Addressable(ops)
    ensures var p, rec := PlanOf(a, ops), RecordOf(a, ops);
            var b := RecordEdits(a.writeBack.value, p.mutations, rec.lsn);
            var h := a.history + [rec];
            && Faithful(h) && ExactBuffer(h, a.absorbed, b) && BufferTouched(h, b)
            && a.tree == StateAt(h, a.absorbed) && Merge(a.tree, b) == StateAt(h, |h|)
            && |UserKeys(Merge(a.tree, b))| == a.userLen + p.userDelta
            && (!p.possible ==> NoTombstones(Merge(a.tree, b)))
  {
    hide PlanFor, Faithful, At, UserKeys, NoTombstones, RedoAll, ApplyEdits, Hits, Ordered, Matches, Planned, StateAt,
         ExactBuffer, BufferTouched, Merge, Committed, RecordEdits, OwnedBy;
    NotMisled(a);
    PlanHolds(a, ops);
    CountsAfter(View(a), ops, a.lastLsn + 1, PlanOf(a, ops));
    PlanRecords(a.history, View(a), ops, PlanOf(a, ops));
    BufferTakes(a.history, RecordOf(a, ops), a.absorbed, a.writeBack.value, PlanOf(a, ops).mutations);
  }

  /** The state that logs the batch: one more record in the history. */
  ghost function WithRecord(a: State, ops: seq<Operation>): State {
    a.(possible := PlanOf(a, ops).possible, history := a.history + [RecordOf(a, ops)])
  }

  lemma TreeServes(a: State, ops: seq<Operation>, barrier: Barrier)
    requires Sound(a) && !a.poisoned && !Misled(a) && Addressable(ops) && a.writeBack.None?
    ensures var b := Appended(Visible(WithRecord(a, ops), PlanOf(a, ops)), RecordOf(a, ops), barrier);
            Faithful(b.history) && Served(b) && Counts(b)
  {
    hide Files, Counters, JobOk, At, Onto, UserKeys, NoTombstones, ApplyEdits, StateAt, Faithful, TouchedKeys, PlanOf;
    NotStalled(a);
    TreeCommit(a, ops);
  }

  lemma BufferServes(a: State, ops: seq<Operation>, barrier: Barrier)
    requires Sound(a) && !a.poisoned && !Misled(a) && Addressable(ops) && a.writeBack.Some? && !Locked(a)
    ensures var b := Appended(Visible(WithRecord(a, ops), PlanOf(a, ops)), RecordOf(a, ops), barrier);
            Faithful(b.history) && Served(b) && Counts(b)
  {
    hide Files, Counters, JobOk, At, Onto, UserKeys, NoTombstones, StateAt, Faithful, ExactBuffer, BufferTouched, Merge,
         RecordEdits, PlanOf, TouchedKeys;
    NotStalled(a);
    BufferCommit(a, ops);
    assert {} - TouchedKeys(PlanOf(a, ops).logged) == {};
  }

  /** The applied batch is what the engine serves, and counts. */
  lemma VisibleServes(a: State, ops: seq<Operation>, barrier: Barrier)
    requires Sound(a) && !a.poisoned && !Misled(a) && Addressable(ops) && !Locked(a)
    ensures var b := Appended(Visible(WithRecord(a, ops), PlanOf(a, ops)), RecordOf(a, ops), barrier);
            && Faithful(a.history + [RecordOf(a, ops)]) && RecordOf(a, ops).lsn == |a.history| + 1
            && Served(b) && Counts(b)
  {
    hide Files, Counters, JobOk, Served, Counts, Faithful, PlanOf;
    NotStalled(a);
    if a.writeBack.Some? {
      BufferServes(a, ops, barrier);
    } else {
      TreeServes(a, ops, barrier);
    }
    KeepsHistory(WithRecord(a, ops), PlanOf(a, ops), RecordOf(a, ops), barrier);
  }

  lemma KeepsHistory(a: State, p: Plan, rec: Record, barrier: Barrier)
    ensures Appended(Visible(a, p), rec, barrier).history == a.history
  {
    hide ApplyEdits, RecordEdits, TouchedKeys, Top;
  }

  lemma NotStalled(a: State)
    requires Counters(a) && !Stalled(a)
    ensures |a.history| == a.lastLsn == AllTop(a)
  {
  }

  lemma CommitWritten(a: State, ops: seq<Operation>, barrier: Barrier)
    requires Sound(a) && !a.forked && !a.poisoned && !Misled(a) && !Locked(a) && Addressable(ops)
    ensures var b := Appended(Visible(WithRecord(a, ops), PlanOf(a, ops)), RecordOf(a, ops), barrier);
            && Sound(b) && Kept(a) <= Kept(b) && (barrier.Immediate? ==> Kept(b) == |b.history|)
            && b.history == a.history + [RecordOf(a, ops)]
  {
    hide Files, Counters, Served, Counts, JobOk, PlanOf, Faithful, TouchedKeys, Fewer;
    NotStalled(a);
    VisibleServes(a, ops, barrier);
    var p, rec := PlanOf(a, ops), RecordOf(a, ops);
    var c := Visible(WithRecord(a, ops), p);
    AppendFiles(a, rec, c, barrier);
    AppendCounters(a, rec, c, barrier);
    AppendJob(a, rec, c, barrier);
  }

  lemma CommitFailed(a: State, ops: seq<Operation>)
    requires Sound(a) && !a.poisoned && !Misled(a) && !Locked(a) && Addressable(ops)
    ensures var b := Appended(WithRecord(a, ops), RecordOf(a, ops), Deferred).(poisoned := true);
            Sound(b) && Kept(a) <= Kept(b) && b.history == a.history + [RecordOf(a, ops)]
  {
    hide Files, Counters, Served, Counts, JobOk, PlanOf, Faithful, TouchedKeys, Fewer;
    NotStalled(a);
    VisibleServes(a, ops, Deferred);
    AppendFiles(a, RecordOf(a, ops), WithRecord(a, ops), Deferred);
    FailedKeeps(a, RecordOf(a, ops), WithRecord(a, ops));
  }

  lemma CommitRefused(a: State, ops: seq<Operation>)
    requires Sound(a) && !a.poisoned && !Locked(a) && Addressable(ops)
    ensures var b := a.(possible := PlanOf(a, ops).possible);
            && Sound(b) && Kept(b) == Kept(a) && Sound(b.(poisoned := true)) && Kept(b.(poisoned := true)) == Kept(a)
  {
    hide Files, Counters, Served, Counts, JobOk, PlanOf;
    FilesTop(a);
    FlagOk(a, ops);
    FlaggedFiles(a, PlanOf(a, ops).possible);
  }

  /** What one step leaves of what a crash could not take. */
  ghost predicate Keeps(a: State, b: State) {
    b.forked || (a.flushed <= |a.log| && b.flushed <= |b.log| && Kept(a) <= Kept(b))
  }

  lemma SoundFlushed(a: State)
    requires Sound(a)
    ensures a.flushed <= |a.log| && Kept(a) <= |a.history|
  {
    hide At, Faithful, Counters, Served, Counts, JobOk;
    FilesTop(a);
  }

  lemma CommitOk(a: State, ops: seq<Operation>, barrier: Barrier, treeOk: bool, outcome: LogOutcome)
    requires Sound(a) && !a.forked && !Locked(a) && Addressable(ops)
    ensures var b := AfterCommit(a, ops, barrier, treeOk, outcome);
            && Stands(b) && Keeps(a, b) && (!b.forked ==> a.history <= b.history)
  {
    hide Sound, PlanOf, Visible, Appended, Kept, Misled, RecordOf, ValidOps;
    SoundFlushed(a);
    if a.poisoned || !ValidOps(ops) {
      return;
    }
    CommitRefused(a, ops);
    SoundFlushed(a.(possible := PlanOf(a, ops).possible));
    SoundFlushed(a.(possible := PlanOf(a, ops).possible, poisoned := true));
    if Misled(a) {
      StaysForked(a, ops, barrier);
      return;
    }
    NoStall(a);
    HealthyLength(a);
    NextLsn(a, ops);
    if outcome.Written? {
      CommitWritten(a, ops, barrier);
      SoundFlushed(Appended(Visible(WithRecord(a, ops), PlanOf(a, ops)), RecordOf(a, ops), barrier));
    } else {
      CommitFailed(a, ops);
      SoundFlushed(Appended(WithRecord(a, ops), RecordOf(a, ops), Deferred).(poisoned := true));
    }
  }

  lemma NoStall(a: State)
    requires !Misled(a)
    ensures !Stalled(a)
  {
  }

  lemma NextLsn(a: State, ops: seq<Operation>)
    ensures RecordOf(a, ops).lsn == a.lastLsn + 1
  {
  }

  lemma StaysForked(a: State, ops: seq<Operation>, barrier: Barrier)
    ensures var logged := a.(possible := PlanOf(a, ops).possible, history := Longer(a.history, RecordOf(a, ops)),
                             forked := true);
            && Appended(Visible(logged, PlanOf(a, ops)), RecordOf(a, ops), barrier).forked
            && Appended(logged, RecordOf(a, ops), Deferred).forked
  {
    hide PlanOf;
  }

  lemma HealthyLength(a: State)
    requires Sound(a) && !a.poisoned && !Stalled(a)
    ensures |a.history| == a.lastLsn
  {
  }

  lemma FlagOk(a: State, ops: seq<Operation>)
    requires Counts(a) && Addressable(ops)
    ensures Counts(a.(possible := PlanOf(a, ops).possible))
  {
    hide PlanFor, UserKeys, Planned;
    if !a.torn { PlanHolds(a, ops); }
  }

  lemma FlaggedFiles(a: State, possible: bool)
    requires Sound(a) && !a.poisoned && !Locked(a)
    ensures var b := a.(possible := possible);
            && Files(b) && Counters(b) && Served(b) && JobOk(b) && Kept(b) == Kept(a)
            && Files(b.(poisoned := true)) && Kept(b.(poisoned := true)) == Kept(a)
  {
    hide At, Onto, Faithful, Ordered, Matches, Fewer, ExactBuffer, BufferTouched, StateAt;
  }

  lemma FailedKeeps(a: State, rec: Record, logged: State)
    requires Files(a) && Counters(a) && Grew(a, rec, logged) && Files(Appended(logged, rec, Deferred))
    ensures var b := Appended(logged, rec, Deferred).(poisoned := true); Files(b) && Kept(a) <= Kept(b)
  {
    hide At, Faithful, Ordered, Matches;
    var b := Appended(logged, rec, Deferred);
    assert b.log[..b.flushed] == a.log[..a.flushed];
  }

  // ----- Flushes and checkpoints --------------------------------------------

  /** An empty buffer over the state it starts from. */
  lemma FreshBuffer(h: seq<Record>)
    ensures Merge(StateAt(h, |h|), map[]) == StateAt(h, |h|) && ExactBuffer(h, |h|, map[]) && BufferTouched(h, map[])
  {
    var t := StateAt(h, |h|);
    assert Merge(t, map[]) == t;
    forall k ensures Steady(h, k, |h|, Lookup(t, k)) {
      assert HeldAt(h, |h|, k) == Lookup(t, k);
    }
  }

  lemma FlushOk(a: State, treeOk: bool)
    requires Sound(a) && !Locked(a)
    ensures var b := AfterFlush(a, treeOk); Sound(b) && View(b) == View(a) && Kept(a) == Kept(b)
  {
    hide At, Onto, Faithful, Ordered, Matches, Fewer, ExactBuffer, BufferTouched, StateAt, Merge, UserKeys;
    FreshBuffer(a.history);
  }

  lemma BeginOk(a: State)
    requires Sound(a) && !Locked(a) && !a.poisoned
    ensures var b := AfterBegin(a); Sound(b) && Kept(a) <= Kept(b) && View(b) == View(a)
  {
    hide Files, Counts, At, Onto, Fewer, ExactBuffer, BufferTouched, StateAt, AfterSync;
    SyncOk(a);
    SyncFrame(a);
    var s := AfterSync(a);
    FewerWhole(a.missing.live, a.history);
    BeginJob(a, s);
    BeginFiles(s);
  }

  lemma SyncFrame(a: State)
    requires !a.poisoned
    ensures var b := AfterSync(a);
            b == a.(log := b.log, pending := b.pending, appended := b.appended, flushed := b.flushed,
                    synced := b.synced)
  {
  }

  lemma FewerWhole(lost: set<Key>, h: seq<Record>)
    ensures Fewer(lost, h, |h|, |h|) == lost
  {
  }

  lemma BeginFiles(s: State)
    requires Files(s) && Counts(s)
    ensures forall j, at, m :: Files(s.(job := j, jobAt := at, missing := s.missing.(job := m))) &&
                               Counts(s.(job := j, jobAt := at, missing := s.missing.(job := m)))
  {
    hide At, Faithful, Ordered, Matches, NoTombstones, UserKeys;
  }

  lemma BeginJob(a: State, s: State)
    requires Sound(a) && !a.poisoned && !Locked(a) && Sound(s) && s.pending == [] && AllTop(s) == AllTop(a)
    requires s == a.(log := s.log, pending := s.pending, appended := s.appended, flushed := s.flushed,
                     synced := s.synced)
    ensures JobOk(AfterBeginFrom(a, s))
  {
    hide Faithful, Ordered, Matches, ExactBuffer, BufferTouched, StateAt, Fewer, At, Onto;
    FewerWhole(a.missing.live, a.history);
    assert s.log[..|s.log|] == s.log && s.log + [] == s.log;
    if a.writeBack.Some? {
      AbsorbedAt(a);
      FewerNone(a.history, a.absorbed, |a.history|);
    }
  }

  ghost function AfterBeginFrom(a: State, s: State): State {
    s.(job := Some(Begun(a.tree, if a.writeBack.Some? then a.absorbed else a.lastLsn, |s.log|)),
       jobAt := if a.writeBack.Some? then a.absorbed else |a.history|,
       missing := a.missing.(job := a.missing.live))
  }

  lemma AbsorbedAt(a: State)
    requires Served(a) && a.writeBack.Some?
    ensures At(a.history, a.absorbed, a.tree, {})
  {
    Exactly(a.history, a.absorbed);
  }

  /** What the compactor reaches from a snapshot that may lie between two records. */
  lemma CompactReaches(a: State, visible: nat)
    requires Files(a) && JobOk(a) && a.job.Some? && a.job.value.Begun? && a.job.value.begunAt <= visible <= |a.log|
    ensures var done := Replayed(a.job.value.snapshot, a.log[..visible], a.job.value.lsn);
            && a.logStart <= done.1 <= |a.history| && a.job.value.lsn <= done.1
            && done.1 <= Max(a.jobAt, done.1) <= done.1 + 1 && Max(a.jobAt, done.1) <= |a.history|
            && At(a.history, Max(a.jobAt, done.1), done.0, Fewer(a.missing.job, a.history, a.jobAt, done.1))
            && (a.writeBack.Some? ==> Max(a.jobAt, done.1) == done.1)
  {
    hide Faithful, At, Onto, Ordered, Matches, Fewer, RedoLog, Replayed;
    var h, t, lsn, at := a.history, a.job.value.snapshot, a.job.value.lsn, a.job.value.begunAt;
    var seen := a.log[..visible];
    VisibleRecords(a, visible);
    VisibleRecords(a, at);
    assert seen[..at] == a.log[..at];
    OrderedTop(a.logStart, seen, at);
    var top := Top(a.logStart, seen);
    JobBounds(a);
    TopWithin(h, a.logStart, seen);
    ReplayedIs(h, a.logStart, seen, t, lsn);
    if a.jobAt == lsn && At(h, lsn, t, a.missing.job) {
      ReplayFrom(h, lsn, lsn, t, a.missing.job, if top < lsn then lsn else top);
    } else if top > lsn {
      ReplayOnto(h, lsn, t, a.missing.job, top);
    } else {
      ReplayFrom(h, lsn, lsn + 1, t, a.missing.job, lsn);
    }
  }

  lemma TopWithin(h: seq<Record>, start: nat, log: seq<Record>)
    requires Matches(h, log) && start <= |h|
    ensures Top(start, log) <= |h|
  {
  }

  lemma VisibleRecords(a: State, n: nat)
    requires Ordered(a.logStart, AllRecords(a)) && Matches(a.history, AllRecords(a)) && n <= |a.log|
    ensures Ordered(a.logStart, a.log[..n]) && Matches(a.history, a.log[..n])
  {
    assert AllRecords(a)[..n] == a.log[..n];
  }

  lemma JobBounds(a: State)
    requires JobOk(a) && a.job.Some? && a.job.value.Begun?
    ensures a.job.value.lsn <= |a.history| && a.logStart <= a.job.value.lsn
    ensures a.jobAt == a.job.value.lsn + 1 ==> a.job.value.lsn < |a.history|
  {
    hide Fewer;
  }

  lemma CompactOk(a: State, visible: nat)
    requires Sound(a)
    ensures var b := AfterCompact(a, visible); Sound(b) && Kept(b) == Kept(a) && View(b) == View(a)
  {
    hide Faithful, At, Onto, Ordered, Matches, Fewer, Replayed, ExactBuffer, BufferTouched, StateAt, NoTombstones,
         UserKeys;
    if !a.poisoned && a.job.Some? && a.job.value.Begun? && a.job.value.begunAt <= visible <= |a.log| {
      CompactReaches(a, visible);
      var done := Replayed(a.job.value.snapshot, a.log[..visible], a.job.value.lsn);
      FewerTwice(a.missing.job, a.history, a.jobAt, done.1);
      FewerNone(a.history, a.jobAt, done.1);
    }
  }

  /** Accounting in two spans is accounting in one. */
  lemma {:induction false} FewerSplit(lost: set<Key>, h: seq<Record>, from: nat, mid: nat, end: nat)
    requires from <= mid <= end <= |h|
    ensures Fewer(Fewer(lost, h, from, mid), h, mid, end) == Fewer(lost, h, from, end)
    decreases end
  {
    if mid < end { FewerSplit(lost, h, from, mid, end - 1); }
  }

  lemma FewerTwice(lost: set<Key>, h: seq<Record>, from: nat, mid: nat)
    requires from <= |h| && mid <= |h|
    ensures Fewer(Fewer(lost, h, from, mid), h, Max(from, mid), |h|) == Fewer(lost, h, from, |h|)
  {
    if from <= mid { FewerSplit(lost, h, from, mid, |h|); }
  }

  /** The tail replayed onto the compacted tree brings it to the end of the log. */
  lemma PublishReaches(a: State)
    requires Files(a) && Counters(a) && JobOk(a) && a.job.Some? && a.job.value.Compacted?
    ensures var done := Replayed(a.job.value.tree, AllRecords(a), a.job.value.reached);
            && Max(a.jobAt, done.1) == |a.history| && done.1 <= |a.history|
            && At(a.history, |a.history|, done.0, Fewer(a.missing.job, a.history, a.jobAt, done.1))
            && Fewer(a.missing.job, a.history, a.jobAt, done.1) == Fewer(a.missing.job, a.history, a.jobAt, |a.history|)
            && (a.writeBack.Some? ==> |a.history| == a.lastLsn)
  {
    hide Faithful, At, Ordered, Matches, RedoLog, Replayed;
    var h, t, reached := a.history, a.job.value.tree, a.job.value.reached;
    TopWithin(h, a.logStart, AllRecords(a));
    ReplayedIs(h, a.logStart, AllRecords(a), t, reached);
    ReplayFrom(h, reached, a.jobAt, t, a.missing.job, AllTop(a));
  }

  lemma PublishFiles(a: State)
    requires Sound(a) && !a.poisoned && a.job.Some? && a.job.value.Compacted?
    ensures var b := AfterPublish(a); Files(b) && Counters(b) && JobOk(b) && Kept(a) <= Kept(b)
  {
    hide Faithful, At, Onto, Ordered, Matches, Fewer, Replayed, Served, Counts;
    var d := Drained(a);
    DrainOk(a);
    assert AllRecords(a) == d.log && AllRecords(d) == d.log;
    PublishReaches(a);
    FewerNone(a.history, a.jobAt, |a.history|);
    FilesTop(d);
  }

  lemma PublishServes(a: State)
    requires Served(a) && Counts(a) && Files(a) && !a.poisoned && a.job.Some? && a.job.value.Compacted?
    ensures var b := AfterPublish(a); Served(b) && Counts(b) && View(b) == View(a)
  {
    hide Files, At, Onto, Fewer, Replayed, ExactBuffer, BufferTouched, StateAt, NoTombstones, UserKeys;
    DrainServed(a);
    assert AllRecords(AfterPublish(a)) == AllRecords(a);
  }

  lemma PublishOk(a: State)
    requires Sound(a) && !Locked(a)
    ensures var b := AfterPublish(a); Sound(b) && Kept(a) <= Kept(b) && View(b) == View(a)
  {
    hide Files, Counters, Served, Counts, JobOk, Kept, Replayed;
    SoundFlushed(a);
    if !a.poisoned && a.job.Some? && a.job.value.Compacted? {
      PublishFiles(a);
      PublishServes(a);
    }
  }

  lemma SuffixOrdered(h: seq<Record>, start: nat, log: seq<Record>, n: nat)
    requires Ordered(start, log) && Matches(h, log) && n < |log|
    ensures Ordered(log[n].lsn - 1, log[n..]) && Matches(h, log[n..])
    ensures Top(log[n].lsn - 1, log[n..]) == Top(start, log)
    ensures log[n].lsn <= Top(start, log)
  {
    OrderedTop(start, log, n + 1);
  }

  /** Where the log starts once `n` of its records are deleted. */
  ghost function StartAfter(a: State, n: nat): nat
    requires n <= |a.log|
  {
    if n == 0 then a.logStart else if n == |a.log| then a.lastLsn else Before(a.log[n].lsn)
  }

  lemma CutLog(a: State, n: nat)
    requires Ordered(a.logStart, a.log) && Matches(a.history, a.log) && n <= |a.log|
    requires a.logStart <= a.lastLsn <= Top(a.logStart, a.log) <= a.lastLsn + 1
    requires a.log == [] ==> a.lastLsn == a.logStart
    ensures var start, log := StartAfter(a, n), a.log[n..];
            && Ordered(start, log) && Matches(a.history, log)
            && start <= a.lastLsn <= Top(start, log) <= Top(a.logStart, a.log)
            && (log == [] ==> start == a.lastLsn)
  {
    hide Ordered, Matches;
    NoRecords(a.history, a.lastLsn);
    if n == 0 {
      assert a.log[0..] == a.log;
    } else if n < |a.log| {
      SuffixOrdered(a.history, a.logStart, a.log, n);
      FirstPositive(a.history, a.log, n);
    } else {
      assert a.log[n..] == [];
    }
  }

  lemma AdoptFiles(a: State, retired: nat)
    requires Files(a) && Counters(a) && JobOk(a) && Locked(a)
    ensures var b := AfterAdopt(a, retired); Files(b) && AllRecords(b) == b.log
    ensures var b := AfterAdopt(a, retired);
            && b.logStart <= a.lastLsn <= Top(b.logStart, b.log) <= AllTop(a)
            && (b.log == [] ==> b.logStart == a.lastLsn)
  {
    hide Faithful, At, Onto, Fewer, Ordered, Matches, Top, Before, Kept, Max;
    var n := if retired < |a.log| then retired else |a.log|;
    assert AllRecords(a) == a.log;
    CutLog(a, n);
    var b := AfterAdopt(a, retired);
    assert b.logStart == StartAfter(a, n) && b.log == a.log[n..];
    assert AllRecords(b) == b.log;
  }

  lemma AdoptCounters(a: State, retired: nat)
    requires Files(a) && Counters(a) && JobOk(a) && Locked(a)
    ensures var b := AfterAdopt(a, retired); Counters(b) && Kept(a) <= Kept(b)
  {
    hide Faithful, At, Onto, Fewer, Ordered, Matches, Before, Files, Top;
    FilesTop(a);
    AdoptFiles(a, retired);
    AdoptFrame(a, retired);
    var b := AfterAdopt(a, retired);
    assert AllRecords(a) == a.log && Kept(b) >= b.reach;
  }

  lemma AdoptFrame(a: State, retired: nat)
    requires Locked(a)
    ensures var b := AfterAdopt(a, retired);
            && b.manifest == a.manifest && b.pending == a.pending && b.appended == a.appended && b.lastLsn == a.lastLsn
            && b.synced == Max(a.synced, a.appended) && b.history == a.history && b.reach == a.reach && b.torn == a.torn
            && b.flushed == |b.log| && b.writeBack.Some? == a.writeBack.Some? && b.poisoned == a.poisoned
            && b.missing == a.missing.(live := a.missing.manifest) && b.job.None?
  {
  }

  lemma NoRecords(h: seq<Record>, start: nat)
    ensures Ordered(start, []) && Matches(h, [])
  {
  }

  lemma FirstPositive(h: seq<Record>, log: seq<Record>, n: nat)
    requires Matches(h, log) && n < |log|
    ensures log[n].lsn > 0 && Before(log[n].lsn) == log[n].lsn - 1
  {
  }

  /** Two trees at one state have the same user keys, and are one if the same tombstones are missing. */
  lemma SameState(h: seq<Record>, n: nat, t: Store, lost: set<Key>, u: Store, gone: set<Key>)
    requires At(h, n, t, lost) && At(h, n, u, gone)
    ensures UserKeys(t) == UserKeys(u) && (lost == gone ==> t == u)
  {
    UserKeysWithout(StateAt(h, n), lost);
    UserKeysWithout(StateAt(h, n), gone);
  }

  lemma AdoptServes(a: State, retired: nat)
    requires Files(a) && Counters(a) && Served(a) && Counts(a) && JobOk(a) && Locked(a)
    ensures var b := AfterAdopt(a, retired); Served(b) && Counts(b) && (!a.torn ==> View(b) == View(a))
  {
    hide Faithful, Onto, Fewer, Ordered, Matches, ExactBuffer, BufferTouched, StateAt, NoTombstones, UserKeys;
    var h, t := a.history, a.manifest.store;
    if a.writeBack.Some? {
      FreshBuffer(h);
      AtRight(h, |h|, t, {});
    } else {
      if Stalled(a) {
        AtBack(h, a.lastLsn, t, a.missing.manifest);
      } else {
        SameState(h, |h|, a.tree, a.missing.live, t, a.missing.manifest);
      }
    }
  }

  lemma AdoptOk(a: State, retired: nat)
    requires Sound(a)
    ensures var b := AfterAdopt(a, retired); Sound(b) && Kept(a) <= Kept(b) && (!a.torn ==> View(b) == View(a))
  {
    hide Files, Counters, Served, Counts, JobOk;
    if Locked(a) {
      AdoptFiles(a, retired);
      AdoptCounters(a, retired);
      AdoptServes(a, retired);
      NoJob(AfterAdopt(a, retired));
    }
    SoundFlushed(a);
  }

  lemma NoJob(a: State)
    requires a.job.None?
    ensures JobOk(a)
  {
  }

  // ----- Crash and open -----------------------------------------------------

  /** How far the log that survives reaches. */
  ghost function Survives(a: State, durable: nat): nat
    requires durable <= |a.log|
  {
    Max(a.reach, Top(a.logStart, a.log[..durable]))
  }

  lemma CrashTops(a: State, durable: nat)
    requires Files(a) && a.flushed <= durable <= |a.log|
    ensures var log := a.log[..durable];
            && Ordered(a.logStart, log) && Matches(a.history, log) && Top(a.logStart, log) <= |a.history|
            && Kept(a) <= Survives(a, durable) <= |a.history|
  {
    hide At, Faithful, Ordered, Matches;
    VisibleRecords(a, durable);
    TopWithin(a.history, a.logStart, a.log[..durable]);
    assert a.log[..durable][..a.flushed] == a.log[..a.flushed];
    OrderedTop(a.logStart, a.log[..durable], a.flushed);
  }

  lemma CrashHistory(a: State, n: nat)
    requires Files(a) && a.reach <= n <= |a.history|
    ensures Faithful(a.history[..n]) && At(a.history[..n], a.reach, a.manifest.store, a.missing.manifest)
  {
    hide At, Faithful;
    FaithfulPrefix(a.history, n);
    AtLonger(a.history[..n], a.history, a.reach, a.manifest.store, a.missing.manifest);
  }

  /** What an open finds: a run of the history's records behind the manifest's tree. */
  ghost predicate Survived(c: State) {
    && Faithful(c.history) && Ordered(c.logStart, c.log) && Matches(c.history, c.log)
    && At(c.history, c.reach, c.manifest.store, c.missing.manifest)
    && c.logStart <= c.manifest.lsn <= c.reach <= c.manifest.lsn + 1
    && c.manifest.lsn <= Top(c.logStart, c.log) <= |c.history| == Max(c.reach, Top(c.logStart, c.log))
    && (c.writeBack.Some? ==> c.reach == c.manifest.lsn && c.missing.manifest == {})
  }

  /** A crash past the manifest keeps a prefix of the log; one before it keeps the manifest alone. */
  lemma CrashLong(a: State, durable: nat)
    requires Files(a) && a.flushed <= durable <= |a.log| && Top(a.logStart, a.log[..durable]) >= a.manifest.lsn
    requires Survives(a, durable) <= |a.history|
    ensures Survived(a.(log := a.log[..durable], history := a.history[..Survives(a, durable)]))
  {
    hide At, Faithful, Ordered, Matches, Kept;
    CrashTops(a, durable);
    CrashHistory(a, Survives(a, durable));
    MatchesPrefix(a.history, a.logStart, a.log[..durable], Survives(a, durable));
  }

  lemma CrashShort(a: State, durable: nat)
    requires Files(a) && a.flushed <= durable <= |a.log| && Top(a.logStart, a.log[..durable]) < a.manifest.lsn
    requires Survives(a, durable) <= |a.history|
    ensures Survived(a.(logStart := a.manifest.lsn, log := [], history := a.history[..Survives(a, durable)]))
  {
    hide At, Faithful, Ordered, Matches, Kept;
    CrashTops(a, durable);
    CrashHistory(a, Survives(a, durable));
    NoRecords(a.history[..Survives(a, durable)], a.manifest.lsn);
  }

  lemma CrashFiles(a: State, durable: nat)
    requires Files(a) && a.flushed <= durable <= |a.log|
    ensures var c := Crashed(a, durable);
            && Kept(a) <= Survives(a, durable) <= |a.history| && c.history == a.history[..Survives(a, durable)]
            && Survived(c)
  {
    hide Files, Survived, Kept;
    CrashTops(a, durable);
    if Top(a.logStart, a.log[..durable]) < a.manifest.lsn {
      CrashShort(a, durable);
    } else {
      CrashLong(a, durable);
    }
  }

  lemma MatchesPrefix(h: seq<Record>, start: nat, log: seq<Record>, n: nat)
    requires Ordered(start, log) && Matches(h, log) && Top(start, log) <= n <= |h|
    ensures Matches(h[..n], log)
  {
    forall i | 0 <= i < |log| ensures log[i].lsn <= n {
      OrderedTop(start, log, i + 1);
      assert log[..i + 1][i] == log[i];
    }
  }

  lemma OpenReaches(c: State)
    requires Survived(c)
    ensures var done := Replayed(c.manifest.store, c.log, c.manifest.lsn);
            && done.1 == Top(c.logStart, c.log)
            && At(c.history, |c.history|, done.0, Fewer(c.missing.manifest, c.history, c.reach, done.1))
  {
    hide At, Faithful, Ordered, Matches, Fewer, RedoLog, Replayed;
    var top := Top(c.logStart, c.log);
    ReplayedIs(c.history, c.logStart, c.log, c.manifest.store, c.manifest.lsn);
    ReplayFrom(c.history, c.manifest.lsn, c.reach, c.manifest.store, c.missing.manifest, top);
  }

  lemma OpenSound(c: State)
    requires Survived(c)
    ensures Sound(Opened(c)) && Kept(Opened(c)) == |c.history|
  {
    hide At, Onto, Faithful, Ordered, Matches, Fewer, Replayed, StateAt, ExactBuffer, BufferTouched, UserKeys, Merge;
    OpenReaches(c);
    var b := Opened(c);
    assert AllRecords(b) == c.log && b.log[..b.flushed] == c.log;
    if c.writeBack.Some? {
      FewerNone(c.history, c.reach, b.lastLsn);
      FreshBuffer(c.history);
      AtRight(c.history, |c.history|, b.tree, {});
    } else if Stalled(b) {
      AtBack(c.history, b.lastLsn, b.tree, b.missing.live);
    }
  }

  lemma CrashOk(a: State, durable: nat)
    requires Sound(a)
    ensures var b := AfterCrash(a, durable);
            && Sound(b) && Kept(a) <= Kept(b)
            && (a.flushed <= durable <= |a.log| ==>
                  && Survives(a, durable) <= |a.history| && b.history == a.history[..Survives(a, durable)]
                  && Kept(a) <= |b.history|)
  {
    hide Files, Served, Counters, Counts, JobOk, Survived, Kept, Crashed;
    SoundFlushed(a);
    if a.flushed <= durable <= |a.log| {
      CrashFiles(a, durable);
      OpenSound(Crashed(a, durable));
    }
  }

  // ----- Replicated records -------------------------------------------------

  /** Only a delete that finds a user key leaves a tombstone. */
  lemma {:induction false} NoneAppear(m: Store, ops: seq<Operation>, lsn: nat)
    requires NoTombstones(m) && Addressable(ops) && !DeleteHits(m, ops, lsn)
    ensures NoTombstones(RedoAll(m, ops, lsn))
    decreases |ops|
  {
    if ops == [] {
    } else {
      var n := |ops| - 1;
      HitsHead(m, ops, lsn);
      NoneAppear(m, ops[..n], lsn);
    }
  }

  lemma HitsHead(m: Store, ops: seq<Operation>, lsn: nat)
    requires ops != [] && !DeleteHits(m, ops, lsn)
    ensures var n := |ops| - 1;
            && !DeleteHits(m, ops[..n], lsn)
            && !(ops[n].Delete? && !Reserved(ops[n].key) && ops[n].key in RedoAll(m, ops[..n], lsn))
  {
    hide RedoAll;
    var n := |ops| - 1;
    assert forall i :: 0 <= i < n ==> ops[..n][i] == ops[i] && ops[..n][..i] == ops[..i];
  }

  /** A record of the history is written once more, or for the first time since it was deleted. */
  lemma AppendAgain(a: State, rec: Record)
    requires Files(a) && Counters(a) && JobOk(a) && !Locked(a) && Stalled(a) && rec == a.history[a.lastLsn]
    requires rec.lsn == a.lastLsn + 1
    ensures var b := Appended(a, rec, Deferred);
            && Files(b) && Counters(b) && JobOk(b) && Kept(a) <= Kept(b)
            && AllTop(b) == |a.history| == a.lastLsn + 1 && b.pending == []
  {
    hide Faithful, At, Onto, Fewer, Ordered, Matches;
    FilesTop(a);
    var b := Appended(a, rec, Deferred);
    var all := AllRecords(a) + [rec];
    assert a.log + (a.pending + [rec]) == all && AllRecords(b) == all;
    OrderedSnoc(a.logStart, AllRecords(a), rec);
    MatchesSnoc(a.history, AllRecords(a), rec);
    assert b.log[..b.flushed] == a.log[..a.flushed];
    if a.job.Some? && a.job.value.Begun? {
      var at := a.job.value.begunAt;
      assert b.log[..at] == a.log[..at];
    }
  }

  lemma MatchesSnoc(h: seq<Record>, log: seq<Record>, rec: Record)
    requires Matches(h, log) && 1 <= rec.lsn <= |h| && rec == h[rec.lsn - 1]
    ensures Matches(h, log + [rec])
  {
  }

  /** What the engine holds besides files and log may change without disturbing them. */
  ghost predicate SameFiles(b: State, c: State) {
    && c.manifest == b.manifest && c.logStart == b.logStart && c.log == b.log && c.flushed == b.flushed
    && c.pending == b.pending && c.appended == b.appended && c.synced == b.synced && c.history == b.history
    && c.reach == b.reach && c.missing.manifest == b.missing.manifest && c.writeBack == b.writeBack
    && c.job == b.job && c.jobAt == b.jobAt && c.missing.job == b.missing.job && c.poisoned == b.poisoned
  }

  lemma StopsKeep(b: State, c: State)
    requires Files(b) && Counters(b) && JobOk(b) && SameFiles(b, c) && !Locked(b) && b.writeBack.None?
    requires b.pending == []
    requires b.manifest.lsn <= c.lastLsn <= b.lastLsn <= c.lastLsn + 1 && |b.history| <= c.lastLsn + 1
    requires AllTop(b) <= c.lastLsn + 1 && AllRecords(b) != [] && c.torn
    ensures Files(c) && Counters(c) && JobOk(c) && Kept(c) == Kept(b)
  {
    hide Faithful, At, Onto, Fewer, Ordered, Matches;
  }

  /** The apply of the next record, whole. */
  lemma ApplyNext(a: State, rec: Record)
    requires Sound(a) && !a.poisoned && !Locked(a) && a.writeBack.None? && !Stalled(a) && rec.lsn == a.lastLsn + 1
    requires !Foreign(a, rec)
    ensures Faithful(a.history + [rec]) && rec == Record(|a.history| + 1, rec.ops) && rec.lsn == AllTop(a) + 1
    ensures At(a.history + [rec], rec.lsn, RedoAll(a.tree, rec.ops, rec.lsn), a.missing.live - TouchedKeys(rec.ops))
    ensures Onto(a.history + [rec], a.lastLsn, a.tree, a.missing.live - TouchedKeys(rec.ops))
  {
    hide Files, Faithful, At, Onto, RedoAll, Hits, JobOk, Counts, TouchedKeys;
    FilesFaithful(a);
    NextRecord(a.history, a.tree, a.missing.live, rec.ops);
    AtLonger(a.history, a.history + [rec], |a.history|, a.tree, a.missing.live);
    AtStarts(a.history + [rec], |a.history|, a.tree, a.missing.live);
  }

  lemma FilesFaithful(a: State)
    requires Files(a)
    ensures Faithful(a.history)
  {
  }

  /** The state that logs the next shipped record. */
  ghost function WithShipped(a: State, rec: Record): State {
    a.(history := a.history + [rec], lastLsn := rec.lsn,
       missing := a.missing.(live := a.missing.live - TouchedKeys(rec.ops)))
  }

  lemma ShippedFiles(a: State, rec: Record)
    requires Sound(a) && !a.poisoned && !Locked(a) && a.writeBack.None? && !Stalled(a) && rec.lsn == a.lastLsn + 1
    requires !Foreign(a, rec)
    ensures var b := Appended(WithShipped(a, rec), rec, Deferred);
            && Files(b) && Counters(b) && JobOk(b) && Kept(a) <= Kept(b) && AllTop(b) == rec.lsn
            && AllRecords(b) != [] && b.pending == []
  {
    hide Files, Counters, JobOk, Served, Counts, Foreign, Faithful, At, Onto, RedoAll, TouchedKeys;
    ApplyNext(a, rec);
    var c := WithShipped(a, rec);
    AppendFiles(a, rec, c, Deferred);
    AppendCounters(a, rec, c, Deferred);
    NotStalled(a);
    AppendJob(a, rec, c, Deferred);
  }

  lemma ReplicateWhole(a: State, rec: Record, outcome: LogOutcome, fault: Option<Stall>)
    requires Sound(a) && !a.forked && !a.poisoned && !Locked(a) && a.writeBack.None? && !Stalled(a)
    requires rec.lsn == a.lastLsn + 1 && !Foreign(a, rec) && !outcome.Lost? && Cut(rec, outcome, fault).None?
    ensures var b := AfterReplicate(a, rec, outcome, fault); Sound(b) && Kept(a) <= Kept(b)
  {
    hide Faithful, At, Onto, RedoAll, Hits, TouchedKeys, NoTombstones, UserKeys, DeleteHits, StateAt, Cut, Files, JobOk;
    ShippedFiles(a, rec);
    ApplyNext(a, rec);
    if !a.torn && !a.possible && !DeleteHits(a.tree, rec.ops, rec.lsn) { NoneAppear(a.tree, rec.ops, rec.lsn); }
    WholeKeeps(Appended(WithShipped(a, rec), rec, Deferred), AfterReplicate(a, rec, outcome, fault));
  }

  lemma WholeKeeps(b: State, c: State)
    requires Files(b) && Counters(b) && JobOk(b) && SameFiles(b, c)
    requires c.lastLsn == b.lastLsn && c.torn == b.torn && c.missing == b.missing
    ensures Files(c) && Counters(c) && JobOk(c) && Kept(c) == Kept(b)
  {
    hide Faithful, At, Onto, Fewer, Ordered, Matches;
  }

  lemma ReplicateStops(a: State, rec: Record, outcome: LogOutcome, fault: Option<Stall>)
    requires Sound(a) && !a.forked && !a.poisoned && !Locked(a) && a.writeBack.None? && !Stalled(a)
    requires rec.lsn == a.lastLsn + 1 && !Foreign(a, rec) && !outcome.Lost? && Cut(rec, outcome, fault).Some?
    ensures var b := AfterReplicate(a, rec, outcome, fault); Sound(b) && Kept(a) <= Kept(b)
  {
    hide Faithful, At, Onto, RedoAll, Hits, TouchedKeys, Fewer, Ordered, Matches, NoTombstones, UserKeys, DeleteHits,
         StateAt, PartialRedo, NewlyLost, Files, JobOk;
    ShippedFiles(a, rec);
    ApplyNext(a, rec);
    var cut := Cut(rec, outcome, fault).value;
    OntoAgain(a.history + [rec], a.lastLsn, a.tree, a.missing.live - TouchedKeys(rec.ops), cut.at, cut.half);
    StopsKeep(Appended(WithShipped(a, rec), rec, Deferred), AfterReplicate(a, rec, outcome, fault));
  }

  lemma ReplicateAgain(a: State, rec: Record, outcome: LogOutcome, fault: Option<Stall>)
    requires Sound(a) && !a.forked && !a.poisoned && !Locked(a) && a.writeBack.None? && Stalled(a)
    requires rec.lsn == a.lastLsn + 1 && !Foreign(a, rec) && !outcome.Lost?
    ensures var b := AfterReplicate(a, rec, outcome, fault); Sound(b) && Kept(a) <= Kept(b)
  {
    hide Faithful, At, Onto, RedoAll, Hits, TouchedKeys, Fewer, Ordered, Matches, NoTombstones, UserKeys, DeleteHits,
         StateAt, PartialRedo, NewlyLost, Files, JobOk;
    AppendAgain(a, rec);
    FilesFaithful(a);
    var w, b := Appended(a, rec, Deferred), AfterReplicate(a, rec, outcome, fault);
    var cut := Cut(rec, outcome, fault);
    if cut.Some? {
      OntoAgain(a.history, a.lastLsn, a.tree, a.missing.live, cut.value.at, cut.value.half);
      AgainKeeps(w, b);
    } else {
      OntoFinishes(a.history, a.lastLsn, a.tree, a.missing.live);
      AgainKeeps(w, b);
    }
  }

  lemma AgainKeeps(b: State, c: State)
    requires Files(b) && Counters(b) && JobOk(b) && SameFiles(b, c) && !Locked(b) && b.writeBack.None?
    requires b.pending == []
    requires b.lastLsn <= c.lastLsn <= b.lastLsn + 1 == |b.history| == AllTop(b) && AllRecords(b) != [] && c.torn
    ensures Files(c) && Counters(c) && JobOk(c) && Kept(c) == Kept(b)
  {
    hide Faithful, At, Onto, Fewer, Ordered, Matches;
  }

  lemma ReplicateOk(a: State, rec: Record, outcome: LogOutcome, fault: Option<Stall>)
    requires Sound(a) && !a.forked && !Locked(a)
    ensures var b := AfterReplicate(a, rec, outcome, fault); Stands(b) && Keeps(a, b)
  {
    hide Sound, Foreign, Cut, Kept, Appended, Longer;
    SoundFlushed(a);
    if a.poisoned || a.writeBack.Some? || rec.lsn != a.lastLsn + 1 || outcome.Lost? {
      return;
    }
    var b := AfterReplicate(a, rec, outcome, fault);
    if Foreign(a, rec) {
      ForeignForks(a, rec, outcome, fault);
    } else {
      if Stalled(a) {
        ReplicateAgain(a, rec, outcome, fault);
      } else if Cut(rec, outcome, fault).None? {
        ReplicateWhole(a, rec, outcome, fault);
      } else {
        ReplicateStops(a, rec, outcome, fault);
      }
      SoundFlushed(b);
    }
  }

  lemma ForeignForks(a: State, rec: Record, outcome: LogOutcome, fault: Option<Stall>)
    requires !(a.poisoned || a.writeBack.Some? || rec.lsn != a.lastLsn + 1 || outcome.Lost?)
    ensures AfterReplicate(a, rec, outcome, fault).forked == (a.forked || Foreign(a, rec))
    ensures AfterReplicate(a, rec, outcome, fault).history == Longer(a.history, rec)
  {
    hide Foreign, Longer;
  }
}