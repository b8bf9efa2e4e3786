/** Snapshots over whole runs: registering, releasing, committing and collecting in any order.
    Every open revision is read exactly while no commit made without a snapshot strands a key,
    and a run of six steps shows what happens when one does. */
module SnapshotRuns {
  import opened Results
  import opened Keys
  import opened Stores
  import opened Replay
  import opened Planning
  import opened Revisions
  import opened Mvcc
  import opened SnapshotReads

  datatype SnapStep =
    | Open
    | OpenAt(revision: nat)
    | Close(revision: nat)
    | Write(ops: seq<Operation>)
    | Gc

  /** Commits a batch against the state it finds; a batch that changes nothing is not logged. */
  method Land(s: Snapshots, view: Store, ops: seq<Operation>) returns (after: Store)
    requires s.Tracked() && view == StateAt(s.log, |s.log|) && Addressable(ops)
    modifies s`histories, s`covered, s`lastLsn, s`log
    ensures s.Tracked() && after == StateAt(s.log, |s.log|) == RedoAll(view, ops, old(s.lastLsn) + 1)
    ensures s.log == old(s.log) || s.log == old(s.log) + [NextRecord(old(s.log), ops)]
    ensures Effective(view, ops, old(s.lastLsn) + 1) == [] <==> s.log == old(s.log)
    ensures s.log == old(s.log) ==> s.histories == old(s.histories) && s.covered == old(s.covered)
    ensures s.log != old(s.log) && s.open == multiset{} ==> s.histories == old(s.histories) && s.covered == s.lastLsn
    ensures s.open != multiset{} ==> s.covered == old(s.covered)
    ensures s.log != old(s.log) ==> forall k, r :: IsOldest(s.open, r) ==>
              VersionsOf(s.histories, k) ==
              Maintained(VersionsOf(old(s.histories), k), Lookup(view, k), NextRecord(old(s.log), ops).ops, r,
                s.lastLsn, k)
    ensures old(s.Valid()) ==>
              (s.Valid() <==>
                  s.log == old(s.log) || s.open != multiset{} ||
                  !Strands(old(s.log), NextRecord(old(s.log), ops), old(s.histories)))
    ensures s.log != old(s.log) && s.open == multiset{} ==>
              (s.Valid() <==> !LeavesStale(old(s.log), NextRecord(old(s.log), ops), old(s.histories)))
  {
    hide StateAt, RedoAll, Effective, AllOk, NoneStale, AllRetained, Faithful, Maintained, Strands, IsOldest,
         LeavesStale;
    var rec := Record(s.lastLsn + 1, Effective(view, ops, s.lastLsn + 1));
    NextFits(s.log, ops);
    if rec.ops == [] {
      return view;
    }
    s.Commit(rec, view);
    after := RedoAll(view, rec.ops, rec.lsn);
  }

  ghost function NextRecord(log: seq<Record>, ops: seq<Operation>): Record {
    Record(|log| + 1, Effective(StateAt(log, |log|), ops, |log| + 1))
  }

  lemma NextFits(log: seq<Record>, ops: seq<Operation>)
    requires Faithful(log) && Addressable(ops)
    ensures var rec, view, longer := NextRecord(log, ops), StateAt(log, |log|), log + [NextRecord(log, ops)];
            && Faithful(longer) && StateAt(longer, |longer|) == RedoAll(view, rec.ops, rec.lsn) ==
                 RedoAll(view, ops, |log| + 1)
            && (rec.ops == [] ==> RedoAll(view, ops, |log| + 1) == view)
  {
    hide StateAt, Faithful, Effective, Hits;
    var view := StateAt(log, |log|);
    EffectiveReplays(view, ops, |log| + 1);
    EffectiveHits(view, ops, |log| + 1);
    EffectiveAddressable(view, ops, |log| + 1);
    FaithfulExtends(log, NextRecord(log, ops));
  }

  /** A registry between two steps. */
  datatype Moment = Moment(log: seq<Record>, histories: Histories, covered: nat, open: multiset<nat>)

  ghost function Now(s: Snapshots): Moment
    reads s
  {
    Moment(s.log, s.histories, s.covered, s.open)
  }

  /** What a step makes of a registry. */
  ghost predicate Moves(m: Moment, step: SnapStep, n: Moment) {
    match step
    case Open => n == m.(open := m.open + multiset{|m.log|})
    case OpenAt(r) => n == m.(open := if m.covered <= r <= |m.log| then m.open + multiset{r} else m.open)
    case Close(r) => n == m.(open := m.open - multiset{r})
    case Write(ops) => if Logs(m, ops) then Commits(m, NextRecord(m.log, ops), n) else n == m
    case Gc => Collects(m, n)
  }

  /** The batch has an effect, so the commit is logged. */
  ghost predicate Logs(m: Moment, ops: seq<Operation>) {
    NextRecord(m.log, ops).ops != []
  }

  ghost predicate Commits(m: Moment, rec: Record, n: Moment) {
    && n.log == m.log + [rec] && n.open == m.open
    && (m.open == multiset{} ==> n.histories == m.histories && n.covered == |n.log|)
    && (m.open != multiset{} ==> n.covered == m.covered)
    && forall k, r: nat :: IsOldest(m.open, r) ==>
         VersionsOf(n.histories, k) ==
           Maintained(VersionsOf(m.histories, k), Lookup(StateAt(m.log, |m.log|), k), rec.ops, r, |n.log|, k)
  }

  ghost predicate Collects(m: Moment, n: Moment) {
    && n.log == m.log && n.open == m.open
    && (m.open == multiset{} ==> n.histories == map[] && n.covered == |m.log|)
    && forall r: nat :: IsOldest(m.open, r) ==>
         n.histories == TrimAll(m.histories, r) && n.covered == if m.covered < r then r else m.covered
  }

  /** With no snapshot open, the commit deletes a key whose newest retained version holds a value. */
  ghost predicate StrandsAt(m: Moment, step: SnapStep) {
    && step.Write? && Logs(m, step.ops) && m.open == multiset{}
    && Strands(m.log, NextRecord(m.log, step.ops), m.histories)
  }

  /** With no snapshot open, the step collects everything, or is a commit that leaves no key stale. */
  ghost predicate Restores(m: Moment, step: SnapStep) {
    && m.open == multiset{}
    && (step.Gc? || (step.Write? && Logs(m, step.ops) && !LeavesStale(m.log, NextRecord(m.log, step.ops), m.histories)))
  }

  /** Takes one step. An exact registry becomes inexact exactly by a commit that strands a key, and
      any registry becomes exact by a step that restores it. */
  method Advance(s: Snapshots, view: Store, step: SnapStep) returns (after: Store)
    requires s.Tracked() && view == StateAt(s.log, |s.log|) && (step.Write? ==> Addressable(step.ops))
    modifies s
    ensures s.Tracked() && after == StateAt(s.log, |s.log|) && old(s.log) <= s.log
    ensures Moves(old(Now(s)), step, Now(s))
    ensures old(s.Valid()) ==> (s.Valid() <==> !StrandsAt(old(Now(s)), step))
    ensures Restores(old(Now(s)), step) ==> s.Valid()
    ensures StrandsAt(old(Now(s)), step) ==> !s.Valid()
  {
    hide StateAt, RedoAll, Effective, AllOk, NoneStale, AllRetained, Faithful, Maintained, Strands, LeavesStale,
         IsOldest, TrimAll;
    after := view;
    match step {
      case Open => var r := s.Register();
      case OpenAt(revision) => var ok := s.RegisterAt(revision);
      case Close(revision) => s.Release(revision);
      case Write(ops) =>
        StrandsStale(s.log, NextRecord(s.log, ops), s.histories);
        after := Land(s, view, ops);
      case Gc => s.Collect();
    }
  }

  lemma StrandsStale(log: seq<Record>, rec: Record, h: Histories)
    ensures Strands(log, rec, h) ==> LeavesStale(log, rec, h)
  {
    if Strands(log, rec, h) {
      var k :| !Reserved(k) && Touches(rec.ops, k) && LastValue(rec.ops, k).None? && EndsInValue(VersionsOf(h, k));
      assert StaleNext(log, rec, k, VersionsOf(h, k));
    }
  }

  /** Every user key read at every open revision answers with the state at that revision. */
  ghost predicate ReadsExactly(s: Snapshots)
    reads s
  {
    forall r, k :: r in s.open && !Reserved(k) && r <= |s.log| ==> ReadsAt(s, r, k)
  }

  ghost predicate ReadsAt(s: Snapshots, r: nat, k: Key)
    requires r <= |s.log|
    reads s
  {
    s.covered <= r && Answer(VersionsOf(s.histories, k), StateAt(s.log, |s.log|), k, r) == ValueAt(s.log, r, k)
  }

  lemma OpenReads(s: Snapshots)
    requires s.Valid()
    ensures ReadsExactly(s)
  {
    forall r, k | r in s.open && !Reserved(k) ensures r <= |s.log| && ReadsAt(s, r, k) {
      Exactly(s, k, r);
    }
  }

  /** Step `i` strands a key, and no step after it restores the registry. */
  ghost predicate Stranded(trace: seq<Moment>, steps: seq<SnapStep>, i: int) {
    && 0 <= i < |steps| <= |trace| && StrandsAt(trace[i], steps[i])
    && forall j :: i < j < |steps| ==> !Restores(trace[j], steps[j])
  }

  /** Any run, with the registry before each step and at the end: open snapshots stay covered
      throughout, and every one of them reads exactly at the end, unless a commit made without a
      snapshot stranded a key and nothing since has restored the registry. */
  method Run(s: Snapshots, view: Store, steps: seq<SnapStep>) returns (after: Store, ghost trace: seq<Moment>)
    requires s.Valid() && view == StateAt(s.log, |s.log|)
    requires forall i :: 0 <= i < |steps| && steps[i].Write? ==> Addressable(steps[i].ops)
    modifies s
    ensures s.Tracked() && after == StateAt(s.log, |s.log|) && old(s.log) <= s.log
    ensures forall r :: r in s.open ==> s.covered <= r <= |s.log|
    ensures |trace| == |steps| + 1 && trace[0] == old(Now(s)) && trace[|steps|] == Now(s)
    ensures forall i :: 0 <= i < |steps| ==> Moves(trace[i], steps[i], trace[i + 1])
    ensures !s.Valid() ==> exists i :: Stranded(trace, steps, i)
    ensures s.Valid() ==> ReadsExactly(s)
  {
    hide StateAt, AllOk, NoneStale, AllRetained, Faithful, ReadsExactly, StrandsAt, Restores, Moves, Now;
    after, trace := view, [Now(s)];
    ghost var bad := -1;
    for i := 0 to |steps|
      invariant s.Tracked() && after == StateAt(s.log, |s.log|) && old(s.log) <= s.log
      invariant |trace| == i + 1 && trace[0] == old(Now(s)) && trace[i] == Now(s)
      invariant forall j :: 0 <= j < i ==> Moves(trace[j], steps[j], trace[j + 1])
      invariant s.Valid() || (0 <= bad < i && StrandsAt(trace[bad], steps[bad]) &&
                              forall j :: bad < j < i ==> !Restores(trace[j], steps[j]))
    {
      if s.Valid() { bad := i; }
      after := Advance(s, after, steps[i]);
      trace := trace + [Now(s)];
    }
    if s.Valid() { OpenReads(s); } else { assert Stranded(trace, steps, bad); }
  }

  /** The run that misreads: a put, a snapshot, a second put, the snapshot closed, a delete with
      none open, a new snapshot, a third put. The new snapshot reads the second value of a key
      that was absent when it was taken. */
  method Misread(k: Key, v1: Value, v2: Value, v3: Value) returns (s: Snapshots, answer: Option<Value>)
    requires !Reserved(k)
    ensures fresh(s) && s.Tracked() && |s.log| == 4 && s.covered == 3 && s.open == multiset{3}
    ensures answer == Answer(VersionsOf(s.histories, k), StateAt(s.log, 4), k, 3)
    ensures answer == Some(v2) && ValueAt(s.log, 3, k) == None
  {
    hide StateAt, AllRetained, Faithful, AllOk, NoneStale, Effective, RedoAll, Strands, Maintained, AtVersion, IsOldest,
         Reserved, RevisionOf, LeavesStale;
    var view;
    s, view := PutTwice(k, v1, v2);
    OneDelete(view, k, 3);
    view := Land(s, view, [Operation.Delete(k)]);
    ghost var absent := s.log;
    var revision := s.Register();
    OnePut(view, k, v3, 4);
    SoleOldest(3);
    ThreeVersions(k, v1, v2, v3);
    view := Land(s, view, [Operation.Put(k, v3)]);
    StateAtKept(absent, s.log, 3);
    answer := Answer(VersionsOf(s.histories, k), view, k, revision);
  }

  /** A put, and a snapshot of it. */
  method PutOnce(k: Key, v: Value) returns (s: Snapshots, view: Store)
    requires !Reserved(k)
    ensures fresh(s) && s.Tracked() && |s.log| == 1 && s.open == multiset{1} && view == StateAt(s.log, 1)
    ensures VersionsOf(s.histories, k) == [] && Lookup(view, k) == Some(Stamped(v, 1))
  {
    hide StateAt, AllRetained, Faithful, AllOk, NoneStale, Effective, RedoAll, Strands, Maintained, AtVersion, IsOldest,
         Reserved, RevisionOf, LeavesStale;
    s := new Snapshots();
    NoState();
    OnePut(map[], k, v, 1);
    view := Land(s, map[], [Operation.Put(k, v)]);
    var revision := s.Register();
  }

  /** Two puts with a snapshot held between them leave both versions retained. */
  method PutTwice(k: Key, v1: Value, v2: Value) returns (s: Snapshots, view: Store)
    requires !Reserved(k)
    ensures fresh(s) && s.Tracked() && |s.log| == 2 && s.open == multiset{} && view == StateAt(s.log, 2) && k in view
    ensures VersionsOf(s.histories, k) == [Version(1, Some(v1)), Version(2, Some(v2))]
  {
    hide StateAt, AllRetained, Faithful, AllOk, NoneStale, Effective, RedoAll, Strands, Maintained, AtVersion, IsOldest,
         Reserved, RevisionOf, LeavesStale;
    s, view := PutOnce(k, v1);
    OnePut(view, k, v2, 2);
    SoleOldest(1);
    TwoVersions(k, v1, v2);
    view := Land(s, view, [Operation.Put(k, v2)]);
    s.Release(1);
  }

  lemma SoleOldest(r: nat)
    ensures IsOldest(multiset{r}, r)
  {
  }

  lemma TwoVersions(k: Key, v1: Value, v2: Value)
    requires !Reserved(k)
    ensures Maintained([], Some(Stamped(v1, 1)), [Operation.Put(k, v2)], 1, 2, k) ==
            [Version(1, Some(v1)), Version(2, Some(v2))]
  {
    UserKeysVersioned(k);
    OneRedo(map[], Operation.Put(k, v2), 2);
  }

  lemma ThreeVersions(k: Key, v1: Value, v2: Value, v3: Value)
    requires !Reserved(k)
    ensures var vs := Maintained([Version(1, Some(v1)), Version(2, Some(v2))], None, [Operation.Put(k, v3)], 3, 4, k);
            vs != [] && vs[|vs| - 1].revision == 4 && AtVersion(vs, 3) == Some(v2)
  {
    var two := [Version(1, Some(v1)), Version(2, Some(v2))];
    UserKeysVersioned(k);
    OneRedo(map[], Operation.Put(k, v3), 4);
    AtVersionPush(two, Version(4, Some(v3)), 3);
  }

  lemma NoState()
    ensures StateAt([], 0) == map[]
  {
  }

  lemma OneRedo(view: Store, op: Operation, lsn: nat)
    ensures RedoAll(view, [op], lsn) == Redo(view, op, lsn) && Effective(view, [op], lsn) == Contribution(view, op)
    ensures Touches([op], op.key) && LastValue([op], op.key) == OpValue(op)
  {
    hide Redo;
    assert [op][..0] == [] && [op][0] == op;
    assert [] + Contribution(view, op) == Contribution(view, op);
  }

  lemma OnePut(view: Store, k: Key, v: Value, lsn: nat)
    requires !Reserved(k)
    ensures var ops := [Operation.Put(k, v)];
            && Addressable(ops) && Effective(view, ops, lsn) == ops && Touches(ops, k) && LastValue(ops, k) == Some(v)
            && k in RedoAll(view, ops, lsn) && RedoAll(view, ops, lsn)[k] == Stamped(v, lsn)
            && RevisionOf(RedoAll(view, ops, lsn), k) == Some(lsn)
  {
    hide RedoAll, Effective, Touches, LastValue;
    TombstoneShape(k);
    OneRedo(view, Operation.Put(k, v), lsn);
  }

  lemma OneDelete(view: Store, k: Key, lsn: nat)
    requires !Reserved(k) && k in view
    ensures var ops := [Operation.Delete(k)];
            && Addressable(ops) && Effective(view, ops, lsn) == ops && k !in RedoAll(view, ops, lsn)
  {
    hide RedoAll, Effective, Touches, LastValue;
    TombstoneShape(k);
    OneRedo(view, Operation.Delete(k), lsn);
  }
}
