/** States of a log that are right but for some missing tombstones, and states between two records:
    what replaying the log makes of them. */
module Lineage {
  import opened Keys
  import opened Stores
  import opened Replay
  import opened Planning
  import opened Replicas

  /** The state after `n` records, without the tombstones of `lost`; the last record put none of them. */
  ghost predicate At(h: seq<Record>, n: nat, t: Store, lost: set<Key>) {
    && n <= |h| && t == Without(StateAt(h, n), lost) && Apt(StateAt(h, n), lost)
    && (n > 0 ==> forall k :: k in lost ==> !Puts(h[n - 1].ops, k))
  }

  /** Somewhere between the states after `n` and after `n + 1` records. */
  ghost predicate Onto(h: seq<Record>, n: nat, t: Store, lost: set<Key>) {
    n < |h| && Toward(StateAt(h, n), h[n].ops, n + 1, t, lost)
  }

  /** Replaying a record brings back the tombstones of every key it addresses. */
  function Fewer(lost: set<Key>, h: seq<Record>, from: nat, end: nat): set<Key>
    decreases end
  {
    if from < end <= |h| then Fewer(lost, h, from, end - 1) - TouchedKeys(h[end - 1].ops) else lost
  }

  lemma RecordFits(h: seq<Record>, n: nat)
    requires Faithful(h) && n < |h|
    ensures Fits(StateAt(h, n), h[n].ops, n + 1) && h[n].lsn == n + 1
    ensures StateAt(h, n + 1) == RedoAll(StateAt(h, n), h[n].ops, n + 1)
  {
    assert FaithfulAt(h, n);
    StateOrderly(h, n);
    StateAtNext(h, n);
  }

  lemma AtStarts(h: seq<Record>, n: nat, t: Store, lost: set<Key>)
    requires Faithful(h) && n < |h| && At(h, n, t, lost)
    ensures Onto(h, n, t, lost - TouchedKeys(h[n].ops))
  {
    hide Faithful, StateAt, Toward, Fits;
    RecordFits(h, n);
    TowardStarts(StateAt(h, n), h[n].ops, n + 1, lost);
  }

  lemma OntoFinishes(h: seq<Record>, n: nat, t: Store, lost: set<Key>)
    requires Faithful(h) && Onto(h, n, t, lost)
    ensures At(h, n + 1, RedoAll(t, h[n].ops, n + 1), lost)
  {
    hide Faithful, StateAt, Toward, Fits, RedoAll;
    RecordFits(h, n);
    TowardFinishes(StateAt(h, n), h[n].ops, n + 1, t, lost);
  }

  lemma AtBack(h: seq<Record>, n: nat, t: Store, lost: set<Key>)
    requires Faithful(h) && n < |h| && At(h, n + 1, t, lost)
    ensures Onto(h, n, t, lost)
  {
    hide Faithful, StateAt, Toward, Fits, RedoAll;
    RecordFits(h, n);
    TowardBack(StateAt(h, n), h[n].ops, n + 1, lost);
  }

  lemma OntoAgain(h: seq<Record>, n: nat, t: Store, lost: set<Key>, at: nat, half: bool)
    requires Faithful(h) && Onto(h, n, t, lost) && at < |h[n].ops|
    ensures Onto(h, n, PartialRedo(t, h[n].ops, n + 1, at, half), lost + NewlyLost(t, h[n].ops, at, half))
  {
    hide Faithful, StateAt, Toward, Fits, RedoAll, PartialRedo;
    RecordFits(h, n);
    TowardAgain(StateAt(h, n), h[n].ops, n + 1, t, lost, at, half);
  }

  /** The state is right exactly when nothing is missing. */
  lemma AtRight(h: seq<Record>, n: nat, t: Store, lost: set<Key>)
    requires At(h, n, t, lost)
    ensures t == StateAt(h, n) <==> lost == {}
  {
    WithoutNothing(StateAt(h, n), lost);
  }

  lemma Exactly(h: seq<Record>, n: nat)
    requires n <= |h|
    ensures At(h, n, StateAt(h, n), {})
  {
    assert Without(StateAt(h, n), {}) == StateAt(h, n);
  }

  // ----- Longer and shorter logs --------------------------------------------

  lemma AtLonger(h: seq<Record>, longer: seq<Record>, n: nat, t: Store, lost: set<Key>)
    requires h <= longer && n <= |h|
    ensures At(longer, n, t, lost) <==> At(h, n, t, lost)
  {
    hide StateAt, Apt, Without;
    StateAtKept(h, longer, n);
  }

  lemma OntoLonger(h: seq<Record>, longer: seq<Record>, n: nat, t: Store, lost: set<Key>)
    requires h <= longer && n < |h|
    ensures Onto(longer, n, t, lost) <==> Onto(h, n, t, lost)
  {
    hide StateAt, Toward;
    StateAtKept(h, longer, n);
  }

  // ----- Replay -------------------------------------------------------------

  lemma ReplaySnoc(t: Store, h: seq<Record>, from: nat, end: nat)
    requires from < end <= |h|
    ensures RedoLog(t, h[from..end]) == RedoAll(RedoLog(t, h[from..end - 1]), h[end - 1].ops, h[end - 1].lsn)
  {
    assert h[from..end][..end - from - 1] == h[from..end - 1];
  }

  lemma {:induction false} ReplayAt(h: seq<Record>, n: nat, t: Store, lost: set<Key>, end: nat)
    requires Faithful(h) && At(h, n, t, lost) && n <= end <= |h|
    ensures At(h, end, RedoLog(t, h[n..end]), Fewer(lost, h, n, end))
    decreases end
  {
    hide Faithful, StateAt, At, Onto, RedoAll, RedoLog;
    if n == end {
      assert h[n..end] == [];
      Nothing(t);
    } else {
      ReplayAt(h, n, t, lost, end - 1);
      ReplaySnoc(t, h, n, end);
      RecordFits(h, end - 1);
      AtStarts(h, end - 1, RedoLog(t, h[n..end - 1]), Fewer(lost, h, n, end - 1));
      OntoFinishes(h, end - 1, RedoLog(t, h[n..end - 1]), Fewer(lost, h, n, end));
    }
  }

  lemma Nothing(t: Store)
    ensures RedoLog(t, []) == t
  {
  }

  /** Replay from between two records redoes the first of them and goes on from there. */
  lemma ReplayOnto(h: seq<Record>, n: nat, t: Store, lost: set<Key>, end: nat)
    requires Faithful(h) && Onto(h, n, t, lost) && n < end <= |h|
    ensures At(h, end, RedoLog(t, h[n..end]), Fewer(lost, h, n + 1, end))
  {
    hide Faithful, StateAt, At, Onto, RedoAll, RedoLog;
    RecordFits(h, n);
    OntoFinishes(h, n, t, lost);
    var next := RedoAll(t, h[n].ops, n + 1);
    ReplayAt(h, n + 1, next, lost, end);
    assert h[n..n + 1] == [h[n]] && h[n..end] == [h[n]] + h[n + 1..end];
    RedoLogConcat(t, [h[n]], h[n + 1..end]);
    One(t, h[n]);
  }

  lemma One(t: Store, r: Record)
    ensures RedoLog(t, [r]) == RedoAll(t, r.ops, r.lsn)
  {
    hide RedoAll;
    assert [r][..0] == [];
  }

  lemma FewerNone(h: seq<Record>, from: nat, end: nat)
    ensures Fewer({}, h, from, end) == {}
    decreases end
  {
  }

  /** Missing tombstones are no user keys. */
  lemma UserKeysWithout(m: Store, lost: set<Key>)
    ensures UserKeys(Without(m, lost)) == UserKeys(m)
  {
    forall k | k in lost ensures Reserved(TombstoneKey(k)) { TombstoneShape(k); }
  }
}
