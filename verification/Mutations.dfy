/** Batched mutations: what a list of them means, and how one leaf absorbs them. */
module Mutations {
  import opened Results
  import opened Keys
  import opened Pages

  datatype Mutation = Put(value: Value, revision: nat) | Delete

  /** A mutation of one key; `index` is its position in the caller's list. */
  datatype Prepared = Prepared(key: Key, change: Mutation, index: nat)

  /** The change that decides `k`: the last one aimed at it. */
  function LastFor(muts: seq<Prepared>, k: Key): Option<Mutation> {
    if muts == [] then None
    else if muts[|muts| - 1].key == k then Some(muts[|muts| - 1].change)
    else LastFor(muts[..|muts| - 1], k)
  }

  /** Whether `e` is a row after `muts` were applied, in order, to `rows`. */
  predicate Survives(rows: seq<Entry>, muts: seq<Prepared>, e: Entry) {
    match LastFor(muts, e.key)
    case None => e in rows
    case Some(Put(value, revision)) => e.value == value && e.revision == revision
    case Some(Delete) => false
  }

  /** `after` holds exactly what applying `muts` to `before` leaves. */
  ghost predicate Applied(before: seq<Entry>, muts: seq<Prepared>, after: seq<Entry>) {
    forall e :: e in after <==> Survives(before, muts, e)
  }

  ghost predicate HasKey(rows: seq<Entry>, k: Key) {
    exists e :: e in rows && e.key == k
  }

  predicate KeySorted(muts: seq<Prepared>) {
    forall i, j :: 0 <= i < j < |muts| ==> AtMost(muts[i].key, muts[j].key)
  }

  predicate DistinctIndexes(muts: seq<Prepared>, n: nat) {
    && (forall i :: 0 <= i < |muts| ==> muts[i].index < n)
    && (forall i, j :: 0 <= i < j < |muts| ==> muts[i].index != muts[j].index)
  }

  ghost predicate Mentions(muts: seq<Prepared>, index: nat) {
    exists i :: 0 <= i < |muts| && muts[i].index == index
  }

  /** `existed` records, for every mutation, whether its key was present before,
      and is left alone everywhere else. */
  ghost predicate Recorded(rows: seq<Entry>, muts: seq<Prepared>, before: seq<bool>, existed: seq<bool>) {
    && |existed| == |before|
    && (forall i :: 0 <= i < |muts| ==>
           muts[i].index < |existed| && existed[muts[i].index] == HasKey(rows, muts[i].key))
    && (forall x :: 0 <= x < |existed| && !Mentions(muts, x) ==> existed[x] == before[x])
  }

  lemma {:induction false} LastForConcat(a: seq<Prepared>, b: seq<Prepared>, k: Key)
    ensures LastFor(a + b, k) == if LastFor(b, k).Some? then LastFor(b, k) else LastFor(a, k)
    decreases |b|
  {
    if b == [] {
      assert a + b == a;
    } else {
      assert (a + b)[..|a + b| - 1] == a + b[..|b| - 1];
      LastForConcat(a, b[..|b| - 1], k);
    }
  }

  lemma {:induction false} LastForNone(muts: seq<Prepared>, k: Key)
    ensures LastFor(muts, k).None? <==> forall i :: 0 <= i < |muts| ==> muts[i].key != k
    decreases |muts|
  {
    if muts == [] {
    } else {
      LastForNone(muts[..|muts| - 1], k);
      assert forall i :: 0 <= i < |muts| - 1 ==> muts[..|muts| - 1][i] == muts[i];
    }
  }

  /** One step of the merge: every entry below `key` is carried over, an entry at
      `key` is replaced by the outcome of the run of mutations at `key`. */
  ghost predicate MergedThrough(entries: seq<Entry>, i: nat, muts: seq<Prepared>, index: nat, merged: seq<Entry>) {
    && i <= |entries| && index <= |muts|
    && Sorted(merged)
    && Applied(entries[..i], muts[..index], merged)
    && (forall e, j :: e in merged && i <= j < |entries| ==> Less(e.key, entries[j].key))
    && (forall e, j :: e in merged && index <= j < |muts| ==> Less(e.key, muts[j].key))
    && (forall x, j :: 0 <= x < index && i <= j < |entries| ==> Less(muts[x].key, entries[j].key))
    && (forall x, j :: 0 <= x < i && index <= j < |muts| ==> Less(entries[x].key, muts[j].key))
    && (forall x, j :: 0 <= x < index && index <= j < |muts| ==> Less(muts[x].key, muts[j].key))
  }

  lemma CarryStep(entries: seq<Entry>, i: nat, muts: seq<Prepared>, index: nat, merged: seq<Entry>)
    requires Sorted(entries) && KeySorted(muts)
    requires MergedThrough(entries, i, muts, index, merged)
    requires i < |entries| && index < |muts| && Less(entries[i].key, muts[index].key)
    ensures MergedThrough(entries, i + 1, muts, index, merged + [entries[i]])
  {
    KeyOrder();
    var e0, next := entries[i], merged + [entries[i]];
    LastForNone(muts[..index], e0.key);
    assert entries[..i + 1] == entries[..i] + [e0];
    forall e ensures e in next <==> Survives(entries[..i + 1], muts[..index], e) {
      assert e in merged <==> Survives(entries[..i], muts[..index], e);
    }
    assert Sorted(next) by {
      forall x, y | 0 <= x < y < |next| ensures Less(next[x].key, next[y].key) {
        assert x < |merged| ==> next[x] in merged;
      }
    }
    assert forall e :: e in next <==> e in merged || e == e0;
  }

  /** The rows produced by the run of equal-key mutations ending at `last`. */
  function RunRows(muts: seq<Prepared>, last: nat): seq<Entry>
    requires last < |muts|
  {
    match muts[last].change
    case Put(value, revision) => [Entry(muts[last].key, value, revision)]
    case Delete => []
  }

  lemma RunStep(entries: seq<Entry>, i: nat, muts: seq<Prepared>, index: nat, last: nat, merged: seq<Entry>, i': nat)
    requires Sorted(entries) && KeySorted(muts)
    requires MergedThrough(entries, i, muts, index, merged)
    requires index <= last < |muts|
    requires forall j :: index <= j <= last ==> muts[j].key == muts[index].key
    requires last + 1 < |muts| ==> muts[last + 1].key != muts[index].key
    requires i < |entries| ==> AtMost(muts[index].key, entries[i].key)
    requires i' == if i < |entries| && entries[i].key == muts[index].key then i + 1 else i
    ensures MergedThrough(entries, i', muts, last + 1, merged + RunRows(muts, last))
  {
    KeyOrder();
    var k := muts[index].key;
    var next := merged + RunRows(muts, last);
    RunApplied(entries, i, muts, index, last, merged, i');
    assert forall j :: last + 1 <= j < |muts| ==> Less(k, muts[j].key);
    assert forall j :: i' <= j < |entries| ==> Less(k, entries[j].key);
    assert forall e :: e in next ==> e in merged || e.key == k;
    assert Sorted(next) by {
      forall x, y | 0 <= x < y < |next| ensures Less(next[x].key, next[y].key) {
        assert x < |merged| ==> next[x] in merged;
      }
    }
    assert forall x :: 0 <= x <= last ==> x < index || muts[x].key == k;
  }

  lemma RunApplied(entries: seq<Entry>, i: nat, muts: seq<Prepared>, index: nat, last: nat, merged: seq<Entry>, i': nat)
    requires i <= |entries| && index <= last < |muts|
    requires Applied(entries[..i], muts[..index], merged)
    requires forall e :: e in merged ==> Less(e.key, muts[index].key)
    requires forall x :: 0 <= x < i ==> Less(entries[x].key, muts[index].key)
    requires forall j :: index <= j <= last ==> muts[j].key == muts[index].key
    requires i' == if i < |entries| && entries[i].key == muts[index].key then i + 1 else i
    ensures Applied(entries[..i'], muts[..last + 1], merged + RunRows(muts, last))
  {
    KeyOrder();
    var k, next := muts[index].key, merged + RunRows(muts, last);
    var run := muts[index..last + 1];
    assert muts[..last + 1] == muts[..index] + run;
    forall e ensures e in next <==> Survives(entries[..i'], muts[..last + 1], e) {
      LastForConcat(muts[..index], run, e.key);
      LastForNone(run, e.key);
      if e.key == k {
        assert muts[..last + 1][last] == muts[last] && muts[last].key == k;
        assert LastFor(muts[..last + 1], k) == Some(muts[last].change);
      } else {
        assert run[0].key == k;
        assert e in merged <==> Survives(entries[..i], muts[..index], e);
        assert e in entries[..i'] <==> e in entries[..i];
      }
    }
  }

  lemma FinishStep(entries: seq<Entry>, i: nat, muts: seq<Prepared>, merged: seq<Entry>)
    requires Sorted(entries)
    requires MergedThrough(entries, i, muts, |muts|, merged)
    ensures Sorted(merged + entries[i..])
    ensures Applied(entries, muts, merged + entries[i..])
  {
    KeyOrder();
    var rest, all := entries[i..], merged + entries[i..];
    assert muts[..|muts|] == muts && entries == entries[..i] + rest;
    forall e ensures e in all <==> Survives(entries, muts, e) {
      LastForNone(muts, e.key);
      assert e in merged <==> Survives(entries[..i], muts, e);
      if e in rest {
        var j :| 0 <= j < |rest| && rest[j] == e;
        assert entries[i + j] == e;
      }
    }
    forall x, y | 0 <= x < y < |all| ensures Less(all[x].key, all[y].key) {
      if x < |merged| <= y {
        assert all[x] in merged && all[y] == entries[i + (y - |merged|)];
      }
    }
  }

  lemma PresentAt(entries: seq<Entry>, i: nat, k: Key)
    requires Sorted(entries) && i <= |entries|
    requires forall x :: 0 <= x < i ==> Less(entries[x].key, k)
    requires i < |entries| ==> AtMost(k, entries[i].key)
    ensures HasKey(entries, k) <==> i < |entries| && entries[i].key == k
  {
    KeyOrder();
    if HasKey(entries, k) {
      var e :| e in entries && e.key == k;
      var j :| 0 <= j < |entries| && entries[j] == e;
    }
  }

  /** Merges sorted mutations into a leaf's sorted entries in one pass; a run of
      mutations of one key collapses to its last member. */
  method MergeEntries(entries: seq<Entry>, muts: seq<Prepared>, before: seq<bool>)
    returns (merged: seq<Entry>, existed: seq<bool>)
    requires Sorted(entries) && KeySorted(muts) && DistinctIndexes(muts, |before|)
    ensures Sorted(merged)
    ensures Applied(entries, muts, merged)
    ensures Recorded(entries, muts, before, existed)
  {
    merged, existed := [], before;
    var i: nat, index: nat := 0, 0;
    while index < |muts|
      invariant MergedThrough(entries, i, muts, index, merged)
      invariant Recorded(entries, muts[..index], before, existed)
    {
      merged, i, index, existed := MergeRun(entries, i, muts, index, merged, before, existed);
    }
    assert muts[..index] == muts;
    FinishStep(entries, i, muts, merged);
    merged := merged + entries[i..];
  }

  /** Merges the next run of equal keys, after the entries that sort before it. */
  method MergeRun(entries: seq<Entry>, from: nat, muts: seq<Prepared>, start: nat, prefix: seq<Entry>,
                  ghost before: seq<bool>, recorded: seq<bool>)
    returns (merged: seq<Entry>, i: nat, index: nat, existed: seq<bool>)
    requires Sorted(entries) && KeySorted(muts) && DistinctIndexes(muts, |recorded|) && start < |muts|
    requires MergedThrough(entries, from, muts, start, prefix)
    requires Recorded(entries, muts[..start], before, recorded)
    ensures index > start && MergedThrough(entries, i, muts, index, merged)
    ensures Recorded(entries, muts[..index], before, existed)
  {
    hide Recorded, DistinctIndexes;
    merged, i := CarryBelow(entries, from, muts, start, prefix);
    PresentAt(entries, i, muts[start].key);
    var present := i < |entries| && entries[i].key == muts[start].key;
    var last := RunEnd(muts, start);
    existed := RecordRun(entries, muts, start, last, before, recorded, present);
    var i' := if present then i + 1 else i;
    RunStep(entries, i, muts, start, last, merged, i');
    merged, i, index := merged + RunRows(muts, last), i', last + 1;
  }

  /** Carries over every entry that sorts before the next mutation. */
  method CarryBelow(entries: seq<Entry>, from: nat, muts: seq<Prepared>, index: nat, prefix: seq<Entry>)
    returns (merged: seq<Entry>, i: nat)
    requires Sorted(entries) && KeySorted(muts) && index < |muts|
    requires MergedThrough(entries, from, muts, index, prefix)
    ensures MergedThrough(entries, i, muts, index, merged)
    ensures i < |entries| ==> AtMost(muts[index].key, entries[i].key)
  {
    merged, i := prefix, from;
    while i < |entries| && Less(entries[i].key, muts[index].key)
      invariant MergedThrough(entries, i, muts, index, merged)
    {
      CarryStep(entries, i, muts, index, merged);
      merged, i := merged + [entries[i]], i + 1;
    }
  }

  /** The last member of the run of equal keys starting at `index`. */
  method RunEnd(muts: seq<Prepared>, index: nat) returns (last: nat)
    requires index < |muts|
    ensures index <= last < |muts|
    ensures forall j :: index <= j <= last ==> muts[j].key == muts[index].key
    ensures last + 1 < |muts| ==> muts[last + 1].key != muts[index].key
  {
    last := index;
    while last + 1 < |muts| && muts[last + 1].key == muts[index].key
      invariant index <= last < |muts|
      invariant forall j :: index <= j <= last ==> muts[j].key == muts[index].key
    {
      last := last + 1;
    }
  }

  method RecordRun(ghost entries: seq<Entry>, muts: seq<Prepared>, from: nat, last: nat,
                   ghost before: seq<bool>, existed: seq<bool>, present: bool) returns (r: seq<bool>)
    requires from <= last < |muts| && DistinctIndexes(muts, |existed|)
    requires forall j :: from <= j <= last ==> present == HasKey(entries, muts[j].key)
    requires Recorded(entries, muts[..from], before, existed)
    ensures Recorded(entries, muts[..last + 1], before, r)
  {
    r := existed;
    for j := from to last + 1
      invariant Recorded(entries, muts[..j], before, r)
    {
      var next := r[muts[j].index := present];
      RecordOne(entries, muts, j, before, r, next, present);
      r := next;
    }
  }

  lemma RecordOne(entries: seq<Entry>, muts: seq<Prepared>, j: nat, before: seq<bool>, r: seq<bool>, next: seq<bool>,
                  present: bool)
    requires j < |muts| && DistinctIndexes(muts, |r|)
    requires Recorded(entries, muts[..j], before, r)
    requires next == r[muts[j].index := present] && present == HasKey(entries, muts[j].key)
    ensures Recorded(entries, muts[..j + 1], before, next)
  {
    var now, prior := muts[..j + 1], muts[..j];
    assert forall x :: 0 <= x < j ==> now[x] == prior[x];
    forall x | 0 <= x < |next| && !Mentions(now, x) ensures next[x] == before[x] {
      assert now[j].index != x && !Mentions(prior, x);
    }
  }

  /** Rows stay inside bounds that hold both the old rows and the mutated keys. */
  lemma AppliedBounds(before: seq<Entry>, muts: seq<Prepared>, after: seq<Entry>, lo: Key, hi: Option<Key>)
    requires Applied(before, muts, after)
    requires AllFrom(before, lo) && AllBelow(before, hi)
    requires forall i :: 0 <= i < |muts| ==> AtMost(lo, muts[i].key) && Below(muts[i].key, hi)
    ensures AllFrom(after, lo) && AllBelow(after, hi)
  {
    forall e | e in after ensures AtMost(lo, e.key) && Below(e.key, hi) {
      assert Survives(before, muts, e);
      LastForNone(muts, e.key);
    }
  }

  // ----- Adjacent key ranges compose ---------------------------------------

  lemma AppliedJoin(a: seq<Entry>, ma: seq<Prepared>, a': seq<Entry>,
                    b: seq<Entry>, mb: seq<Prepared>, b': seq<Entry>, mid: Key)
    requires Applied(a, ma, a') && Applied(b, mb, b')
    requires AllBelow(a, Some(mid)) && AllFrom(b, mid)
    requires forall i :: 0 <= i < |ma| ==> Less(ma[i].key, mid)
    requires forall i :: 0 <= i < |mb| ==> AtMost(mid, mb[i].key)
    ensures Applied(a + b, ma + mb, a' + b')
  {
    forall e ensures e in a' + b' <==> Survives(a + b, ma + mb, e) {
      LastForConcat(ma, mb, e.key);
      LastForNone(ma, e.key);
      LastForNone(mb, e.key);
      assert e in a' <==> Survives(a, ma, e);
      assert e in b' <==> Survives(b, mb, e);
    }
  }

  lemma HasKeyIn(part: seq<Entry>, all: seq<Entry>, k: Key)
    requires forall e :: e in part ==> e in all
    requires forall e :: e in all && e !in part ==> e.key != k
    ensures HasKey(part, k) <==> HasKey(all, k)
  {
  }

  lemma RecordedJoin(all: seq<Entry>, part: seq<Entry>, ma: seq<Prepared>, mb: seq<Prepared>,
                     b0: seq<bool>, b1: seq<bool>, b2: seq<bool>)
    requires Recorded(all, ma, b0, b1) && Recorded(part, mb, b1, b2)
    requires DistinctIndexes(ma + mb, |b0|)
    requires forall i :: 0 <= i < |mb| ==> (HasKey(part, mb[i].key) <==> HasKey(all, mb[i].key))
    ensures Recorded(all, ma + mb, b0, b2)
  {
    var m := ma + mb;
    forall i | 0 <= i < |m| ensures m[i].index < |b2| && b2[m[i].index] == HasKey(all, m[i].key) {
      if i < |ma| {
        assert m[i] == ma[i];
        forall j | 0 <= j < |mb| ensures mb[j].index != m[i].index {
          assert m[|ma| + j] == mb[j];
        }
        assert !Mentions(mb, m[i].index);
      } else {
        assert m[i] == mb[i - |ma|];
      }
    }
    forall x | 0 <= x < |b2| && !Mentions(m, x) ensures b2[x] == b0[x] {
      forall i | 0 <= i < |ma| ensures ma[i].index != x { assert m[i] == ma[i]; }
      forall i | 0 <= i < |mb| ensures mb[i].index != x { assert m[|ma| + i] == mb[i]; }
      assert !Mentions(ma, x) && !Mentions(mb, x);
    }
  }
}
