/** The map a tree stands for, and edits of it. */
module Stores {
  import opened Results
  import opened Keys
  import opened Pages
  import opened Mutations

  /** A stored value with the revision that wrote it. */
  datatype Stamped = Stamped(value: Value, revision: nat)

  type Store = map<Key, Stamped>

  datatype Edit = Edit(key: Key, change: Mutation)

  function Apply(m: Store, key: Key, change: Mutation): Store {
    match change
    case Put(value, revision) => m[key := Stamped(value, revision)]
    case Delete => m - {key}
  }

  /** Edits in order; a later edit of a key overrides an earlier one. */
  function ApplyEdits(m: Store, edits: seq<Edit>): Store {
    if edits == [] then m
    else Apply(ApplyEdits(m, edits[..|edits| - 1]), edits[|edits| - 1].key, edits[|edits| - 1].change)
  }

  function ApplyAll(m: Store, muts: seq<Prepared>): Store {
    if muts == [] then m
    else Apply(ApplyAll(m, muts[..|muts| - 1]), muts[|muts| - 1].key, muts[|muts| - 1].change)
  }

  /** What a store holds for `k`. */
  function Lookup(m: Store, k: Key): Option<Stamped> {
    if k in m then Some(m[k]) else None
  }

  function Outcome(change: Option<Mutation>, before: Option<Stamped>): Option<Stamped> {
    match change
    case None => before
    case Some(Put(value, revision)) => Some(Stamped(value, revision))
    case Some(Delete) => None
  }

  lemma {:induction false} ApplyAllLookup(m: Store, muts: seq<Prepared>, k: Key)
    ensures Lookup(ApplyAll(m, muts), k) == Outcome(LastFor(muts, k), Lookup(m, k))
    decreases |muts|
  {
    if muts == [] {
    } else {
      ApplyAllLookup(m, muts[..|muts| - 1], k);
    }
  }

  lemma {:induction false} ApplyEditsConcat(m: Store, a: seq<Edit>, b: seq<Edit>)
    ensures ApplyEdits(m, a + b) == ApplyEdits(ApplyEdits(m, a), b)
    decreases |b|
  {
    if b == [] {
      assert a + b == a;
    } else {
      assert (a + b)[..|a + b| - 1] == a + b[..|b| - 1];
      ApplyEditsConcat(m, a, b[..|b| - 1]);
    }
  }

  lemma SameLookups(a: Store, b: Store)
    requires forall k :: Lookup(a, k) == Lookup(b, k)
    ensures a == b
  {
    assert forall k :: k in a <==> Lookup(a, k).Some?;
    assert forall k :: k in b <==> Lookup(b, k).Some?;
    forall k | k in a ensures a[k] == b[k] {
      assert Lookup(a, k) == Lookup(b, k);
    }
  }

  // ----- Rows as a store ----------------------------------------------------

  function MapOf(rows: seq<Entry>): Store {
    if rows == [] then map[]
    else MapOf(rows[..|rows| - 1])[rows[|rows| - 1].key := Stamped(rows[|rows| - 1].value, rows[|rows| - 1].revision)]
  }

  lemma {:induction false} MapOfKeys(rows: seq<Entry>, k: Key)
    ensures k in MapOf(rows) <==> HasKey(rows, k)
    decreases |rows|
  {
    if rows == [] {
    } else {
      var n := |rows| - 1;
      assert rows == rows[..n] + [rows[n]];
      MapOfKeys(rows[..n], k);
      assert rows[n] in rows;
      assert forall e :: e in rows[..n] ==> e in rows;
    }
  }

  lemma {:induction false} MapOfEntry(rows: seq<Entry>, e: Entry)
    requires Sorted(rows) && e in rows
    ensures e.key in MapOf(rows) && MapOf(rows)[e.key] == Stamped(e.value, e.revision)
    decreases |rows|
  {
    var n := |rows| - 1;
    if e != rows[n] {
      MapOfEntry(rows[..n], e);
      LessIrreflexive(e.key);
    }
  }

  lemma {:induction false} MapOfSize(rows: seq<Entry>)
    requires Sorted(rows)
    ensures |MapOf(rows)| == |rows|
    decreases |rows|
  {
    if rows == [] {
    } else {
      var n := |rows| - 1;
      MapOfSize(rows[..n]);
      MapOfKeys(rows[..n], rows[n].key);
      LessIrreflexive(rows[n].key);
      assert MapOf(rows).Keys == MapOf(rows[..n]).Keys + {rows[n].key};
    }
  }

  /** Sorted rows and their store say the same thing about every key. */
  lemma MapOfRows(rows: seq<Entry>)
    requires Sorted(rows)
    ensures |MapOf(rows)| == |rows|
    ensures forall k :: k in MapOf(rows) <==> HasKey(rows, k)
    ensures forall e :: e in rows ==> e.key in MapOf(rows) && MapOf(rows)[e.key] == Stamped(e.value, e.revision)
  {
    MapOfSize(rows);
    forall k ensures k in MapOf(rows) <==> HasKey(rows, k) { MapOfKeys(rows, k); }
    forall e | e in rows ensures e.key in MapOf(rows) && MapOf(rows)[e.key] == Stamped(e.value, e.revision) {
      MapOfEntry(rows, e);
    }
  }

  lemma InRows(rows: seq<Entry>, e: Entry)
    requires Sorted(rows)
    ensures e in rows <==> Lookup(MapOf(rows), e.key) == Some(Stamped(e.value, e.revision))
  {
    MapOfRows(rows);
  }

  /** Applying mutations to rows is applying them to the store. */
  lemma AppliedIsApplyAll(before: seq<Entry>, muts: seq<Prepared>, after: seq<Entry>)
    requires Sorted(before) && Sorted(after) && Applied(before, muts, after)
    ensures MapOf(after) == ApplyAll(MapOf(before), muts)
  {
    var a, b := MapOf(after), ApplyAll(MapOf(before), muts);
    forall k ensures Lookup(a, k) == Lookup(b, k) {
      ApplyAllLookup(MapOf(before), muts, k);
      MapOfRows(after);
      if k in a {
        var e := Entry(k, a[k].value, a[k].revision);
        InRows(after, e);
        assert Survives(before, muts, e);
        InRows(before, e);
      }
      if k in b {
        var e := Entry(k, b[k].value, b[k].revision);
        InRows(before, e);
        assert Survives(before, muts, e);
        InRows(after, e);
      }
    }
    SameLookups(a, b);
  }

  // ----- The stable sort ----------------------------------------------------

  /** The mutations of one key, in order. */
  function Only(muts: seq<Prepared>, k: Key): seq<Prepared> {
    if muts == [] then []
    else if muts[|muts| - 1].key == k then Only(muts[..|muts| - 1], k) + [muts[|muts| - 1]]
    else Only(muts[..|muts| - 1], k)
  }

  function InsertLast(sorted: seq<Prepared>, m: Prepared): seq<Prepared> {
    if sorted == [] || AtMost(sorted[|sorted| - 1].key, m.key) then sorted + [m]
    else InsertLast(sorted[..|sorted| - 1], m) + [sorted[|sorted| - 1]]
  }

  /** Sorts by key, keeping mutations of one key in arrival order. */
  function StableSort(muts: seq<Prepared>): seq<Prepared> {
    if muts == [] then [] else InsertLast(StableSort(muts[..|muts| - 1]), muts[|muts| - 1])
  }

  lemma {:induction false} InsertLastKeeps(sorted: seq<Prepared>, m: Prepared)
    ensures multiset(InsertLast(sorted, m)) == multiset(sorted) + multiset{m}
    decreases |sorted|
  {
    if sorted != [] && !AtMost(sorted[|sorted| - 1].key, m.key) {
      var n := |sorted| - 1;
      InsertLastKeeps(sorted[..n], m);
      assert sorted == sorted[..n] + [sorted[n]];
    }
  }

  lemma {:induction false} InsertLastSorts(sorted: seq<Prepared>, m: Prepared, top: Key)
    requires KeySorted(sorted) && AtMost(m.key, top)
    requires forall i :: 0 <= i < |sorted| ==> AtMost(sorted[i].key, top)
    ensures KeySorted(InsertLast(sorted, m))
    ensures forall i :: 0 <= i < |InsertLast(sorted, m)| ==> AtMost(InsertLast(sorted, m)[i].key, top)
    decreases |sorted|
  {
    if sorted == [] {
    } else {
      var n := |sorted| - 1;
      KeyOrder();
      if !AtMost(sorted[n].key, m.key) {
        InsertLastSorts(sorted[..n], m, sorted[n].key);
      }
    }
  }

  lemma SortsAny(sorted: seq<Prepared>, m: Prepared)
    requires KeySorted(sorted)
    ensures KeySorted(InsertLast(sorted, m))
  {
    KeyOrder();
    var top := if sorted == [] || AtMost(sorted[|sorted| - 1].key, m.key) then m.key else sorted[|sorted| - 1].key;
    InsertLastSorts(sorted, m, top);
  }

  lemma {:induction false} InsertLastStable(sorted: seq<Prepared>, m: Prepared, k: Key)
    ensures Only(InsertLast(sorted, m), k) == Only(sorted + [m], k)
    decreases |sorted|
  {
    if sorted != [] && !AtMost(sorted[|sorted| - 1].key, m.key) {
      var n := |sorted| - 1;
      var r := InsertLast(sorted[..n], m);
      InsertLastStable(sorted[..n], m, k);
      LessIrreflexive(m.key);
      assert (r + [sorted[n]])[..|r|] == r;
      assert (sorted + [m])[..n + 1] == sorted;
      assert (sorted[..n] + [m])[..n] == sorted[..n];
    }
  }

  /** The sort keeps every key's mutations, in order, and nothing else changes. */
  lemma {:induction false} StableSortKeeps(muts: seq<Prepared>)
    ensures multiset(StableSort(muts)) == multiset(muts)
    decreases |muts|
  {
    if muts == [] {
    } else {
      var n := |muts| - 1;
      assert muts == muts[..n] + [muts[n]];
      StableSortKeeps(muts[..n]);
      InsertLastKeeps(StableSort(muts[..n]), muts[n]);
    }
  }

  lemma {:induction false} StableSortSorts(muts: seq<Prepared>)
    ensures KeySorted(StableSort(muts))
    decreases |muts|
  {
    if muts == [] {
    } else {
      var n := |muts| - 1;
      StableSortSorts(muts[..n]);
      SortsAny(StableSort(muts[..n]), muts[n]);
    }
  }

  lemma {:induction false} StableSortOnly(muts: seq<Prepared>, k: Key)
    ensures Only(StableSort(muts), k) == Only(muts, k)
    decreases |muts|
  {
    if muts == [] {
    } else {
      var n := |muts| - 1;
      var s := StableSort(muts[..n]);
      StableSortOnly(muts[..n], k);
      InsertLastStable(s, muts[n], k);
      assert (s + [muts[n]])[..|s|] == s;
    }
  }

  /** The sort is a sort, loses nothing, and keeps the order of equal keys. */
  lemma StableSortIs(muts: seq<Prepared>)
    ensures KeySorted(StableSort(muts))
    ensures multiset(StableSort(muts)) == multiset(muts)
    ensures forall k :: Only(StableSort(muts), k) == Only(muts, k)
  {
    StableSortSorts(muts);
    StableSortKeeps(muts);
    forall k ensures Only(StableSort(muts), k) == Only(muts, k) { StableSortOnly(muts, k); }
  }

  lemma {:induction false} InsertLastDistinct(sorted: seq<Prepared>, m: Prepared, n: nat)
    requires DistinctIndexes(sorted + [m], n)
    ensures DistinctIndexes(InsertLast(sorted, m), n)
    ensures forall x :: x in InsertLast(sorted, m) <==> x in sorted || x == m
    decreases |sorted|
  {
    if sorted != [] && !AtMost(sorted[|sorted| - 1].key, m.key) {
      var k := |sorted| - 1;
      var all, init := sorted + [m], sorted[..k];
      assert forall i :: 0 <= i < k ==> (init + [m])[i] == all[i];
      assert (init + [m])[k] == all[k + 1] && all[k] == sorted[k];
      InsertLastDistinct(init, m, n);
      var r := InsertLast(init, m);
      forall i | 0 <= i < |r| ensures r[i].index != sorted[k].index {
        assert r[i] in r;
        if r[i] in init {
          var j :| 0 <= j < |init| && init[j] == r[i];
          assert all[j] == r[i];
        }
      }
      assert sorted == init + [sorted[k]];
    }
  }

  lemma {:induction false} StableSortDistinct(muts: seq<Prepared>, n: nat)
    requires DistinctIndexes(muts, n)
    ensures DistinctIndexes(StableSort(muts), n)
    ensures forall x :: x in StableSort(muts) <==> x in muts
    decreases |muts|
  {
    if muts == [] {
    } else {
      var k := |muts| - 1;
      var s := StableSort(muts[..k]);
      StableSortDistinct(muts[..k], n);
      assert muts == muts[..k] + [muts[k]];
      var all := s + [muts[k]];
      forall i | 0 <= i < |s| ensures s[i].index != muts[k].index {
        assert s[i] in s;
        var j :| 0 <= j < k && muts[..k][j] == s[i];
        assert muts[j] == s[i];
      }
      assert DistinctIndexes(all, n);
      InsertLastDistinct(s, muts[k], n);
    }
  }

  lemma {:induction false} LastForOnly(muts: seq<Prepared>, k: Key)
    ensures LastFor(muts, k) == if Only(muts, k) == [] then None else Some(Only(muts, k)[|Only(muts, k)| - 1].change)
    decreases |muts|
  {
    if muts != [] && muts[|muts| - 1].key != k {
      LastForOnly(muts[..|muts| - 1], k);
    }
  }

  lemma SameOutcomes(m: Store, a: seq<Prepared>, b: seq<Prepared>)
    requires forall k :: LastFor(a, k) == LastFor(b, k)
    ensures ApplyAll(m, a) == ApplyAll(m, b)
  {
    forall k ensures Lookup(ApplyAll(m, a), k) == Lookup(ApplyAll(m, b), k) {
      ApplyAllLookup(m, a, k);
      ApplyAllLookup(m, b, k);
    }
    SameLookups(ApplyAll(m, a), ApplyAll(m, b));
  }

  lemma SortedLast(muts: seq<Prepared>, k: Key)
    requires Only(StableSort(muts), k) == Only(muts, k)
    ensures LastFor(StableSort(muts), k) == LastFor(muts, k)
  {
    LastForOnly(muts, k);
    LastForOnly(StableSort(muts), k);
  }

  /** Sorting a batch does not change what it does to a store. */
  lemma SortedBatch(m: Store, muts: seq<Prepared>)
    ensures ApplyAll(m, StableSort(muts)) == ApplyAll(m, muts)
  {
    StableSortIs(muts);
    forall k ensures LastFor(StableSort(muts), k) == LastFor(muts, k) { SortedLast(muts, k); }
    SameOutcomes(m, StableSort(muts), muts);
  }

  // ----- The entry count ----------------------------------------------------

  /** Adds up one delta per distinct key of a sorted batch: the run's last change
      against the key's presence before the batch. */
  method CountDelta(muts: seq<Prepared>, existed: seq<bool>, ghost m: Store) returns (delta: int)
    requires KeySorted(muts)
    requires forall i :: 0 <= i < |muts| ==> muts[i].index < |existed| && existed[muts[i].index] == (muts[i].key in m)
    ensures |ApplyAll(m, muts)| == |m| + delta
  {
    delta := 0;
    var index := 0;
    assert muts[..0] == [];
    while index < |muts|
      invariant 0 <= index <= |muts|
      invariant Counted(m, muts, index, delta)
    {
      var last := RunEnd(muts, index);
      CountRun(m, muts, index, last, delta);
      delta := delta + SizeStep(muts[last].change, existed[muts[index].index]);
      index := last + 1;
    }
    assert Counted(m, muts, |muts|, delta) && muts[..|muts|] == muts;
  }

  /** The first `index` mutations, whole runs, change the size by `delta`. */
  ghost predicate Counted(m: Store, muts: seq<Prepared>, index: nat, delta: int) {
    && index <= |muts| && Apart(muts, index)
    && |ApplyAll(m, muts[..index])| == |m| + delta
  }

  lemma CountRun(m: Store, muts: seq<Prepared>, index: nat, last: nat, delta: int)
    requires KeySorted(muts) && index <= last < |muts| && Counted(m, muts, index, delta)
    requires forall j :: index <= j <= last ==> muts[j].key == muts[index].key
    requires last + 1 < |muts| ==> muts[last + 1].key != muts[index].key
    ensures Counted(m, muts, last + 1, delta + SizeStep(muts[last].change, muts[index].key in m))
  {
    RunSize(m, muts, index, last);
    RunsApart(muts, index, last);
  }

  /** No key occurs on both sides of `index`. */
  predicate Apart(muts: seq<Prepared>, index: nat) {
    forall x, y :: 0 <= x < index <= y < |muts| ==> muts[x].key != muts[y].key
  }

  lemma RunsApart(muts: seq<Prepared>, index: nat, last: nat)
    requires KeySorted(muts) && index <= last < |muts| && Apart(muts, index)
    requires forall j :: index <= j <= last ==> muts[j].key == muts[index].key
    requires last + 1 < |muts| ==> muts[last + 1].key != muts[index].key
    ensures Apart(muts, last + 1)
  {
    KeyOrder();
    forall x, y | 0 <= x < last + 1 <= y < |muts| ensures muts[x].key != muts[y].key {
      if x >= index && y > last + 1 {
        assert AtMost(muts[last].key, muts[last + 1].key) && AtMost(muts[last + 1].key, muts[y].key);
      }
    }
  }

  /** A run of mutations of one key acts like its last member. */
  lemma RunCollapses(m: Store, muts: seq<Prepared>, index: nat, last: nat)
    requires index <= last < |muts|
    requires forall j :: index <= j <= last ==> muts[j].key == muts[index].key
    ensures ApplyAll(m, muts[..last + 1]) == Apply(ApplyAll(m, muts[..index]), muts[index].key, muts[last].change)
  {
    var head, run, short := muts[..index], muts[index..last + 1], muts[..index] + [muts[last]];
    assert muts[..last + 1] == head + run && short[..index] == head;
    assert run[|run| - 1] == muts[last];
    forall k ensures LastFor(muts[..last + 1], k) == LastFor(short, k) {
      LastForConcat(head, run, k);
      LastForNone(run, k);
      assert run[0].key == muts[index].key;
    }
    SameOutcomes(m, muts[..last + 1], short);
  }

  lemma RunSize(m: Store, muts: seq<Prepared>, index: nat, last: nat)
    requires index <= last < |muts|
    requires forall j :: index <= j <= last ==> muts[j].key == muts[index].key
    requires forall x :: 0 <= x < index ==> muts[x].key != muts[index].key
    ensures |ApplyAll(m, muts[..last + 1])| ==
            |ApplyAll(m, muts[..index])| + SizeStep(muts[last].change, muts[index].key in m)
  {
    var k, a := muts[index].key, ApplyAll(m, muts[..index]);
    RunCollapses(m, muts, index, last);
    ApplyAllLookup(m, muts[..index], k);
    LastForNone(muts[..index], k);
    assert k in a <==> k in m by { assert Lookup(a, k) == Lookup(m, k); }
    SizeOfApply(a, k, muts[last].change);
  }

  function SizeStep(change: Mutation, present: bool): int {
    if change.Put? && !present then 1 else if change.Delete? && present then -1 else 0
  }

  lemma SizeOfApply(a: Store, k: Key, change: Mutation)
    ensures |Apply(a, k, change)| == |a| + SizeStep(change, k in a)
  {
    var b := Apply(a, k, change);
    match change
    case Put(v, r) => assert b.Keys == a.Keys + {k};
    case Delete => assert b.Keys == a.Keys - {k};
  }

  // ----- From edits to prepared mutations ------------------------------------

  function Prepare(edits: seq<Edit>): seq<Prepared> {
    seq(|edits|, i requires 0 <= i < |edits| => Prepared(edits[i].key, edits[i].change, i))
  }

  lemma {:induction false} PrepareApplies(m: Store, edits: seq<Edit>)
    ensures ApplyAll(m, Prepare(edits)) == ApplyEdits(m, edits)
    decreases |edits|
  {
    if edits == [] {
    } else {
      assert Prepare(edits)[..|edits| - 1] == Prepare(edits[..|edits| - 1]);
      PrepareApplies(m, edits[..|edits| - 1]);
    }
  }
}
