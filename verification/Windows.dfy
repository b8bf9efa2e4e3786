/** What a bounded read of sorted rows selects: an interval of keys, minus one
    excluded prefix, cut to a limit. */
module Windows {
  import opened Results
  import opened Keys
  import opened Pages
  import opened Mutations
  import opened Stores

  predicate Selected(k: Key, lo: Option<Key>, hi: Option<Key>, excluded: Option<Key>) {
    From(k, lo) && Below(k, hi) && !(excluded.Some? && excluded.value <= k)
  }

  /** The selected rows, in order. */
  function Window(rows: seq<Entry>, lo: Option<Key>, hi: Option<Key>, excluded: Option<Key>): seq<Entry> {
    if rows == [] then []
    else
      Window(rows[..|rows| - 1], lo, hi, excluded) +
      (if Selected(rows[|rows| - 1].key, lo, hi, excluded) then [rows[|rows| - 1]] else [])
  }

  function Take<T>(s: seq<T>, limit: nat): seq<T> {
    if |s| <= limit then s else s[..limit]
  }

  lemma TakeAgain<T>(a: seq<T>, b: seq<T>, limit: nat)
    ensures Take(Take(a, limit) + b, limit) == Take(a + b, limit)
  {
  }

  lemma {:induction false} WindowConcat(a: seq<Entry>, b: seq<Entry>, lo: Option<Key>, hi: Option<Key>,
                                        excluded: Option<Key>)
    ensures Window(a + b, lo, hi, excluded) == Window(a, lo, hi, excluded) + Window(b, lo, hi, excluded)
    decreases |b|
  {
    if b == [] {
      assert a + b == a;
    } else {
      assert (a + b)[..|a + b| - 1] == a + b[..|b| - 1];
      WindowConcat(a, b[..|b| - 1], lo, hi, excluded);
    }
  }

  lemma {:induction false} WindowMember(rows: seq<Entry>, lo: Option<Key>, hi: Option<Key>, excluded: Option<Key>,
                                        e: Entry)
    ensures e in Window(rows, lo, hi, excluded) <==> e in rows && Selected(e.key, lo, hi, excluded)
    decreases |rows|
  {
    if rows == [] {
    } else {
      assert rows == rows[..|rows| - 1] + [rows[|rows| - 1]];
      WindowMember(rows[..|rows| - 1], lo, hi, excluded, e);
    }
  }

  lemma {:induction false} WindowNone(rows: seq<Entry>, lo: Option<Key>, hi: Option<Key>, excluded: Option<Key>)
    requires forall e :: e in rows ==> !Selected(e.key, lo, hi, excluded)
    ensures Window(rows, lo, hi, excluded) == []
    decreases |rows|
  {
    if rows == [] {
    } else {
      WindowNone(rows[..|rows| - 1], lo, hi, excluded);
    }
  }

  lemma {:induction false} WindowAll(rows: seq<Entry>, lo: Option<Key>, hi: Option<Key>, excluded: Option<Key>)
    requires forall e :: e in rows ==> Selected(e.key, lo, hi, excluded)
    ensures Window(rows, lo, hi, excluded) == rows
    decreases |rows|
  {
    if rows == [] {
    } else {
      WindowAll(rows[..|rows| - 1], lo, hi, excluded);
    }
  }

  lemma {:induction false} WindowSorted(rows: seq<Entry>, lo: Option<Key>, hi: Option<Key>, excluded: Option<Key>)
    requires Sorted(rows)
    ensures Sorted(Window(rows, lo, hi, excluded))
    decreases |rows|
  {
    if rows == [] {
    } else {
      var n := |rows| - 1;
      WindowSorted(rows[..n], lo, hi, excluded);
      var w := Window(rows[..n], lo, hi, excluded);
      forall i | 0 <= i < |w| ensures Less(w[i].key, rows[n].key) {
        WindowMember(rows[..n], lo, hi, excluded, w[i]);
      }
    }
  }

  // ----- The same selection, said of a store --------------------------------

  /** `rows` are the first `limit` selected entries of `m` in key order. */
  ghost predicate FirstRows(rows: seq<Entry>, limit: nat, m: Store, lo: Option<Key>, hi: Option<Key>,
                            excluded: Option<Key>) {
    && Sorted(rows) && |rows| <= limit
    && (forall e :: e in rows ==> HoldsRow(m, e) && Selected(e.key, lo, hi, excluded))
    && (forall k :: k in m && Selected(k, lo, hi, excluded) ==> HasKey(rows, k) || PastEnd(rows, limit, k))
  }

  predicate HoldsRow(m: Store, e: Entry) {
    e.key in m && m[e.key] == Stamped(e.value, e.revision)
  }

  predicate PastEnd(rows: seq<Entry>, limit: nat, k: Key) {
    |rows| == limit && (limit == 0 || Less(rows[limit - 1].key, k))
  }

  lemma WindowIsFirst(rows: seq<Entry>, limit: nat, lo: Option<Key>, hi: Option<Key>, excluded: Option<Key>)
    requires Sorted(rows)
    ensures FirstRows(Take(Window(rows, lo, hi, excluded), limit), limit, MapOf(rows), lo, hi, excluded)
  {
    var w := Window(rows, lo, hi, excluded);
    var t := Take(w, limit);
    WindowSorted(rows, lo, hi, excluded);
    MapOfRows(rows);
    forall e | e in t ensures HoldsRow(MapOf(rows), e) && Selected(e.key, lo, hi, excluded) {
      assert e in w;
      WindowMember(rows, lo, hi, excluded, e);
    }
    forall k | k in MapOf(rows) && Selected(k, lo, hi, excluded) ensures HasKey(t, k) || PastEnd(t, limit, k) {
      var e :| e in rows && e.key == k;
      WindowMember(rows, lo, hi, excluded, e);
      var i :| 0 <= i < |w| && w[i] == e;
      assert i < |t| ==> t[i] == e;
    }
  }

  /** The first rows are determined: two answers agree. */
  lemma {:induction false} FirstRowsUnique(a: seq<Entry>, b: seq<Entry>, limit: nat, m: Store,
                                           lo: Option<Key>, hi: Option<Key>, excluded: Option<Key>)
    requires FirstRows(a, limit, m, lo, hi, excluded) && FirstRows(b, limit, m, lo, hi, excluded)
    ensures a == b
  {
    forall i | 0 <= i < |a| && i < |b| ensures a[i] == b[i] { SameAt(a, b, limit, m, lo, hi, excluded, i); }
    if |a| < |b| { NoExtra(a, b, limit, m, lo, hi, excluded); }
    if |b| < |a| { NoExtra(b, a, limit, m, lo, hi, excluded); }
  }

  lemma {:induction false} SameAt(a: seq<Entry>, b: seq<Entry>, limit: nat, m: Store,
                                  lo: Option<Key>, hi: Option<Key>, excluded: Option<Key>, i: nat)
    requires FirstRows(a, limit, m, lo, hi, excluded) && FirstRows(b, limit, m, lo, hi, excluded)
    requires i < |a| && i < |b|
    ensures a[i] == b[i]
    decreases i
  {
    forall j | 0 <= j < i ensures a[j] == b[j] { SameAt(a, b, limit, m, lo, hi, excluded, j); }
    NotBefore(a, b, limit, m, lo, hi, excluded, i);
    NotBefore(b, a, limit, m, lo, hi, excluded, i);
    LessTotal(a[i].key, b[i].key);
    assert a[i] in a && b[i] in b;
  }

  lemma IndexOf(rows: seq<Entry>, k: Key) returns (j: nat)
    requires HasKey(rows, k)
    ensures j < |rows| && rows[j].key == k
  {
    var e :| e in rows && e.key == k;
    j :| 0 <= j < |rows| && rows[j] == e;
  }

  lemma NotBefore(a: seq<Entry>, b: seq<Entry>, limit: nat, m: Store,
                  lo: Option<Key>, hi: Option<Key>, excluded: Option<Key>, i: nat)
    requires FirstRows(a, limit, m, lo, hi, excluded) && FirstRows(b, limit, m, lo, hi, excluded)
    requires i < |a| && i < |b| && forall j :: 0 <= j < i ==> a[j] == b[j]
    ensures !Less(a[i].key, b[i].key)
  {
    hide Less, Selected;
    var k := a[i].key;
    assert a[i] in a;
    var j := |b| - 1;
    if HasKey(b, k) {
      j := IndexOf(b, k);
      if j < i { assert Less(a[j].key, a[i].key); }
    }
    LessIrreflexive(k);
    if Less(k, b[i].key) && i < j { LessTransitive(k, b[i].key, b[j].key); }
    if Less(k, b[j].key) && Less(b[j].key, k) { LessTransitive(k, b[j].key, k); }
  }

  lemma NoExtra(a: seq<Entry>, b: seq<Entry>, limit: nat, m: Store, lo: Option<Key>, hi: Option<Key>,
                excluded: Option<Key>)
    requires FirstRows(a, limit, m, lo, hi, excluded) && FirstRows(b, limit, m, lo, hi, excluded)
    requires forall j :: 0 <= j < |a| && j < |b| ==> a[j] == b[j]
    ensures |a| >= |b|
  {
    if |a| < |b| {
      var k := b[|a|].key;
      assert b[|a|] in b;
      var j := IndexOf(a, k);
      LessIrreflexive(k);
    }
  }

  // ----- Counting rows ------------------------------------------------------

  function KeySet(rows: seq<Entry>): set<Key> {
    set e | e in rows :: e.key
  }

  lemma {:induction false} KeySetSize(rows: seq<Entry>)
    requires Sorted(rows)
    ensures |KeySet(rows)| == |rows|
    decreases |rows|
  {
    if rows == [] {
    } else {
      var n := |rows| - 1;
      KeySetSize(rows[..n]);
      LessIrreflexive(rows[n].key);
      assert rows == rows[..n] + [rows[n]];
      assert KeySet(rows) == KeySet(rows[..n]) + {rows[n].key};
    }
  }

  lemma {:induction false} Smaller<T>(a: set<T>, b: set<T>)
    requires a <= b
    ensures |a| <= |b|
    decreases |a|
  {
    if a == {} {
    } else {
      var x :| x in a;
      Smaller(a - {x}, b - {x});
    }
  }

  /** A scan returns no more rows than the store holds. */
  lemma RowsFit(rows: seq<Entry>, limit: nat, m: Store, lo: Option<Key>, hi: Option<Key>, excluded: Option<Key>)
    requires FirstRows(rows, limit, m, lo, hi, excluded)
    ensures |rows| <= |m|
  {
    KeySetSize(rows);
    Smaller(KeySet(rows), m.Keys);
  }
}
