/** The copy a checkpoint compacts a tree into: every row of one scan is put into a fresh tree. */
module Compaction {
  import opened Results
  import opened Keys
  import opened Pages
  import opened Mutations
  import opened Stores
  import opened Windows
  import opened PageTree
  import opened TreeReads
  import opened PutPath

  /** A scan limited to as many rows as a store has returns the whole store. */
  lemma WholeScan(rows: seq<Entry>, m: Store)
    requires FirstRows(rows, |m|, m, None, None, None)
    ensures MapOf(rows) == m
  {
    MapOfRows(rows);
    var copy := MapOf(rows);
    forall k | k in copy ensures k in m && copy[k] == m[k] {
      var e :| e in rows && e.key == k;
      assert HoldsRow(m, e);
    }
    if |rows| == |m| {
      SameKeys(copy.Keys, m.Keys);
    } else {
      assert forall k :: k in m ==> Selected(k, None, None, None) && HasKey(rows, k);
    }
    assert copy.Keys == m.Keys;
  }

  lemma SameKeys(a: set<Key>, b: set<Key>)
    requires a <= b && |a| == |b|
    ensures a == b
  {
    assert b == a + (b - a) && |b| == |a| + |b - a|;
  }

  /** Puts rows into a fresh tree, one by one; `io` says which of the writes reach the file. */
  method PutAll(rows: seq<Entry>, io: nat -> bool) returns (r: Result<PageTree, TreeError>)
    ensures r.Ok? ==> fresh(r.value) && r.value.Valid() && r.value.Contents() == MapOf(rows)
    ensures r.Ok? ==> forall i: nat :: i < |rows| ==> io(i)
  {
    hide Holds, StoreAt;
    var copy := new PageTree();
    NoRows();
    for i := 0 to |rows|
      invariant fresh(copy) && copy.Valid() && copy.Contents() == MapOf(rows[..i])
      invariant forall j: nat :: j < i ==> io(j)
    {
      var put, h := PreparePut(copy, rows[i].key, rows[i].value, rows[i].revision, io(i));
      if put.Err? {
        return Err(put.error);
      }
      copy.Publish(put.value.0, put.value.1, h);
      assert rows[..i + 1][..i] == rows[..i];
    }
    assert rows[..|rows|] == rows;
    r := Ok(copy);
  }

  /** Copies a tree into a fresh one with nothing but live pages. The copy holds the same entries,
      values and revisions, and the tree it was taken from is not touched. */
  method CompactTo(t: PageTree, io: nat -> bool) returns (r: Result<PageTree, TreeError>)
    requires t.Valid()
    ensures r.Ok? ==>
              fresh(r.value) && r.value.Valid() && r.value.Contents() == t.Contents() && r.value.len == t.len
    ensures r.Ok? ==> forall i: nat :: i < t.len ==> io(i)
  {
    hide Holds, StoreAt, FirstRows, MapOf;
    ghost var m := t.Contents();
    Counted(t.pages, t.root, t.len, t.height);
    var rows :- Scan(t, None, None, t.len, None);
    WholeScan(rows, m);
    RowCount(rows, m);
    var copy :- PutAll(rows, io);
    Counted(copy.pages, copy.root, copy.len, copy.height);
    r := Ok(copy);
  }

  lemma Counted(pages: seq<Page>, root: nat, len: nat, h: nat)
    requires Holds(pages, root, len, h)
    ensures len == |StoreAt(pages, root, h)|
  {
  }

  lemma RowCount(rows: seq<Entry>, m: Store)
    requires MapOf(rows) == m && FirstRows(rows, |m|, m, None, None, None)
    ensures |rows| == |m|
  {
    MapOfRows(rows);
  }

  lemma NoRows()
    ensures MapOf([]) == map[]
  {
  }
}
