/** The write-back buffer and the reads that merge it over the tree: the buffer wins
    ties, and a buffered delete masks the tree's entry. */
module Overlays {
  import opened Results
  import opened Keys
  import opened Pages
  import opened Mutations
  import opened Stores
  import opened Windows
  import opened PageTree
  import opened TreeReads

  /** The newest committed state of a key; no value is a committed delete. */
  datatype Buffered = Buffered(value: Option<Value>, revision: nat)

  type Buffer = map<Key, Buffered>

  function Overridden(b: Buffered): Option<Stamped> {
    if b.value.Some? then Some(Stamped(b.value.value, b.revision)) else None
  }

  /** The store every merged read must answer from. */
  function Merge(tree: Store, buffer: Buffer): Store {
    map k | k in tree.Keys + buffer.Keys && (k in buffer ==> buffer[k].value.Some?) ::
      if k in buffer then Stamped(buffer[k].value.value, buffer[k].revision) else tree[k]
  }

  lemma MergeLookup(tree: Store, buffer: Buffer, k: Key)
    ensures Lookup(Merge(tree, buffer), k) == if k in buffer then Overridden(buffer[k]) else Lookup(tree, k)
  {
  }

  // ----- Point reads --------------------------------------------------------

  method MergedGet(t: PageTree, buffer: Buffer, key: Key) returns (r: Result<Option<Stamped>, TreeError>)
    requires t.Valid()
    ensures t.root == 0 || t.height < MAX_TREE_DEPTH ==> r.Ok?
    ensures r.Ok? ==> r.value == Lookup(Merge(t.Contents(), buffer), key)
  {
    if key in buffer {
      return Ok(Overridden(buffer[key]));
    }
    r := Get(t, key);
  }

  /** Answers buffered keys from the buffer and the rest with one tree sweep. */
  method MergedGetMany(t: PageTree, buffer: Buffer, keys: seq<Key>) returns (r: Result<seq<Option<Stamped>>, TreeError>)
    requires t.Valid() && Ascending(keys)
    ensures t.root == 0 || t.height < MAX_TREE_DEPTH ==> r.Ok?
    ensures r.Ok? ==> |r.value| == |keys| && forall i :: 0 <= i < |keys| ==>
              r.value[i] == Lookup(Merge(t.Contents(), buffer), keys[i])
  {
    hide Merge, SlotsMatch;
    var results, misses, slots := SplitKeys(buffer, keys);
    MissesAscend(keys, buffer, misses, slots);
    var found :- GetMany(t, misses);
    SlotsFit(keys, buffer, misses, slots);
    var all := FillSlots(results, slots, found);
    forall i | 0 <= i < |keys| ensures all[i] == Lookup(Merge(t.Contents(), buffer), keys[i]) {
      Answered(keys, buffer, misses, slots, results, found, all, t.Contents(), i);
    }
    return Ok(all);
  }

  /** Answers the buffered keys and lists the others with their positions. */
  method SplitKeys(buffer: Buffer, keys: seq<Key>)
      returns (results: seq<Option<Stamped>>, misses: seq<Key>, slots: seq<nat>)
    ensures |results| == |keys| && SlotsMatch(keys, buffer, misses, slots)
    ensures forall j :: 0 <= j < |keys| && keys[j] in buffer ==> results[j] == Overridden(buffer[keys[j]])
  {
    results, misses, slots := [], [], [];
    for i := 0 to |keys|
      invariant |results| == i && SlotsMatch(keys[..i], buffer, misses, slots)
      invariant forall j :: 0 <= j < i && keys[j] in buffer ==> results[j] == Overridden(buffer[keys[j]])
    {
      assert keys[..i + 1] == keys[..i] + [keys[i]];
      if keys[i] in buffer {
        results := results + [Overridden(buffer[keys[i]])];
      } else {
        misses, slots := misses + [keys[i]], slots + [i];
        results := results + [None];
      }
    }
    assert keys[..|keys|] == keys;
  }

  method FillSlots(before: seq<Option<Stamped>>, slots: seq<nat>, found: seq<Option<Stamped>>)
      returns (results: seq<Option<Stamped>>)
    requires |found| == |slots| && (forall x :: 0 <= x < |slots| ==> slots[x] < |before|) &&
             forall x, y :: 0 <= x < y < |slots| ==> slots[x] != slots[y]
    ensures |results| == |before| && (forall x :: 0 <= x < |slots| ==> results[slots[x]] == found[x])
    ensures forall i :: 0 <= i < |before| && i !in slots ==> results[i] == before[i]
  {
    results := before;
    for s := 0 to |slots|
      invariant |results| == |before| && (forall x :: 0 <= x < s ==> results[slots[x]] == found[x])
      invariant forall i :: 0 <= i < |before| && i !in slots ==> results[i] == before[i]
    {
      assert slots[s] in slots;
      results := results[slots[s] := found[s]];
    }
  }

  lemma MissesAscend(keys: seq<Key>, buffer: Buffer, misses: seq<Key>, slots: seq<nat>)
    requires Ascending(keys) && SlotsMatch(keys, buffer, misses, slots)
    ensures Ascending(misses)
  {
  }

  lemma SlotsFit(keys: seq<Key>, buffer: Buffer, misses: seq<Key>, slots: seq<nat>)
    requires SlotsMatch(keys, buffer, misses, slots)
    ensures |misses| == |slots| && (forall x :: 0 <= x < |slots| ==> slots[x] < |keys|) &&
            forall x, y :: 0 <= x < y < |slots| ==> slots[x] != slots[y]
  {
  }

  lemma Answered(keys: seq<Key>, buffer: Buffer, misses: seq<Key>, slots: seq<nat>, before: seq<Option<Stamped>>,
                 found: seq<Option<Stamped>>,
                 all: seq<Option<Stamped>>, tree: Store, i: nat)
    requires SlotsMatch(keys, buffer, misses, slots) && i < |keys| == |all| == |before| && |found| == |misses|
    requires forall x :: 0 <= x < |slots| ==> slots[x] < |all| && all[slots[x]] == found[x]
    requires forall j :: 0 <= j < |all| && j !in slots ==> all[j] == before[j]
    requires forall j :: 0 <= j < |keys| && keys[j] in buffer ==> before[j] == Overridden(buffer[keys[j]])
    requires forall x :: 0 <= x < |misses| ==> found[x] == Lookup(tree, misses[x])
    ensures all[i] == Lookup(Merge(tree, buffer), keys[i])
  {
    hide Merge;
    MergeLookup(tree, buffer, keys[i]);
    if keys[i] !in buffer {
      var x :| 0 <= x < |slots| && slots[x] == i;
    }
  }

  /** `misses` are the unbuffered keys in order and `slots` their positions. */
  ghost predicate SlotsMatch(keys: seq<Key>, buffer: Buffer, misses: seq<Key>, slots: seq<nat>) {
    && |misses| == |slots|
    && (forall x :: 0 <= x < |slots| ==> slots[x] < |keys| && misses[x] == keys[slots[x]] && keys[slots[x]] !in buffer)
    && (forall x, y :: 0 <= x < y < |slots| ==> slots[x] < slots[y])
    && (forall j :: 0 <= j < |keys| && keys[j] !in buffer ==> j in slots)
  }

  // ----- The buffer in key order --------------------------------------------

  datatype BufferedRow = BufferedRow(key: Key, value: Option<Value>, revision: nat)

  /** `rows` are the buffer's selected entries in key order. */
  ghost predicate Lists(rows: seq<BufferedRow>, buffer: Buffer, start: Option<Key>, end: Option<Key>,
                        excluded: Option<Key>) {
    && (forall x, y :: 0 <= x < y < |rows| ==> Less(rows[x].key, rows[y].key))
    && (forall x :: 0 <= x < |rows| ==> IsBuffered(buffer, rows[x]) && Selected(rows[x].key, start, end, excluded))
    && (forall k :: k in buffer && Selected(k, start, end, excluded) ==> Listed(rows, 0, k))
  }

  predicate IsBuffered(buffer: Buffer, row: BufferedRow) {
    row.key in buffer && buffer[row.key] == Buffered(row.value, row.revision)
  }

  ghost predicate Listed(rows: seq<BufferedRow>, from: nat, k: Key) {
    exists x :: from <= x < |rows| && rows[x].key == k
  }

  method InOrder(buffer: Buffer, start: Option<Key>, end: Option<Key>, excluded: Option<Key>)
      returns (rows: seq<BufferedRow>)
    ensures Lists(rows, buffer, start, end, excluded)
  {
    var left := set k | k in buffer && Selected(k, start, end, excluded);
    rows := [];
    while left != {}
      invariant forall x, y :: 0 <= x < y < |rows| ==> Less(rows[x].key, rows[y].key)
      invariant forall x :: 0 <= x < |rows| ==>
                  IsBuffered(buffer, rows[x]) && Selected(rows[x].key, start, end, excluded)
      invariant forall k :: k in left ==> k in buffer && Selected(k, start, end, excluded)
      invariant forall x, k :: 0 <= x < |rows| && k in left ==> Less(rows[x].key, k)
      invariant forall k :: k in buffer && Selected(k, start, end, excluded) ==> k in left || Listed(rows, 0, k)
      decreases |left|
    {
      var k := Smallest(left);
      ghost var before := rows;
      rows := rows + [BufferedRow(k, buffer[k].value, buffer[k].revision)];
      left := left - {k};
      assert rows[|before|].key == k;
      forall q | q in buffer && Selected(q, start, end, excluded) ensures q in left || Listed(rows, 0, q) {
        if Listed(before, 0, q) {
          var x :| 0 <= x < |before| && before[x].key == q;
          assert rows[x].key == q;
        }
      }
    }
  }

  method Smallest(keys: set<Key>) returns (k: Key)
    requires keys != {}
    ensures k in keys && forall q :: q in keys && q != k ==> Less(k, q)
  {
    k :| k in keys;
    var rest := keys - {k};
    while rest != {}
      invariant k in keys && k !in rest && rest <= keys
      invariant forall q :: q in keys && q !in rest && q != k ==> Less(k, q)
      decreases |rest|
    {
      var q :| q in rest;
      rest := rest - {q};
      ghost var was := k;
      if Less(q, k) { k := q; }
      LessTotal(q, was);
      forall x | x in keys && x !in rest && x != k ensures Less(k, x) {
        if k == q && x != was { LessTransitive(q, was, x); }
      }
    }
  }

  // ----- The merged scan ----------------------------------------------------

  /** How many of the first `i` buffered rows are deletes. */
  function Deletes(rows: seq<BufferedRow>, i: nat): nat
    requires i <= |rows|
  {
    if i == 0 then 0 else Deletes(rows, i - 1) + (if rows[i - 1].value.None? then 1 else 0)
  }

  method CountDeletes(rows: seq<BufferedRow>) returns (deletes: nat)
    ensures deletes == Deletes(rows, |rows|)
  {
    deletes := 0;
    for i := 0 to |rows|
      invariant deletes == Deletes(rows, i)
    {
      if rows[i].value.None? { deletes := deletes + 1; }
    }
  }

  lemma {:induction false} DeletesGrow(rows: seq<BufferedRow>, i: nat, j: nat)
    requires i <= j <= |rows|
    ensures Deletes(rows, i) <= Deletes(rows, j)
    decreases j
  {
    if i < j { DeletesGrow(rows, i, j - 1); }
  }

  /** A merged key that is still to come: buffered past `i`, or a tree row past `j`. */
  ghost predicate Ahead(k: Key, b: seq<BufferedRow>, i: nat, t: seq<Entry>, j: nat, asked: nat, buffer: Buffer) {
    if k in buffer then Listed(b, i, k)
    else TreeAhead(t, j, k) || PastEnd(t, asked, k)
  }

  ghost predicate TreeAhead(t: seq<Entry>, from: nat, k: Key) {
    exists y :: from <= y < |t| && t[y].key == k
  }

  /** The two sources a merge reads: the buffer's rows in order, and the first `asked`
      rows of the tree. */
  ghost predicate Sources(b: seq<BufferedRow>, buffer: Buffer, t: seq<Entry>, asked: nat, tree: Store,
                          start: Option<Key>, end: Option<Key>, excluded: Option<Key>) {
    Lists(b, buffer, start, end, excluded) && FirstRows(t, asked, tree, start, end, excluded)
  }

  /** The order half of the merge invariant: what was emitted lies before what is to
      come, and the two cursors are aligned. */
  ghost predicate Aligned(rows: seq<Entry>, b: seq<BufferedRow>, i: nat, t: seq<Entry>, j: nat) {
    && i <= |b| && j <= |t| && Sorted(rows)
    && (forall e, x :: e in rows && i <= x < |b| ==> Less(e.key, b[x].key))
    && (forall e, y :: e in rows && j <= y < |t| ==> Less(e.key, t[y].key))
    && (forall x, y :: 0 <= x < i && j <= y < |t| ==> Less(b[x].key, t[y].key))
  }

  /** The contents half: emitted rows are merged rows, every merged row is emitted or
      ahead, and each tree row passed is paid for by an emitted row or a delete. */
  ghost predicate Emitted(rows: seq<Entry>, b: seq<BufferedRow>, i: nat, t: seq<Entry>, j: nat, asked: nat,
                          tree: Store, buffer: Buffer, start: Option<Key>, end: Option<Key>, excluded: Option<Key>) {
    && i <= |b| && j <= |t|
    && (forall e :: e in rows ==> HoldsRow(Merge(tree, buffer), e) && Selected(e.key, start, end, excluded))
    && (forall k :: k in Merge(tree, buffer) && Selected(k, start, end, excluded) ==>
           HasKey(rows, k) || Ahead(k, b, i, t, j, asked, buffer))
    && j <= |rows| + Deletes(b, i)
  }

  /** When the tree may hold more rows than it was asked for, nothing past the last of
      those it gave has been emitted. */
  ghost predicate Within(rows: seq<Entry>, t: seq<Entry>, asked: nat) {
    |t| == asked && asked > 0 ==> forall e :: e in rows ==> AtMost(e.key, t[asked - 1].key)
  }

  function BufferedEntry(row: BufferedRow): seq<Entry> {
    if row.value.Some? then [Entry(row.key, row.value.value, row.revision)] else []
  }

  lemma MergeEmpty(tree: Store)
    ensures Merge(tree, map[]) == tree
  {
  }

  lemma NoRows(m: Store, start: Option<Key>, end: Option<Key>, excluded: Option<Key>)
    ensures FirstRows([], 0, m, start, end, excluded)
  {
  }

  /** First `limit` rows of the buffer laid over the tree. Asking the tree for `limit`
      plus the number of buffered deletes always suffices, because each delete masks
      at most one tree row. */
  method MergedScan(t: PageTree, buffer: Buffer, start: Option<Key>, end: Option<Key>, limit: nat,
                    excluded: Option<Key>)
    returns (r: Result<seq<Entry>, TreeError>)
    requires t.Valid()
    ensures t.root == 0 || t.height < MAX_TREE_DEPTH ==> r.Ok?
    ensures r.Ok? ==> FirstRows(r.value, limit, Merge(t.Contents(), buffer), start, end, excluded)
  {
    hide FirstRows, Lists, Merge, Deletes;
    if buffer == map[] {
      MergeEmpty(t.Contents());
      r := Scan(t, start, end, limit, excluded);
      return;
    }
    if limit == 0 {
      NoRows(Merge(t.Contents(), buffer), start, end, excluded);
      return Ok([]);
    }
    var buffered := InOrder(buffer, start, end, excluded);
    var deletes := CountDeletes(buffered);
    var fromTree :- Scan(t, start, end, limit + deletes, excluded);
    var rows := MergeRows(buffered, fromTree, limit, t.Contents(), buffer, start, end, excluded);
    return Ok(rows);
  }

  method MergeRows(b: seq<BufferedRow>, t: seq<Entry>, limit: nat, ghost tree: Store, ghost buffer: Buffer,
                   ghost start: Option<Key>, ghost end: Option<Key>, ghost excluded: Option<Key>)
    returns (rows: seq<Entry>)
    requires Sources(b, buffer, t, limit + Deletes(b, |b|), tree, start, end, excluded)
    ensures FirstRows(rows, limit, Merge(tree, buffer), start, end, excluded)
  {
    hide Merging, Sources, FirstRows, Less, Deletes;
    rows := [];
    var i: nat, j: nat := 0, 0;
    ghost var asked := limit + Deletes(b, |b|);
    MergeBegins(b, buffer, t, asked, tree, start, end, excluded);
    while |rows| < limit && (i < |b| || j < |t|)
      invariant |rows| <= limit && i <= |b| && j <= |t|
      invariant Merging(rows, b, i, t, j, asked, tree, buffer, start, end, excluded)
      decreases |b| - i + |t| - j
    {
      if i < |b| && (j == |t| || AtMost(b[i].key, t[j].key)) {
        var j' := if j < |t| && t[j].key == b[i].key then j + 1 else j;
        StepBuffered(rows, b, i, t, j, j', asked, tree, buffer, start, end, excluded);
        rows, i, j := rows + BufferedEntry(b[i]), i + 1, j';
      } else {
        StepTree(rows, b, i, t, j, asked, tree, buffer, start, end, excluded);
        rows, j := rows + [t[j]], j + 1;
      }
    }
    MergeEnds(rows, b, i, t, j, limit, tree, buffer, start, end, excluded);
  }

  ghost predicate Merging(rows: seq<Entry>, b: seq<BufferedRow>, i: nat, t: seq<Entry>, j: nat, asked: nat,
                          tree: Store, buffer: Buffer, start: Option<Key>, end: Option<Key>, excluded: Option<Key>) {
    && Aligned(rows, b, i, t, j) && Within(rows, t, asked)
    && Emitted(rows, b, i, t, j, asked, tree, buffer, start, end, excluded)
  }

  lemma {:induction false} StepBuffered(rows: seq<Entry>, b: seq<BufferedRow>, i: nat, t: seq<Entry>, j: nat, j': nat,
                                        asked: nat,
                                        tree: Store, buffer: Buffer, start: Option<Key>, end: Option<Key>,
                                          excluded: Option<Key>)
    requires Sources(b, buffer, t, asked, tree, start, end, excluded) && i < |b|
    requires |rows| + Deletes(b, |b|) < asked
    requires Merging(rows, b, i, t, j, asked, tree, buffer, start, end, excluded)
    requires j < |t| ==> AtMost(b[i].key, t[j].key)
    requires j' == if j < |t| && t[j].key == b[i].key then j + 1 else j
    ensures Merging(rows + BufferedEntry(b[i]), b, i + 1, t, j', asked, tree, buffer, start, end, excluded)
  {
    DeletesGrow(b, i, |b|);
    OnlyKey(b[i]);
    TakeWithin(rows, BufferedEntry(b[i]), b[i].key, t, j, asked);
    TakeBufferedAligned(rows, b, i, t, j, j');
    TakeBuffered(rows, b, i, t, j, j', asked, tree, buffer, start, end, excluded);
  }

  lemma OnlyKey(row: BufferedRow)
    ensures forall e :: e in BufferedEntry(row) ==> e.key == row.key
  {
  }

  lemma {:induction false} StepTree(rows: seq<Entry>, b: seq<BufferedRow>, i: nat, t: seq<Entry>, j: nat, asked: nat,
                                    tree: Store, buffer: Buffer, start: Option<Key>, end: Option<Key>,
                                      excluded: Option<Key>)
    requires Sources(b, buffer, t, asked, tree, start, end, excluded)
    requires j < |t| && (i < |b| ==> Less(t[j].key, b[i].key))
    requires Merging(rows, b, i, t, j, asked, tree, buffer, start, end, excluded)
    ensures Merging(rows + [t[j]], b, i, t, j + 1, asked, tree, buffer, start, end, excluded)
  {
    LessIrreflexive(t[j].key);
    TakeWithin(rows, [t[j]], t[j].key, t, j, asked);
    TakeTreeAligned(rows, b, i, t, j);
    TakeTree(rows, b, i, t, j, asked, tree, buffer, start, end, excluded);
  }

  lemma {:induction false} MergeBegins(b: seq<BufferedRow>, buffer: Buffer, t: seq<Entry>, asked: nat, tree: Store,
                    start: Option<Key>, end: Option<Key>, excluded: Option<Key>)
    requires Sources(b, buffer, t, asked, tree, start, end, excluded)
    ensures Merging([], b, 0, t, 0, asked, tree, buffer, start, end, excluded)
  {
    forall k | k in Merge(tree, buffer) && Selected(k, start, end, excluded)
      ensures Ahead(k, b, 0, t, 0, asked, buffer)
    {
      if k !in buffer && HasKey(t, k) {
        var y := IndexOf(t, k);
      }
    }
  }

  lemma {:induction false} TakeBufferedAligned(rows: seq<Entry>, b: seq<BufferedRow>, i: nat, t: seq<Entry>, j: nat,
                                               j': nat)
    requires Aligned(rows, b, i, t, j) && i < |b| && Sorted(t)
    requires forall x, y :: 0 <= x < y < |b| ==> Less(b[x].key, b[y].key)
    requires j < |t| ==> AtMost(b[i].key, t[j].key)
    requires j' == if j < |t| && t[j].key == b[i].key then j + 1 else j
    ensures Aligned(rows + BufferedEntry(b[i]), b, i + 1, t, j')
  {
    KeyOrder();
    var next := rows + BufferedEntry(b[i]);
    assert forall e :: e in next ==> e in rows || e.key == b[i].key;
    assert forall y :: j' <= y < |t| ==> Less(b[i].key, t[y].key);
  }

  lemma {:induction false} TakeTreeAligned(rows: seq<Entry>, b: seq<BufferedRow>, i: nat, t: seq<Entry>, j: nat)
    requires Aligned(rows, b, i, t, j) && j < |t| && Sorted(t)
    requires forall x, y :: 0 <= x < y < |b| ==> Less(b[x].key, b[y].key)
    requires i < |b| ==> Less(t[j].key, b[i].key)
    ensures Aligned(rows + [t[j]], b, i, t, j + 1)
  {
    KeyOrder();
    var next := rows + [t[j]];
    assert forall e :: e in next ==> e in rows || e == t[j];
    assert forall x :: i <= x < |b| ==> Less(t[j].key, b[x].key);
  }

  lemma {:induction false} TakeWithin(rows: seq<Entry>, more: seq<Entry>, k: Key, t: seq<Entry>, j: nat, asked: nat)
    requires Within(rows, t, asked) && Sorted(t) && (forall e :: e in more ==> e.key == k)
    requires j < |t| ==> AtMost(k, t[j].key)
    requires |t| == asked ==> j < |t|
    ensures Within(rows + more, t, asked)
  {
    KeyOrder();
  }

  lemma {:induction false} TakeBuffered(rows: seq<Entry>, b: seq<BufferedRow>, i: nat, t: seq<Entry>, j: nat, j': nat,
                                        asked: nat,
                                        tree: Store, buffer: Buffer, start: Option<Key>, end: Option<Key>,
                                          excluded: Option<Key>)
    requires Sources(b, buffer, t, asked, tree, start, end, excluded)
    requires i < |b| && Emitted(rows, b, i, t, j, asked, tree, buffer, start, end, excluded)
    requires j' == if j < |t| && t[j].key == b[i].key then j + 1 else j
    ensures Emitted(rows + BufferedEntry(b[i]), b, i + 1, t, j', asked, tree, buffer, start, end, excluded)
  {
    var next, m := rows + BufferedEntry(b[i]), Merge(tree, buffer);
    BufferedIsMerged(rows, b[i], tree, buffer, start, end, excluded);
    forall k | k in m && Selected(k, start, end, excluded)
      ensures HasKey(next, k) || Ahead(k, b, i + 1, t, j', asked, buffer)
    {
      KeyMoves(k, rows, b, i, t, j, j', asked, tree, buffer);
    }
  }

  lemma {:induction false} KeyMoves(k: Key, rows: seq<Entry>, b: seq<BufferedRow>, i: nat, t: seq<Entry>, j: nat,
                                    j': nat, asked: nat,
                                    tree: Store, buffer: Buffer)
    requires i < |b| && IsBuffered(buffer, b[i]) && j <= |t| && k in Merge(tree, buffer)
    requires HasKey(rows, k) || Ahead(k, b, i, t, j, asked, buffer)
    requires j' == if j < |t| && t[j].key == b[i].key then j + 1 else j
    ensures HasKey(rows + BufferedEntry(b[i]), k) || Ahead(k, b, i + 1, t, j', asked, buffer)
  {
    if HasKey(rows, k) {
      HasKeyMore(rows, BufferedEntry(b[i]), k);
    } else {
      StillAhead(k, b, i, t, j, j', asked, tree, buffer);
      if k == b[i].key {
        assert Entry(b[i].key, b[i].value.value, b[i].revision) in rows + BufferedEntry(b[i]);
      }
    }
  }

  lemma {:induction false} BufferedIsMerged(rows: seq<Entry>, row: BufferedRow, tree: Store, buffer: Buffer,
                                            start: Option<Key>, end: Option<Key>, excluded: Option<Key>)
    requires IsBuffered(buffer, row) && Selected(row.key, start, end, excluded)
    requires forall e :: e in rows ==> HoldsRow(Merge(tree, buffer), e) && Selected(e.key, start, end, excluded)
    ensures forall e :: e in rows + BufferedEntry(row) ==>
              HoldsRow(Merge(tree, buffer), e) && Selected(e.key, start, end, excluded)
  {
    MergeLookup(tree, buffer, row.key);
  }

  lemma {:induction false} StillAhead(k: Key, b: seq<BufferedRow>, i: nat, t: seq<Entry>, j: nat, j': nat, asked: nat,
                                      tree: Store, buffer: Buffer)
    requires i < |b| && IsBuffered(buffer, b[i]) && j <= |t| && Ahead(k, b, i, t, j, asked, buffer)
    requires k in Merge(tree, buffer)
    requires j' == if j < |t| && t[j].key == b[i].key then j + 1 else j
    ensures k == b[i].key ==> b[i].value.Some?
    ensures k != b[i].key ==> Ahead(k, b, i + 1, t, j', asked, buffer)
  {
    if k != b[i].key {
      if k in buffer {
        var x :| i <= x < |b| && b[x].key == k;
        assert x != i;
      } else if TreeAhead(t, j, k) {
        var y :| j <= y < |t| && t[y].key == k;
        assert t[j].key == b[i].key ==> y != j;
      }
    }
  }

  lemma {:induction false} HasKeyMore(rows: seq<Entry>, more: seq<Entry>, k: Key)
    requires HasKey(rows, k)
    ensures HasKey(rows + more, k)
  {
    var e :| e in rows && e.key == k;
    assert e in rows + more;
  }

  lemma {:induction false} TakeTree(rows: seq<Entry>, b: seq<BufferedRow>, i: nat, t: seq<Entry>, j: nat, asked: nat,
                                    tree: Store, buffer: Buffer,
                 start: Option<Key>, end: Option<Key>, excluded: Option<Key>)
    requires Sources(b, buffer, t, asked, tree, start, end, excluded) && Aligned(rows, b, i, t, j)
    requires j < |t| && (i < |b| ==> Less(t[j].key, b[i].key))
    requires Emitted(rows, b, i, t, j, asked, tree, buffer, start, end, excluded)
    ensures Emitted(rows + [t[j]], b, i, t, j + 1, asked, tree, buffer, start, end, excluded)
  {
    var next, m := rows + [t[j]], Merge(tree, buffer);
    assert t[j] in t;
    NotBuffered(b, i, buffer, t[j].key, start, end, excluded);
    MergeLookup(tree, buffer, t[j].key);
    assert HoldsRow(m, t[j]);
    hide Merge, Less, Lists;
    forall k | k in m && Selected(k, start, end, excluded)
      ensures HasKey(next, k) || Ahead(k, b, i, t, j + 1, asked, buffer)
    {
      AheadOf(rows, b, i, t, j, asked, buffer, k);
    }
  }

  lemma {:induction false} AheadOf(rows: seq<Entry>, b: seq<BufferedRow>, i: nat, t: seq<Entry>, j: nat, asked: nat,
                                   buffer: Buffer, k: Key)
    requires j < |t| && (HasKey(rows, k) || Ahead(k, b, i, t, j, asked, buffer))
    ensures HasKey(rows + [t[j]], k) || Ahead(k, b, i, t, j + 1, asked, buffer)
  {
    if HasKey(rows, k) {
      HasKeyMore(rows, [t[j]], k);
    } else if k == t[j].key {
      assert t[j] in rows + [t[j]];
    } else if k !in buffer && TreeAhead(t, j, k) {
      var y :| j <= y < |t| && t[y].key == k;
      assert y != j;
    }
  }

  lemma {:induction false} NotBuffered(b: seq<BufferedRow>, i: nat, buffer: Buffer, k: Key, start: Option<Key>,
                                       end: Option<Key>, excluded: Option<Key>)
    requires Lists(b, buffer, start, end, excluded) && i <= |b| && Selected(k, start, end, excluded)
    requires forall x :: 0 <= x < i ==> Less(b[x].key, k)
    requires i < |b| ==> Less(k, b[i].key)
    ensures k !in buffer
  {
    KeyOrder();
    assert forall x :: 0 <= x < |b| ==> b[x].key != k;
  }

  lemma {:induction false} MergeEnds(rows: seq<Entry>, b: seq<BufferedRow>, i: nat, t: seq<Entry>, j: nat, limit: nat,
                                     tree: Store, buffer: Buffer,
                  start: Option<Key>, end: Option<Key>, excluded: Option<Key>)
    requires |rows| == limit || (|rows| < limit && i == |b| && j == |t|)
    requires Merging(rows, b, i, t, j, limit + Deletes(b, |b|), tree, buffer, start, end, excluded)
    ensures FirstRows(rows, limit, Merge(tree, buffer), start, end, excluded)
  {
    DeletesGrow(b, i, |b|);
    forall k | k in Merge(tree, buffer) && Selected(k, start, end, excluded) && !HasKey(rows, k)
      ensures PastEnd(rows, limit, k)
    {
      var asked := limit + Deletes(b, |b|);
      assert Ahead(k, b, i, t, j, asked, buffer);
      if |rows| == limit && limit > 0 {
        var last := rows[limit - 1];
        assert last in rows;
        if k in buffer {
          var x :| i <= x < |b| && b[x].key == k;
        } else if TreeAhead(t, j, k) {
          var y :| j <= y < |t| && t[y].key == k;
        } else {
          LessTotal(last.key, t[asked - 1].key);
          if last.key != t[asked - 1].key { LessTransitive(last.key, t[asked - 1].key, k); }
        }
      }
    }
  }

  // ----- The merged last key ------------------------------------------------

  predicate Masked(buffer: Buffer, k: Key) {
    k in buffer && buffer[k].value.None?
  }

  /** The greatest buffered key in range that holds a value. */
  method LastBuffered(buffer: Buffer, start: Key, end: Option<Key>) returns (r: Option<Key>)
    ensures r.Some? ==> r.value in buffer && !Masked(buffer, r.value) && AtMost(start, r.value) && Below(r.value, end)
    ensures forall k :: k in buffer && !Masked(buffer, k) && AtMost(start, k) && Below(k, end) ==>
              r.Some? && AtMost(k, r.value)
  {
    var rows := InOrder(buffer, Some(start), end, None);
    var x := |rows|;
    while x > 0 && rows[x - 1].value.None?
      invariant 0 <= x <= |rows|
      invariant forall y :: x <= y < |rows| ==> rows[y].value.None?
    {
      x := x - 1;
    }
    r := if x == 0 then None else Some(rows[x - 1].key);
    forall k | k in buffer && !Masked(buffer, k) && AtMost(start, k) && Below(k, end)
      ensures r.Some? && AtMost(k, r.value)
    {
      assert Selected(k, Some(start), end, None) && Listed(rows, 0, k);
      var y :| 0 <= y < |rows| && rows[y].key == k;
      assert y < x;
      LessIrreflexive(k);
      if y < x - 1 { AboveIsAtMost(k, rows[x - 1].key); }
    }
  }

  /** Tree keys at or past the bound are all masked by buffered deletes. */
  ghost predicate SteppedTo(tree: Store, buffer: Buffer, start: Key, end: Option<Key>, bound: Option<Key>) {
    && (forall k :: Below(k, bound) ==> Below(k, end))
    && (forall k :: k in tree && AtMost(start, k) && Below(k, end) && !Below(k, bound) ==> Masked(buffer, k))
  }

  ghost function KeysBelow(tree: Store, bound: Option<Key>): set<Key> {
    set k | k in tree && Below(k, bound)
  }

  lemma StepDown(tree: Store, buffer: Buffer, start: Key, end: Option<Key>, bound: Option<Key>, key: Key)
    requires SteppedTo(tree, buffer, start, end, bound) && Greatest(tree, start, bound, Some(key))
    requires Masked(buffer, key)
    ensures SteppedTo(tree, buffer, start, end, Some(key))
    ensures |KeysBelow(tree, Some(key))| < |KeysBelow(tree, bound)|
  {
    KeyOrder();
    var less, more := KeysBelow(tree, Some(key)), KeysBelow(tree, bound);
    assert less <= more - {key} && key in more;
    Smaller(less, more - {key});
  }

  /** Terminates with the greatest unmasked key: each step down excludes one masked
      tree key. */
  method MergedLastKeyIn(t: PageTree, buffer: Buffer, start: Key, end: Option<Key>)
      returns (r: Result<Option<Key>, TreeError>)
    requires t.Valid()
    ensures t.root == 0 || t.height < MAX_TREE_DEPTH ==> r.Ok?
    ensures r.Ok? ==> Greatest(Merge(t.Contents(), buffer), start, end, r.value)
  {
    var buffered := LastBuffered(buffer, start, end);
    var bound := end;
    var fromTree :- LastKeyIn(t, start, bound);
    while fromTree.Some? && Masked(buffer, fromTree.value)
      invariant SteppedTo(t.Contents(), buffer, start, end, bound) && Greatest(t.Contents(), start, bound, fromTree)
      decreases |KeysBelow(t.Contents(), bound)|
    {
      StepDown(t.Contents(), buffer, start, end, bound, fromTree.value);
      bound := fromTree;
      fromTree :- LastKeyIn(t, start, bound);
    }
    r := Ok(if buffered.None? then fromTree
            else if fromTree.None? then buffered
            else if Less(buffered.value, fromTree.value) then fromTree else buffered);
    GreatestMerged(t.Contents(), buffer, start, end, bound, buffered, fromTree, r.value);
  }

  lemma GreatestMerged(tree: Store, buffer: Buffer, start: Key, end: Option<Key>, bound: Option<Key>,
                       buffered: Option<Key>, fromTree: Option<Key>, r: Option<Key>)
    requires SteppedTo(tree, buffer, start, end, bound) && Greatest(tree, start, bound, fromTree)
    requires fromTree.Some? ==> !Masked(buffer, fromTree.value)
    requires buffered.Some? ==>
               buffered.value in buffer && !Masked(buffer, buffered.value) && AtMost(start, buffered.value) &&
               Below(buffered.value, end)
    requires forall k :: k in buffer && !Masked(buffer, k) && AtMost(start, k) && Below(k, end) ==>
               buffered.Some? && AtMost(k, buffered.value)
    requires r == if buffered.None? then fromTree else if fromTree.None? then buffered
                  else if Less(buffered.value, fromTree.value) then fromTree else buffered
    ensures Greatest(Merge(tree, buffer), start, end, r)
  {
    KeyOrder();
    var m := Merge(tree, buffer);
    forall k | k in m && AtMost(start, k) && Below(k, end) ensures r.Some? && AtMost(k, r.value) {
      MergeLookup(tree, buffer, k);
      assert k in buffer || (k in tree && Below(k, bound));
    }
  }
}
