/** The single-key write of redo and replica apply: one root-to-leaf path is rewritten, and
    its splits always fit one unsplit root page. */
module PutPath {
  import opened Results
  import opened Keys
  import opened Pages
  import opened Packing
  import opened Mutations
  import opened Stores
  import opened PageTree
  import opened TreeReads

  /** The entry as a batch of one. */
  function Single(e: Entry): seq<Prepared> {
    [Prepared(e.key, Put(e.value, e.revision), 0)]
  }

  lemma SingleFor(e: Entry, k: Key)
    ensures LastFor(Single(e), k) == if k == e.key then Some(Put(e.value, e.revision)) else None
  {
    assert Single(e)[..0] == [];
  }

  /** Replaces the entry of its key, or inserts it where it sorts. */
  method InsertEntry(entries: seq<Entry>, e: Entry) returns (merged: seq<Entry>, existed: bool)
    requires Sorted(entries)
    ensures Sorted(merged) && merged != [] && Applied(entries, Single(e), merged)
    ensures existed == HasKey(entries, e.key)
    ensures LeafCosts(merged) <= LeafCosts(entries) + LeafCost(e)
  {
    var at := LeafLowerBound(entries, e.key);
    PresentAt(entries, at, e.key);
    existed := at < |entries| && entries[at].key == e.key;
    var rest := if existed then at + 1 else at;
    merged := entries[..at] + [e] + entries[rest..];
    InsertedRows(entries, e, at, rest);
    InsertedCost(entries, e, at, rest);
  }

  lemma InsertedRows(entries: seq<Entry>, e: Entry, at: nat, rest: nat)
    requires Sorted(entries) && at <= rest <= |entries| && rest <= at + 1
    requires forall i :: 0 <= i < at ==> Less(entries[i].key, e.key)
    requires forall i :: at <= i < |entries| ==> AtMost(e.key, entries[i].key)
    requires rest == at + 1 <==> at < |entries| && entries[at].key == e.key
    ensures var merged := entries[..at] + [e] + entries[rest..];
            Sorted(merged) && Applied(entries, Single(e), merged)
  {
    KeyOrder();
    var merged := entries[..at] + [e] + entries[rest..];
    forall i | rest <= i < |entries| ensures Less(e.key, entries[i].key) {
      if rest == at + 1 { assert Less(entries[at].key, entries[i].key); }
    }
    forall x ensures x in merged <==> Survives(entries, Single(e), x) {
      SingleFor(e, x.key);
      MergedMember(entries, e, at, rest, x);
    }
  }

  lemma MergedMember(entries: seq<Entry>, e: Entry, at: nat, rest: nat, x: Entry)
    requires at <= rest <= |entries| && rest <= at + 1
    requires forall i :: 0 <= i < at ==> entries[i].key != e.key
    requires forall i :: rest <= i < |entries| ==> entries[i].key != e.key
    requires rest == at + 1 ==> entries[at].key == e.key
    ensures x in entries[..at] + [e] + entries[rest..] <==> x == e || (x in entries && x.key != e.key)
  {
    if x in entries && x.key != e.key {
      var i :| 0 <= i < |entries| && entries[i] == x;
      if i < at { assert entries[..at][i] == x; } else { assert entries[rest..][i - rest] == x; }
    }
  }

  lemma InsertedCost(entries: seq<Entry>, e: Entry, at: nat, rest: nat)
    requires at <= rest <= |entries|
    ensures LeafCosts(entries[..at] + [e] + entries[rest..]) <= LeafCosts(entries) + LeafCost(e)
  {
    hide LeafCosts, LeafCost;
    var a, m, b := entries[..at], entries[at..rest], entries[rest..];
    LeafCostsConcat(a + [e], b);
    LeafCostsConcat(a, [e]);
    OneCost(e);
    assert entries == a + (m + b);
    LeafCostsConcat(a, m + b);
    LeafCostsConcat(m, b);
  }

  lemma OneCost(e: Entry)
    ensures LeafCosts([e]) == LeafCost(e)
  {
    assert [e][..0] == [];
  }

  /** Rewrites the path to the leaf that owns the key. A leaf becomes at most three, a parent
      at most two. */
  method InsertNode(t: PageTree, id: nat, e: Entry, depth: nat, ghost h: nat, ghost lo: Key, ghost hi: Option<Key>)
    returns (r: Result<seq<NodeRef>, TreeError>, existed: bool)
    requires ValidNode(t.pages, id, h, lo, hi) && AtMost(lo, e.key) && Below(e.key, hi)
    modifies t`pages
    ensures old(t.pages) <= t.pages
    ensures r.Ok? <==> depth + h < MAX_TREE_DEPTH
    ensures r.Ok? ==> 1 <= |r.value| <= 3 && Rewritten(old(t.pages), id, h, Single(e), t.pages, r.value, h, lo, hi)
    ensures r.Ok? ==> existed == HasKey(Rows(old(t.pages), id, h), e.key)
    decreases MAX_TREE_DEPTH - depth
  {
    existed := false;
    if depth >= MAX_TREE_DEPTH {
      return Err(CorruptPage(id, "tree descent too deep")), existed;
    }
    NodeRows(t.pages, id, h, lo, hi);
    match t.pages[id]
    case Leaf(entries) =>
      var merged;
      merged, existed := InsertEntry(entries, e);
      AppliedBounds(entries, Single(e), merged, lo, hi);
      assert merged[0] in merged;
      ghost var chunks;
      r, chunks := t.WriteLeafLevel(merged, hi);
      AtMostThreeLeaves(chunks, entries, e);
    case Internal(first, cells) =>
      r, existed := InsertBelow(t, id, first, cells, e, depth, h, lo, hi);
  }

  method InsertBelow(t: PageTree, id: nat, first: nat, cells: seq<NodeRef>, e: Entry, depth: nat, ghost h: nat,
                     ghost lo: Key, ghost hi: Option<Key>)
    returns (r: Result<seq<NodeRef>, TreeError>, existed: bool)
    requires ValidNode(t.pages, id, h, lo, hi) && t.pages[id] == Internal(first, cells) && depth < MAX_TREE_DEPTH
    requires AtMost(lo, e.key) && Below(e.key, hi)
    modifies t`pages
    ensures old(t.pages) <= t.pages
    ensures r.Ok? <==> depth + h < MAX_TREE_DEPTH
    ensures r.Ok? ==> 1 <= |r.value| <= 3 && Rewritten(old(t.pages), id, h, Single(e), t.pages, r.value, h, lo, hi)
    ensures r.Ok? ==> existed == HasKey(Rows(old(t.pages), id, h), e.key)
    decreases MAX_TREE_DEPTH - depth, 0
  {
    hide Fits, LeafCosts, CellCosts, Rewritten, Applied, Decoded, ValidNode, ValidRefs, Rows, AllRows, HasKey, Less,
         Owns;
    existed := false;
    ChildBounds(t.pages, id, h, lo, hi);
    var index, child := ChildForKeySlots(first, cells, e.key, t.pages, h - 1, hi);
    ghost var childLo, next := if index == 0 then lo else cells[index - 1].minKey, Upper(cells[index..], hi);
    OwnerBounds(t.pages, id, h, lo, hi, e.key, index, child);
    var mid;
    mid, existed := InsertNode(t, child, e, depth + 1, h - 1, childLo, next);
    if mid.Err? {
      return mid, existed;
    }
    NodeKept(old(t.pages), t.pages, id, h, lo, hi);
    NodeKept(old(t.pages), t.pages, child, h - 1, childLo, next);
    var decoded := t.DecodeInternal(id, h, lo, hi);
    var children := decoded.value;
    assert t.pages[id] == Internal(first, cells);
    ChildrenAre(t.pages, id, h, lo, hi, children, first, cells, e.key, index, child);
    OwnerKey(t.pages, id, h, lo, hi, children, e.key, index);
    r := SpliceChild(t, id, children, index, mid.value, e, old(t.pages), h, lo, hi);
  }

  /** Replaces one child by its rewrite and writes the parents of the new list. */
  method SpliceChild(t: PageTree, id: nat, children: seq<NodeRef>, index: nat, mid: seq<NodeRef>, e: Entry,
                     ghost prior: seq<Page>, ghost h: nat, ghost lo: Key, ghost hi: Option<Key>)
    returns (r: Result<seq<NodeRef>, TreeError>)
    requires Decoded(t.pages, id, h, lo, hi, children) && index < |children| && 1 <= |mid| <= 3
    requires Fits(ParentOf(children))
    requires Rows(prior, id, h) == Rows(t.pages, id, h)
    requires Rows(prior, children[index].page, h - 1) == Rows(t.pages, children[index].page, h - 1)
    requires Rewritten(prior, children[index].page, h - 1, Single(e), t.pages, mid, h - 1,
                       if index == 0 then lo else children[index].minKey, Upper(children[index + 1..], hi))
    requires index > 0 ==> AtMost(children[index].minKey, e.key)
    requires index + 1 < |children| ==> Less(e.key, children[index + 1].minKey)
    modifies t`pages
    ensures old(t.pages) <= t.pages && r.Ok? && 1 <= |r.value| <= 2
    ensures Rewritten(prior, id, h, Single(e), t.pages, r.value, h, lo, hi)
  {
    hide Fits, CellCosts, Applied, ValidNode, ValidRefs, Rows, AllRows, Rewritten;
    var out := children[..index] + mid + children[index + 1..];
    Spliced(prior, t.pages, id, children, index, mid, e, h, lo, hi);
    ghost var chunks;
    r, chunks := t.WriteInternalLevel(out, h - 1, hi);
    AtMostTwoParents(children, index, mid, chunks);
    SplicedUp(prior, old(t.pages), t.pages, id, e, out, r.value, h, lo, hi);
  }

  lemma ChildBounds(pages: seq<Page>, id: nat, h: nat, lo: Key, hi: Option<Key>)
    requires ValidNode(pages, id, h, lo, hi) && pages[id].Internal?
    ensures id < |pages| && h > 0 && ValidRefs(pages, pages[id].cells, h - 1, hi)
  {
  }

  /** The child that owns a key, and its bounds. */
  lemma OwnerBounds(pages: seq<Page>, id: nat, h: nat, lo: Key, hi: Option<Key>, key: Key, index: nat, child: nat)
    requires ValidNode(pages, id, h, lo, hi) && pages[id].Internal? && AtMost(lo, key) && Below(key, hi)
    requires Owns(pages[id].first, pages[id].cells, key, index, child)
    ensures h > 0 && index <= |pages[id].cells|
    ensures var cells := pages[id].cells;
            var childLo, next := if index == 0 then lo else cells[index - 1].minKey, Upper(cells[index..], hi);
            ValidNode(pages, child, h - 1, childLo, next) && AtMost(childLo, key) && Below(key, next)
  {
    var cells := pages[id].cells;
    if index == 0 {
      assert cells[0..] == cells;
    } else {
      AtChild(pages, cells, h - 1, hi, index - 1);
    }
  }

  /** The decoded children, and the owner among them. */
  lemma ChildrenAre(pages: seq<Page>, id: nat, h: nat, lo: Key, hi: Option<Key>, children: seq<NodeRef>,
                    first: nat, cells: seq<NodeRef>, key: Key, index: nat, child: nat)
    requires Decoded(pages, id, h, lo, hi, children) && ValidNode(pages, id, h, lo, hi)
    requires pages[id] == Internal(first, cells)
    requires Owns(first, cells, key, index, child)
    ensures index < |children| && children[index].page == child && children[index + 1..] == cells[index..]
    ensures Fits(ParentOf(children))
    ensures index > 0 ==> children[index].minKey == cells[index - 1].minKey && AtMost(children[index].minKey, key)
    ensures index + 1 < |children| ==> Less(key, children[index + 1].minKey)
  {
    hide Less, Rows, AllRows, CellCosts;
    assert children == [children[0]] + cells;
  }

  /** The owning child holds every row of the key. */
  lemma OwnerKey(pages: seq<Page>, id: nat, h: nat, lo: Key, hi: Option<Key>, children: seq<NodeRef>, key: Key,
                 index: nat)
    requires Decoded(pages, id, h, lo, hi, children) && index < |children|
    requires index > 0 ==> AtMost(children[index].minKey, key)
    requires index + 1 < |children| ==> Less(key, children[index + 1].minKey)
    ensures HasKey(Rows(pages, children[index].page, h - 1), key) <==> HasKey(Rows(pages, id, h), key)
  {
    OwnerHolds(pages, children, h - 1, hi, key, index);
  }

  lemma SplicedApplied(l: seq<Entry>, m: seq<Entry>, m': seq<Entry>, r: seq<Entry>, e: Entry)
    requires Applied(m, Single(e), m') && (forall x :: x in l || x in r ==> x.key != e.key)
    ensures Applied(l + m + r, Single(e), l + m' + r)
  {
    forall x ensures x in l + m' + r <==> Survives(l + m + r, Single(e), x) {
      SingleFor(e, x.key);
      assert x in m' <==> Survives(m, Single(e), x);
    }
  }

  /** One child replaced by its rewrite: the siblings stay, the rows change by the entry. */
  lemma Spliced(prior: seq<Page>, pages: seq<Page>, id: nat, children: seq<NodeRef>, index: nat, mid: seq<NodeRef>,
                e: Entry, h: nat, lo: Key, hi: Option<Key>)
    requires Decoded(pages, id, h, lo, hi, children) && index < |children| && mid != []
    requires Rows(prior, children[index].page, h - 1) == Rows(pages, children[index].page, h - 1)
    requires Rewritten(prior, children[index].page, h - 1, Single(e), pages, mid, h - 1,
                       if index == 0 then lo else children[index].minKey, Upper(children[index + 1..], hi))
    requires index > 0 ==> AtMost(children[index].minKey, e.key)
    requires index + 1 < |children| ==> Less(e.key, children[index + 1].minKey)
    ensures var out := children[..index] + mid + children[index + 1..];
            && out != [] && ValidRefs(pages, out, h - 1, hi) && AtMost(lo, out[0].minKey)
            && Applied(Rows(pages, id, h), Single(e), AllRows(pages, out, h - 1))
  {
    hide Applied, Less, ValidNode, ValidRefs, Rows, AllRows;
    var left, right, next := children[..index], children[index + 1..], Upper(children[index + 1..], hi);
    AtChild(pages, children, h - 1, hi, index);
    SplitRefs(pages, children, index, h - 1, hi);
    NextInRun(pages, children, index, h - 1, hi);
    SplicedRefs(pages, left, mid, right, children[index], h - 1, lo, hi);
    var l, m, r := AllRows(pages, left, h - 1), Rows(pages, children[index].page, h - 1), AllRows(pages, right, h - 1);
    assert index == 0 ==> left == [];
    assert index + 1 == |children| ==> right == [];
    NoRefs(pages, h - 1);
    forall x | x in l || x in r ensures x.key != e.key {
      if x in l { assert Less(x.key, children[index].minKey); }
    }
    SplicedApplied(l, m, AllRows(pages, mid, h - 1), r, e);
  }

  lemma NoRefs(pages: seq<Page>, h: nat)
    ensures AllRows(pages, [], h) == []
  {
  }

  lemma SplicedRefs(pages: seq<Page>, left: seq<NodeRef>, mid: seq<NodeRef>, right: seq<NodeRef>, child: NodeRef,
                    h: nat, lo: Key, hi: Option<Key>)
    requires ValidRefs(pages, left, h, Some(child.minKey)) && ValidRefs(pages, mid, h, Upper(right, hi))
    requires ValidRefs(pages, right, h, hi) && mid != []
    requires left != [] ==> AtMost(child.minKey, mid[0].minKey)
    ensures ValidRefs(pages, left + mid + right, h, hi)
    ensures AllRows(pages, left + mid + right, h) ==
            AllRows(pages, left, h) + AllRows(pages, mid, h) + AllRows(pages, right, h)
  {
    KeyOrder();
    RefsRows(pages, left, h, Some(child.minKey));
    JoinRefs(pages, left, mid, h, Some(child.minKey), Upper(right, hi));
    RefsRows(pages, left + mid, h, Upper(right, hi));
    JoinRefs(pages, left + mid, right, h, Upper(right, hi), hi);
  }

  lemma SplicedUp(prior: seq<Page>, before: seq<Page>, pages: seq<Page>, id: nat, e: Entry, out: seq<NodeRef>,
                  refs: seq<NodeRef>, h: nat, lo: Key, hi: Option<Key>)
    requires h > 0 && Rows(prior, id, h) == Rows(before, id, h) && out != [] && refs != []
    requires Applied(Rows(before, id, h), Single(e), AllRows(before, out, h - 1)) && AtMost(lo, out[0].minKey)
    requires Spells(pages, refs, h, hi, AllRows(before, out, h - 1)) && refs[0].minKey == out[0].minKey
    ensures Rewritten(prior, id, h, Single(e), pages, refs, h, lo, hi)
  {
    hide Applied;
  }

  // ----- The whole put ------------------------------------------------------

  /** Up to three nodes always fit one page, so the new root is never split. */
  lemma RootFits(refs: seq<NodeRef>)
    requires 1 <= |refs| <= 3
    ensures Fits(ParentOf(refs))
  {
    SmallCells(refs[1..]);
  }

  /** Writes one key. The new root holds the old contents with the key set; a failure leaves
      the page file as it was. */
  method PreparePut(t: PageTree, key: Key, value: Value, revision: nat, io: bool)
      returns (r: Result<(nat, nat), TreeError>, ghost h': nat)
    requires t.Valid()
    modifies t`pages, t`flushed
    ensures t.Valid() && t.Contents() == old(t.Contents()) && old(t.pages) <= t.pages
    ensures r.Ok? <==> io && (t.root == 0 || t.height < MAX_TREE_DEPTH)
    ensures r.Err? ==> t.pages == old(t.pages)
    ensures r.Ok? ==> Holds(t.pages, r.value.0, r.value.1, h')
                      && StoreAt(t.pages, r.value.0, h') == old(t.Contents())[key := Stamped(value, revision)]
  {
    r, h' := PutInner(t, Entry(key, value, revision));
    if r.Ok? && io {
      t.flushed := |t.pages|;
    } else {
      if r.Ok? { r := Err(IoFailure); }
      t.pages := t.pages[..t.flushed];
      assert t.pages == old(t.pages);
    }
    HoldsKept(old(t.pages), t.pages, t.root, t.len, t.height);
  }

  method PutInner(t: PageTree, e: Entry) returns (r: Result<(nat, nat), TreeError>, ghost h': nat)
    requires t.Valid()
    modifies t`pages
    ensures old(t.pages) <= t.pages
    ensures r.Ok? <==> t.root == 0 || t.height < MAX_TREE_DEPTH
    ensures r.Ok? ==> Holds(t.pages, r.value.0, r.value.1, h')
                      && StoreAt(t.pages, r.value.0, h') == old(t.Contents())[e.key := Stamped(e.value, e.revision)]
  {
    ghost var rows := RowsAt(t.pages, t.root, t.height);
    HoldsRows(t.pages, t.root, t.len, t.height);
    h' := 0;
    if t.root == 0 {
      FreshFits(e);
      var node := t.WriteLeaf([e]);
      FirstRow(t.pages, node.value, e);
      return Ok((node.value.page, 1)), h';
    }
    var refs, existed := InsertNode(t, t.root, e, 0, t.height, [], None);
    if refs.Err? {
      return Err(refs.error), h';
    }
    ghost var before := t.pages;
    var top := refs.value[0];
    h' := t.height;
    if |refs.value| > 1 {
      RootFits(refs.value);
      var parent := t.WriteInternal(refs.value);
      top, h' := parent.value, t.height + 1;
    }
    PutHolds(before, t.pages, refs.value, top, t.height, h', rows, e, existed);
    return Ok((top.page, t.len + (if existed then 0 else 1))), h';
  }

  lemma FreshFits(e: Entry)
    ensures Fits(Leaf([e]))
  {
    OneCost(e);
  }

  lemma FirstRow(pages: seq<Page>, node: NodeRef, e: Entry)
    requires node.page < |pages| && node.page != 0 && pages[node.page] == Leaf([e])
    ensures Holds(pages, node.page, 1, 0)
    ensures StoreAt(pages, node.page, 0) == map[][e.key := Stamped(e.value, e.revision)]
  {
    FreshFits(e);
    MapOfRows([e]);
    assert [e][..0] == [];
    forall x | x in [e] ensures AtMost([], x.key) {
    }
  }

  lemma {:induction false} PutHolds(before: seq<Page>, pages: seq<Page>, refs: seq<NodeRef>, top: NodeRef, h: nat,
                                    h': nat, rows: seq<Entry>, e: Entry, existed: bool)
    requires before <= pages && before != [] && before[0] == Super && Sorted(rows) && 1 <= |refs| <= 3
    requires ValidRefs(before, refs, h, None) && Applied(rows, Single(e), AllRows(before, refs, h))
    requires existed == HasKey(rows, e.key)
    requires if |refs| == 1 then h' == h && top == refs[0] && pages == before
             else h' == h + 1 && top.page == |before| && pages == before + [ParentOf(refs)]
    ensures StoreAt(pages, top.page, h') == MapOf(rows)[e.key := Stamped(e.value, e.revision)]
    ensures Holds(pages, top.page, |rows| + (if existed then 0 else 1), h')
  {
    hide Applied;
    var after := AllRows(before, refs, h);
    RefsRows(before, refs, h, None);
    AppliedIsApplyAll(rows, Single(e), after);
    PutInMap(MapOf(rows), e);
    MapOfRows(rows);
    if |refs| == 1 {
      assert refs == [refs[0]];
      RootOf(before, refs[0], h);
    } else {
      TopOf(before, pages, refs, h);
    }
  }

  lemma PutInMap(m: Store, e: Entry)
    ensures ApplyAll(m, Single(e)) == m[e.key := Stamped(e.value, e.revision)]
    ensures |m[e.key := Stamped(e.value, e.revision)]| == |m| + if e.key in m then 0 else 1
  {
    assert Single(e)[..0] == [];
    var m' := m[e.key := Stamped(e.value, e.revision)];
    assert m'.Keys == m.Keys + {e.key};
    assert |m'| == |m'.Keys| && |m| == |m.Keys|;
  }

  lemma TopOf(before: seq<Page>, pages: seq<Page>, refs: seq<NodeRef>, h: nat)
    requires 1 <= |refs| <= 3 && pages == before + [ParentOf(refs)] && ValidRefs(before, refs, h, None)
    ensures ValidNode(pages, |before|, h + 1, [], None) && Rows(pages, |before|, h + 1) == AllRows(before, refs, h)
  {
    RefsKept(before, pages, refs, h, None);
    RootFits(refs);
    FreshParent(pages, |before|, refs, h, None);
    NodeRows(pages, |before|, h + 1, refs[0].minKey, None);
    NodeRebound(pages, |before|, h + 1, refs[0].minKey, None, [], None);
  }

  // ----- The single-key delete ----------------------------------------------

  /** Deletes one key. An absent key appends nothing; a present one goes through the batched
      rewrite, underfull merging included. */
  method PrepareDelete(t: PageTree, key: Key, io: bool)
      returns (r: Result<Option<(nat, nat)>, TreeError>, ghost h': nat)
    requires t.Valid()
    modifies t`pages, t`flushed
    ensures t.Valid() && t.Contents() == old(t.Contents()) && old(t.pages) <= t.pages
    ensures r.Ok? <==> t.root == 0 || (t.height < MAX_TREE_DEPTH && (key !in old(t.Contents()) || io))
    ensures r.Err? || r.value.None? ==> t.pages == old(t.pages)
    ensures r.Ok? ==> (r.value.Some? <==> key in old(t.Contents()))
    ensures r.Ok? && r.value.Some? ==> Holds(t.pages, r.value.value.0, r.value.value.1, h')
                                       && StoreAt(t.pages, r.value.value.0, h') == old(t.Contents()) - {key}
  {
    h' := t.height;
    var found := Get(t, key);
    if found.Err? {
      return Err(found.error), h';
    }
    if found.value.None? {
      return Ok(None), h';
    }
    var nodes;
    nodes, h' := DeleteInner(t, key);
    if io {
      t.flushed := |t.pages|;
      r := Ok(Some(nodes));
    } else {
      t.pages := t.pages[..t.flushed];
      assert t.pages == old(t.pages);
      r := Err(IoFailure);
    }
    HoldsKept(old(t.pages), t.pages, t.root, t.len, t.height);
  }

  method DeleteInner(t: PageTree, key: Key) returns (r: (nat, nat), ghost h': nat)
    requires t.Valid() && key in t.Contents() && t.root != 0 && t.height < MAX_TREE_DEPTH
    modifies t`pages
    ensures old(t.pages) <= t.pages
    ensures Holds(t.pages, r.0, r.1, h') && StoreAt(t.pages, r.0, h') == old(t.Contents()) - {key}
  {
    ghost var rows := RowsAt(t.pages, t.root, t.height);
    HoldsRows(t.pages, t.root, t.len, t.height);
    MapOfRows(rows);
    var prepared := [Prepared(key, Mutation.Delete, 0)];
    DeleteOne(MapOf(rows), key, prepared);
    var nodes, existed;
    nodes, existed, h' := t.RewriteRoot(prepared, 1);
    var top;
    top, h' := t.Raise(nodes.value, h', rows, prepared);
    GrownHolds(t.pages, top, h', rows, prepared, [Edit(key, Mutation.Delete)], -1);
    r := (if top == [] then 0 else top[0].page, t.len - 1);
  }

  lemma DeleteOne(m: Store, key: Key, prepared: seq<Prepared>)
    requires prepared == [Prepared(key, Mutation.Delete, 0)] && key in m
    ensures ApplyAll(m, prepared) == m - {key} == ApplyEdits(m, [Edit(key, Mutation.Delete)]) && |m - {key}| == |m| - 1
  {
    assert prepared[..0] == [];
    assert [Edit(key, Mutation.Delete)][..0] == [];
    assert (m - {key}).Keys == m.Keys - {key};
    assert |m - {key}| == |(m - {key}).Keys| && |m| == |m.Keys|;
  }
}
