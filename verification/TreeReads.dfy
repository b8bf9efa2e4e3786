/** Every read path of the tree against the rows the tree holds: point lookup by
    slot binary search and by sequential walk, the shared multi-key sweep, last-key
    search, change detection, and limited scans with an excluded prefix. */
module TreeReads {
  import opened Results
  import opened Keys
  import opened Pages
  import opened Mutations
  import opened Stores
  import opened Windows
  import opened PageTree

  /** What a lookup of `k` among `rows` must answer. */
  ghost predicate Found(rows: seq<Entry>, k: Key, r: Option<Entry>) {
    && (r.Some? ==> r.value in rows && r.value.key == k)
    && (r.None? ==> !HasKey(rows, k))
  }

  // ----- Inside one page ----------------------------------------------------

  /** Index of the first leaf cell at or past `target`, by binary search. */
  method LeafLowerBound(entries: seq<Entry>, target: Key) returns (low: nat)
    requires Sorted(entries)
    ensures low <= |entries|
    ensures forall i :: 0 <= i < low ==> Less(entries[i].key, target)
    ensures forall i :: low <= i < |entries| ==> AtMost(target, entries[i].key)
  {
    low := 0;
    var high := |entries|;
    while low < high
      invariant low <= high <= |entries|
      invariant forall i :: 0 <= i < low ==> Less(entries[i].key, target)
      invariant forall i :: high <= i < |entries| ==> AtMost(target, entries[i].key)
    {
      var mid := low + (high - low) / 2;
      SplitsAt(entries, mid, target);
      if Less(entries[mid].key, target) {
        low := mid + 1;
      } else {
        high := mid;
      }
    }
  }

  lemma SplitsAt(entries: seq<Entry>, mid: nat, target: Key)
    requires Sorted(entries) && mid < |entries|
    ensures Less(entries[mid].key, target) ==> forall i :: 0 <= i <= mid ==> Less(entries[i].key, target)
    ensures AtMost(target, entries[mid].key) ==> forall i :: mid <= i < |entries| ==> AtMost(target, entries[i].key)
  {
    forall i | 0 <= i < mid && Less(entries[mid].key, target) ensures Less(entries[i].key, target) {
      LessTransitive(entries[i].key, entries[mid].key, target);
    }
    forall i | mid < i < |entries| && AtMost(target, entries[mid].key) ensures AtMost(target, entries[i].key) {
      if Less(entries[i].key, target) { LessTransitive(entries[mid].key, entries[i].key, target); }
    }
  }

  /** Binary-searches one key's cell. */
  method FindInLeafSlots(entries: seq<Entry>, key: Key) returns (r: Option<Entry>)
    requires Sorted(entries)
    ensures Found(entries, key, r)
  {
    var index := LeafLowerBound(entries, key);
    PresentAt(entries, index, key);
    if index == |entries| || entries[index].key != key {
      return None;
    }
    return Some(entries[index]);
  }

  /** Walks the cells in order, stopping at the first one past the key. */
  method FindInLeaf(entries: seq<Entry>, key: Key) returns (r: Option<Entry>)
    requires Sorted(entries)
    ensures Found(entries, key, r)
  {
    for i := 0 to |entries|
      invariant forall j :: 0 <= j < i ==> Less(entries[j].key, key)
    {
      if Less(key, entries[i].key) {
        LessTotal(key, entries[i].key);
        AboveIsAtMost(key, entries[i].key);
        PresentAt(entries, i, key);
        return None;
      }
      if entries[i].key == key {
        return Some(entries[i]);
      }
      LessTotal(key, entries[i].key);
    }
    PresentAt(entries, |entries|, key);
    return None;
  }

  lemma AboveIsAtMost(a: Key, b: Key)
    requires Less(a, b)
    ensures AtMost(a, b) && a != b
  {
    LessIrreflexive(a);
    if Less(b, a) { LessTransitive(a, b, a); }
  }

  /** The children of an internal page whose own keys start at `lo`. */
  ghost function Kids(p: Page, lo: Key): seq<NodeRef>
    requires p.Internal?
  {
    [NodeRef(p.first, lo)] + p.cells
  }

  lemma KidsValid(pages: seq<Page>, id: nat, h: nat, lo: Key, hi: Option<Key>)
    requires ValidNode(pages, id, h, lo, hi) && pages[id].Internal?
    ensures h > 0 && ValidRefs(pages, Kids(pages[id], lo), h - 1, hi)
    ensures AllRows(pages, Kids(pages[id], lo), h - 1) == Rows(pages, id, h)
  {
    assert Kids(pages[id], lo)[1..] == pages[id].cells;
  }

  /** Child `i` of adjacent subtrees: what lies left of it, in it and right of it. */
  lemma AtChild(pages: seq<Page>, refs: seq<NodeRef>, h: nat, hi: Option<Key>, i: nat)
    requires ValidRefs(pages, refs, h, hi) && i < |refs|
    ensures ValidNode(pages, refs[i].page, h, refs[i].minKey, Upper(refs[i + 1..], hi))
    ensures AllRows(pages, refs, h) ==
            AllRows(pages, refs[..i], h) + Rows(pages, refs[i].page, h) + AllRows(pages, refs[i + 1..], h)
    ensures AllBelow(AllRows(pages, refs[..i], h), Some(refs[i].minKey))
    ensures AllFrom(Rows(pages, refs[i].page, h), refs[i].minKey)
    ensures AllBelow(Rows(pages, refs[i].page, h), Upper(refs[i + 1..], hi))
    ensures i + 1 < |refs| ==> AllFrom(AllRows(pages, refs[i + 1..], h), refs[i + 1].minKey)
    ensures ValidRefs(pages, refs[i..], h, hi)
  {
    assert refs == refs[..i] + refs[i..] && refs[i..] == [refs[i]] + refs[i + 1..] && refs[i..][1..] == refs[i + 1..];
    ConcatValid(pages, refs[..i], refs[i..], h, hi);
    AllRowsConcat(pages, refs[..i], refs[i..], h);
    RefsRows(pages, refs[..i], h, Some(refs[i].minKey));
    RefsRows(pages, refs[i + 1..], h, hi);
    NodeRows(pages, refs[i].page, h, refs[i].minKey, Upper(refs[i + 1..], hi));
  }

  /** Picks the child that owns `key`: the partition point of "separator at or below
      the key", by binary search over the slot directory. */
  method ChildForKeySlots(first: nat, cells: seq<NodeRef>, key: Key, ghost pages: seq<Page>, ghost h: nat,
                          ghost hi: Option<Key>)
    returns (index: nat, child: nat)
    requires ValidRefs(pages, cells, h, hi)
    ensures Owns(first, cells, key, index, child)
  {
    var low, high := 0, |cells|;
    while low < high
      invariant 0 <= low <= high <= |cells|
      invariant forall i :: 0 <= i < low ==> AtMost(cells[i].minKey, key)
      invariant forall i :: high <= i < |cells| ==> Less(key, cells[i].minKey)
    {
      var mid := low + (high - low) / 2;
      SeparatorsSplit(pages, cells, h, hi, mid, key);
      if AtMost(cells[mid].minKey, key) {
        low := mid + 1;
      } else {
        high := mid;
      }
    }
    if low == 0 {
      return 0, first;
    }
    return low, cells[low - 1].page;
  }

  /** The same choice by walking the cells and stopping at the first one above. */
  method ChildForKey(first: nat, cells: seq<NodeRef>, key: Key, ghost pages: seq<Page>, ghost h: nat,
                     ghost hi: Option<Key>)
    returns (index: nat, child: nat)
    requires ValidRefs(pages, cells, h, hi)
    ensures Owns(first, cells, key, index, child)
  {
    index, child := 0, first;
    for i := 0 to |cells|
      invariant index == i && child == (if i == 0 then first else cells[i - 1].page)
      invariant forall j :: 0 <= j < i ==> AtMost(cells[j].minKey, key)
    {
      if !AtMost(cells[i].minKey, key) {
        SeparatorsSplit(pages, cells, h, hi, i, key);
        break;
      }
      index, child := i + 1, cells[i].page;
    }
  }

  /** Child `index`, on page `child`, is the one whose separators enclose `key`. */
  ghost predicate Owns(first: nat, cells: seq<NodeRef>, key: Key, index: nat, child: nat) {
    && index <= |cells| && child == (if index == 0 then first else cells[index - 1].page)
    && (forall i :: 0 <= i < index ==> AtMost(cells[i].minKey, key))
    && (forall i :: index <= i < |cells| ==> Less(key, cells[i].minKey))
  }

  lemma SeparatorsSplit(pages: seq<Page>, cells: seq<NodeRef>, h: nat, hi: Option<Key>, mid: nat, key: Key)
    requires ValidRefs(pages, cells, h, hi) && mid < |cells|
    ensures AtMost(cells[mid].minKey, key) ==> forall i :: 0 <= i <= mid ==> AtMost(cells[i].minKey, key)
    ensures Less(key, cells[mid].minKey) ==> forall i :: mid <= i < |cells| ==> Less(key, cells[i].minKey)
  {
    SeparatorsAscend(pages, cells, h, hi);
    KeyOrder();
  }

  lemma {:induction false} SeparatorsAscend(pages: seq<Page>, cells: seq<NodeRef>, h: nat, hi: Option<Key>)
    requires ValidRefs(pages, cells, h, hi)
    ensures forall i, j :: 0 <= i < j < |cells| ==> Less(cells[i].minKey, cells[j].minKey)
    decreases |cells|
  {
    if |cells| > 1 {
      var rest, lo, next := cells[1..], cells[0].minKey, cells[1].minKey;
      SeparatorsAscend(pages, rest, h, hi);
      NonEmptyRange(pages, cells[0].page, h, lo, next);
      forall i, j | 0 <= i < j < |cells| ensures Less(cells[i].minKey, cells[j].minKey) {
        if i > 0 {
          assert Less(rest[i - 1].minKey, rest[j - 1].minKey);
        } else if j > 1 {
          assert Less(rest[0].minKey, rest[j - 1].minKey);
          LessTransitive(lo, next, cells[j].minKey);
        }
      }
    }
  }

  lemma NonEmptyRange(pages: seq<Page>, id: nat, h: nat, lo: Key, hi: Key)
    requires ValidNode(pages, id, h, lo, Some(hi))
    ensures Less(lo, hi)
  {
    NodeRows(pages, id, h, lo, Some(hi));
    var e := Rows(pages, id, h)[0];
    assert e in Rows(pages, id, h);
    LessTotal(lo, e.key);
    if lo != e.key { LessTransitive(lo, e.key, hi); }
  }

  // ----- Point lookup -------------------------------------------------------

  /** Descends to the leaf that owns `key`; every row of the tree with that key is in
      that leaf. The descent is refused only by the depth bound. */
  method FindLeaf(pages: seq<Page>, root: nat, key: Key, ghost h: nat) returns (r: Result<nat, TreeError>)
    requires ValidNode(pages, root, h, [], None)
    ensures r.Ok? <==> h < MAX_TREE_DEPTH
    ensures r.Ok? ==> r.value < |pages| && pages[r.value].Leaf? && Sorted(pages[r.value].entries)
    ensures r.Ok? ==> SameFor(pages[r.value].entries, Rows(pages, root, h), key)
  {
    var page, depth := root, 0;
    ghost var lo: Key, hi: Option<Key> := [], None;
    while true
      invariant 0 <= depth <= h && depth <= MAX_TREE_DEPTH && ValidNode(pages, page, h - depth, lo, hi)
      invariant SameFor(Rows(pages, page, h - depth), Rows(pages, root, h), key)
      decreases h - depth
    {
      if depth >= MAX_TREE_DEPTH {
        return Err(CorruptPage(page, "tree descent too deep"));
      }
      match pages[page]
      case Leaf(_) => return Ok(page);
      case Internal(first, cells) =>
        KidsValid(pages, page, h - depth, lo, hi);
        var index, child := ChildForKeySlots(first, cells, key, pages, h - depth - 1, hi);
        ghost var kids := Kids(pages[page], lo);
        OwnerHolds(pages, kids, h - depth - 1, hi, key, index);
        lo, hi := kids[index].minKey, Upper(kids[index + 1..], hi);
        page, depth := child, depth + 1;
    }
  }

  /** Two lists of rows hold the same rows for `key`. */
  ghost predicate SameFor(a: seq<Entry>, b: seq<Entry>, key: Key) {
    forall e: Entry :: e.key == key ==> (e in a <==> e in b)
  }

  lemma OwnerHolds(pages: seq<Page>, kids: seq<NodeRef>, h: nat, hi: Option<Key>, key: Key, index: nat)
    requires ValidRefs(pages, kids, h, hi) && index < |kids|
    requires index > 0 ==> AtMost(kids[index].minKey, key)
    requires index + 1 < |kids| ==> Less(key, kids[index + 1].minKey)
    ensures ValidNode(pages, kids[index].page, h, kids[index].minKey, Upper(kids[index + 1..], hi))
    ensures SameFor(Rows(pages, kids[index].page, h), AllRows(pages, kids, h), key)
  {
    AtChild(pages, kids, h, hi, index);
    assert index == 0 ==> kids[..index] == [];
    assert index + 1 == |kids| ==> kids[index + 1..] == [];
    var left, right := AllRows(pages, kids[..index], h), AllRows(pages, kids[index + 1..], h);
    assert forall e: Entry :: e.key == key ==> e !in left && e !in right;
  }

  /** A point lookup is a lookup in the map the tree stands for. */
  method Get(t: PageTree, key: Key) returns (r: Result<Option<Stamped>, TreeError>)
    requires t.Valid()
    ensures r.Ok? <==> t.root == 0 || t.height < MAX_TREE_DEPTH
    ensures r.Ok? ==> r.value == Lookup(t.Contents(), key)
  {
    ghost var rows := RowsAt(t.pages, t.root, t.height);
    HoldsRows(t.pages, t.root, t.len, t.height);
    MapOfRows(rows);
    if t.root == 0 {
      return Ok(None);
    }
    var leaf :- FindLeaf(t.pages, t.root, key, t.height);
    var hit := FindInLeafSlots(t.pages[leaf].entries, key);
    FoundInMap(t.pages[leaf].entries, rows, key, hit);
    match hit
    case None => return Ok(None);
    case Some(e) => return Ok(Some(Stamped(e.value, e.revision)));
  }

  ghost function AsStamped(r: Option<Entry>): Option<Stamped> {
    if r.None? then None else Some(Stamped(r.value.value, r.value.revision))
  }

  lemma FoundInMap(entries: seq<Entry>, rows: seq<Entry>, key: Key, r: Option<Entry>)
    requires Sorted(rows) && SameFor(entries, rows, key) && Found(entries, key, r)
    ensures Found(rows, key, r)
    ensures AsStamped(r) == Lookup(MapOf(rows), key)
  {
    MapOfRows(rows);
  }

  // ----- The shared multi-key sweep -----------------------------------------

  predicate Ascending(keys: seq<Key>) {
    forall i, j :: 0 <= i < j < |keys| ==> Less(keys[i], keys[j])
  }

  /** How far the keys from `from` on stay below `bound`. */
  method PartitionPoint(keys: seq<Key>, from: nat, bound: Key) returns (end: nat)
    requires Ascending(keys) && from <= |keys|
    ensures from <= end <= |keys|
    ensures forall i :: from <= i < end ==> Less(keys[i], bound)
    ensures forall i :: end <= i < |keys| ==> AtMost(bound, keys[i])
  {
    end := from;
    while end < |keys| && Less(keys[end], bound)
      invariant from <= end <= |keys|
      invariant forall i :: from <= i < end ==> Less(keys[i], bound)
    {
      end := end + 1;
    }
    forall i | end <= i < |keys| ensures AtMost(bound, keys[i]) {
      if Less(keys[i], bound) && end < i { LessTransitive(keys[end], keys[i], bound); }
    }
  }

  ghost predicate AllFound(rows: seq<Entry>, keys: seq<Key>, results: seq<Option<Entry>>) {
    |results| == |keys| && forall i :: 0 <= i < |keys| ==> Found(rows, keys[i], results[i])
  }

  /** A few keys in a large leaf: one binary search each. */
  method CollectSparse(entries: seq<Entry>, keys: seq<Key>) returns (results: seq<Option<Entry>>)
    requires Sorted(entries)
    ensures AllFound(entries, keys, results)
  {
    results := [];
    for i := 0 to |keys|
      invariant |results| == i
      invariant forall j :: 0 <= j < i ==> Found(entries, keys[j], results[j])
    {
      var hit := FindInLeafSlots(entries, keys[i]);
      results := results + [hit];
    }
  }

  /** Many keys: one merge walk over the cells. */
  method CollectDense(entries: seq<Entry>, keys: seq<Key>) returns (results: seq<Option<Entry>>)
    requires Sorted(entries) && Ascending(keys)
    ensures AllFound(entries, keys, results)
  {
    results := [];
    for i := 0 to |entries|
      invariant |results| <= |keys|
      invariant forall j :: 0 <= j < |results| ==> Found(entries, keys[j], results[j])
      invariant forall j, x :: |results| <= j < |keys| && 0 <= x < i ==> Less(entries[x].key, keys[j])
    {
      if |results| == |keys| {
        break;
      }
      var cursor := PartitionPoint(keys, |results|, entries[i].key);
      SkippedAbsent(entries, keys, i, |results|, cursor);
      results := results + seq(cursor - |results|, _ => None);
      if cursor < |keys| && keys[cursor] == entries[i].key {
        results := results + [Some(entries[i])];
      }
      PastCell(entries, keys, i, |results|);
    }
    if |results| < |keys| {
      SkippedAbsent(entries, keys, |entries|, |results|, |keys|);
      results := results + seq(|keys| - |results|, _ => None);
    }
  }

  lemma SkippedAbsent(entries: seq<Entry>, keys: seq<Key>, i: nat, from: nat, to: nat)
    requires Sorted(entries) && i <= |entries| && from <= to <= |keys|
    requires forall j, x :: from <= j < |keys| && 0 <= x < i ==> Less(entries[x].key, keys[j])
    requires i < |entries| ==> forall j :: from <= j < to ==> Less(keys[j], entries[i].key)
    ensures forall j :: from <= j < to ==> Found(entries, keys[j], None)
  {
    forall j | from <= j < to ensures Found(entries, keys[j], None) {
      if i < |entries| { AboveIsAtMost(keys[j], entries[i].key); }
      PresentAt(entries, i, keys[j]);
    }
  }

  lemma PastCell(entries: seq<Entry>, keys: seq<Key>, i: nat, from: nat)
    requires Sorted(entries) && Ascending(keys) && i < |entries| && from <= |keys|
    requires forall j :: from <= j < |keys| ==> AtMost(entries[i].key, keys[j]) 
    requires from < |keys| ==> keys[from] != entries[i].key
    ensures forall j, x :: from <= j < |keys| && 0 <= x <= i ==> Less(entries[x].key, keys[j])
  {
    KeyOrder();
  }

  method CollectLeaf(entries: seq<Entry>, keys: seq<Key>) returns (results: seq<Option<Entry>>)
    requires Sorted(entries) && Ascending(keys)
    ensures AllFound(entries, keys, results)
  {
    if |keys| * 4 < |entries| {
      results := CollectSparse(entries, keys);
    } else {
      results := CollectDense(entries, keys);
    }
  }

  /** Reads many keys in one descent that visits each internal page once. */
  method CollectMany(pages: seq<Page>, id: nat, keys: seq<Key>, depth: nat, ghost h: nat, ghost lo: Key,
                     ghost hi: Option<Key>)
    returns (r: Result<seq<Option<Entry>>, TreeError>)
    requires ValidNode(pages, id, h, lo, hi) && Ascending(keys) && keys != []
    ensures r.Ok? <==> depth + h < MAX_TREE_DEPTH
    ensures r.Ok? ==> AllFound(Rows(pages, id, h), keys, r.value)
    decreases h, 1
  {
    if depth >= MAX_TREE_DEPTH {
      return Err(CorruptPage(id, "tree descent too deep"));
    }
    match pages[id]
    case Leaf(entries) =>
      var results := CollectLeaf(entries, keys);
      return Ok(results);
    case Internal(first, cells) =>
      KidsValid(pages, id, h, lo, hi);
      ghost var kids := Kids(pages[id], lo);
      var results: seq<Option<Entry>> := [];
      var child := first;
      for i := 0 to |cells|
        invariant child == kids[i].page && CollectedTo(pages, kids, h - 1, keys, results, i)
        invariant |results| > 0 ==> depth + h < MAX_TREE_DEPTH
      {
        var end := PartitionPoint(keys, |results|, cells[i].minKey);
        results :- CollectChild(pages, child, keys, results, end, depth, i, kids, h, hi);
        child := cells[i].page;
      }
      results :- CollectChild(pages, child, keys, results, |keys|, depth, |cells|, kids, h, hi);
      assert keys[..|keys|] == keys;
      return Ok(results);
  }

  /** Every key before child `i` is resolved, and the others belong at or past it. */
  ghost predicate CollectedTo(pages: seq<Page>, kids: seq<NodeRef>, h: nat, keys: seq<Key>, results: seq<Option<Entry>>,
                              i: nat) {
    && |results| <= |keys| && i < |kids|
    && AllFound(AllRows(pages, kids, h), keys[..|results|], results)
    && (i > 0 ==> forall j :: |results| <= j < |keys| ==> AtMost(kids[i].minKey, keys[j]))
  }

  method CollectChild(pages: seq<Page>, child: nat, keys: seq<Key>, results: seq<Option<Entry>>, end: nat, depth: nat,
                      ghost i: nat, ghost kids: seq<NodeRef>, ghost h: nat, ghost hi: Option<Key>)
    returns (r: Result<seq<Option<Entry>>, TreeError>)
    requires h > 0 && ValidRefs(pages, kids, h - 1, hi) && Ascending(keys) && depth < MAX_TREE_DEPTH
    requires CollectedTo(pages, kids, h - 1, keys, results, i) && child == kids[i].page
    requires |results| <= end <= |keys|
    requires i + 1 < |kids| ==> forall j :: |results| <= j < end ==> Less(keys[j], kids[i + 1].minKey)
    ensures r.Ok? <==> end == |results| || depth + h < MAX_TREE_DEPTH
    ensures r.Ok? ==> |r.value| == end && AllFound(AllRows(pages, kids, h - 1), keys[..end], r.value)
    decreases h, 0
  {
    if end == |results| {
      return Ok(results);
    }
    AtChild(pages, kids, h - 1, hi, i);
    var part :- CollectMany(pages, child, keys[|results|..end], depth + 1, h - 1, kids[i].minKey,
        Upper(kids[i + 1..], hi));
    PartFound(pages, kids, h - 1, hi, keys, |results|, end, i, part);
    JoinFound(AllRows(pages, kids, h - 1), keys, results, part, end);
    return Ok(results + part);
  }

  lemma PartFound(pages: seq<Page>, kids: seq<NodeRef>, h: nat, hi: Option<Key>, keys: seq<Key>, from: nat, to: nat,
                  i: nat,
                  part: seq<Option<Entry>>)
    requires ValidRefs(pages, kids, h, hi) && i < |kids| && from <= to <= |keys|
    requires AllFound(Rows(pages, kids[i].page, h), keys[from..to], part)
    requires i > 0 ==> forall j :: from <= j < to ==> AtMost(kids[i].minKey, keys[j])
    requires i + 1 < |kids| ==> forall j :: from <= j < to ==> Less(keys[j], kids[i + 1].minKey)
    ensures AllFound(AllRows(pages, kids, h), keys[from..to], part)
  {
    forall j | 0 <= j < to - from ensures Found(AllRows(pages, kids, h), keys[from..to][j], part[j]) {
      assert keys[from..to][j] == keys[from + j];
      OwnerHolds(pages, kids, h, hi, keys[from + j], i);
      FoundAlike(Rows(pages, kids[i].page, h), AllRows(pages, kids, h), keys[from + j], part[j]);
    }
  }

  lemma FoundAlike(a: seq<Entry>, b: seq<Entry>, k: Key, r: Option<Entry>)
    requires SameFor(a, b, k) && Found(a, k, r)
    ensures Found(b, k, r)
  {
  }

  lemma JoinFound(rows: seq<Entry>, keys: seq<Key>, results: seq<Option<Entry>>, part: seq<Option<Entry>>, end: nat)
    requires |results| <= end <= |keys|
    requires AllFound(rows, keys[..|results|], results) && AllFound(rows, keys[|results|..end], part)
    ensures AllFound(rows, keys[..end], results + part)
  {
    assert keys[..end] == keys[..|results|] + keys[|results|..end];
  }

  /** The sweep answers every key as the map does. */
  method GetMany(t: PageTree, keys: seq<Key>) returns (r: Result<seq<Option<Stamped>>, TreeError>)
    requires t.Valid() && Ascending(keys)
    ensures r.Ok? <==> t.root == 0 || keys == [] || t.height < MAX_TREE_DEPTH
    ensures r.Ok? ==> |r.value| == |keys| && forall i :: 0 <= i < |keys| ==> r.value[i] == Lookup(t.Contents(), keys[i])
  {
    ghost var rows := RowsAt(t.pages, t.root, t.height);
    HoldsRows(t.pages, t.root, t.len, t.height);
    MapOfRows(rows);
    if t.root == 0 || keys == [] {
      return Ok(seq(|keys|, _ => None));
    }
    var found :- CollectMany(t.pages, t.root, keys, 0, t.height, [], None);
    var results: seq<Option<Stamped>> := [];
    for i := 0 to |keys|
      invariant |results| == i
      invariant forall j :: 0 <= j < i ==> results[j] == Lookup(MapOf(rows), keys[j])
    {
      FoundInMap(rows, rows, keys[i], found[i]);
      results := results + [if found[i].None? then None
        else Some(Stamped(found[i].value.value, found[i].value.revision))];
    }
    return Ok(results);
  }

  // ----- Limited scans ------------------------------------------------------

  /** The slot-index segments of a leaf that a scan emits: the range resolved to index
      bounds, with the excluded prefix's own index range cut out of the middle. */
  method LeafEmitSegments(entries: seq<Entry>, start: Option<Key>, end: Option<Key>, excluded: Option<Key>)
    returns (first: nat, skipFrom: nat, skipTo: nat, last: nat)
    requires Sorted(entries)
    ensures first <= skipFrom <= skipTo <= last <= |entries|
    ensures Window(entries, start, end, excluded) == entries[first..skipFrom] + entries[skipTo..last]
  {
    first, last := 0, |entries|;
    if start.Some? { first := LeafLowerBound(entries, start.value); }
    if end.Some? {
      last := LeafLowerBound(entries, end.value);
      if last < first { last := first; }
    }
    skipFrom, skipTo := last, last;
    if excluded.Some? {
      var from := LeafLowerBound(entries, excluded.value);
      var to := |entries|;
      var successor := PrefixSuccessor(excluded.value);
      if successor.Some? { to := LeafLowerBound(entries, successor.value); }
      SkipsPrefix(entries, excluded.value, from, to);
      skipFrom, skipTo := Clamp(from, first, last), Clamp(to, first, last);
    }
    WindowSegments(entries, start, end, excluded, first, skipFrom, skipTo, last);
  }

  function Clamp(x: nat, low: nat, high: nat): nat
    requires low <= high
  {
    if x < low then low else if x > high then high else x
  }

  /** An excluded prefix is exactly one index range. */
  lemma SkipsPrefix(entries: seq<Entry>, p: Key, from: nat, to: nat)
    requires Sorted(entries) && from <= |entries| && to <= |entries|
    requires forall i :: 0 <= i < from ==> Less(entries[i].key, p)
    requires forall i :: from <= i < |entries| ==> AtMost(p, entries[i].key)
    requires match PrefixSuccessor(p) {
               case None => to == |entries|
               case Some(s) =>
                 && (forall i :: 0 <= i < to ==> Less(entries[i].key, s))
                 && (forall i :: to <= i < |entries| ==> AtMost(s, entries[i].key))
             }
    ensures from <= to
    ensures forall i :: 0 <= i < |entries| ==> (p <= entries[i].key <==> from <= i < to)
  {
    forall i | 0 <= i < |entries| ensures p <= entries[i].key <==> from <= i < to {
      PrefixIsInterval(p, entries[i].key);
    }
    if to < from {
      PrefixIsInterval(p, p);
      LessTransitive(entries[to].key, p, PrefixSuccessor(p).value);
    }
  }

  lemma WindowSegments(entries: seq<Entry>, start: Option<Key>, end: Option<Key>, excluded: Option<Key>,
                       a: nat, b: nat, c: nat, d: nat)
    requires a <= b <= c <= d <= |entries|
    requires forall i :: 0 <= i < |entries| ==>
               (Selected(entries[i].key, start, end, excluded) <==> a <= i < b || c <= i < d)
    ensures Window(entries, start, end, excluded) == entries[a..b] + entries[c..d]
  {
    hide Window, Selected;
    var ab, bc, cd, d' := entries[a..b], entries[b..c], entries[c..d], entries[d..];
    assert entries == entries[..a] + (ab + (bc + (cd + d')));
    WindowConcat(entries[..a], ab + (bc + (cd + d')), start, end, excluded);
    WindowConcat(ab, bc + (cd + d'), start, end, excluded);
    WindowConcat(bc, cd + d', start, end, excluded);
    WindowConcat(cd, d', start, end, excluded);
    WindowNone(entries[..a], start, end, excluded);
    WindowNone(bc, start, end, excluded);
    WindowNone(d', start, end, excluded);
    WindowAll(ab, start, end, excluded);
    WindowAll(cd, start, end, excluded);
  }

  method EmitSegment(entries: seq<Entry>, from: nat, to: nat, limit: nat, prefix: seq<Entry>) returns (rows: seq<Entry>)
    requires from <= to <= |entries| && |prefix| < limit
    ensures rows == Take(prefix + entries[from..to], limit)
  {
    rows := prefix;
    for index := from to to
      invariant rows == prefix + entries[from..index] && |rows| < limit
    {
      rows := rows + [entries[index]];
      assert entries[from..index + 1] == entries[from..index] + [entries[index]];
      if |rows| == limit {
        assert (prefix + entries[from..to])[..limit] == rows;
        return;
      }
    }
  }

  method ScanLeaf(entries: seq<Entry>, start: Option<Key>, end: Option<Key>, limit: nat, excluded: Option<Key>,
                  prefix: seq<Entry>)
    returns (rows: seq<Entry>)
    requires Sorted(entries) && |prefix| < limit
    ensures rows == Take(prefix + Window(entries, start, end, excluded), limit)
  {
    var first, skipFrom, skipTo, last := LeafEmitSegments(entries, start, end, excluded);
    rows := EmitSegment(entries, first, skipFrom, limit, prefix);
    ghost var a, b := entries[first..skipFrom], entries[skipTo..last];
    assert prefix + (a + b) == prefix + a + b;
    TakeAgain(prefix + a, b, limit);
    if |rows| < limit {
      rows := EmitSegment(entries, skipTo, last, limit, rows);
    }
  }

  /** Scans one subtree: the rows so far, then this subtree's selected rows, cut to the
      limit. */
  method ScanNode(pages: seq<Page>, id: nat, start: Option<Key>, end: Option<Key>, limit: nat, excluded: Option<Key>,
                  prefix: seq<Entry>, depth: nat, ghost h: nat, ghost lo: Key, ghost hi: Option<Key>)
    returns (r: Result<seq<Entry>, TreeError>)
    requires ValidNode(pages, id, h, lo, hi) && |prefix| <= limit
    ensures depth + h < MAX_TREE_DEPTH ==> r.Ok?
    ensures r.Ok? ==> r.value == Take(prefix + Window(Rows(pages, id, h), start, end, excluded), limit)
    decreases h, 2
  {
    if depth >= MAX_TREE_DEPTH {
      return Err(CorruptPage(id, "tree descent too deep"));
    }
    if |prefix| >= limit {
      return Ok(prefix);
    }
    match pages[id]
    case Leaf(entries) =>
      var rows := ScanLeaf(entries, start, end, limit, excluded, prefix);
      return Ok(rows);
    case Internal(first, cells) =>
      KidsValid(pages, id, h, lo, hi);
      r := ScanChildren(pages, first, cells, start, end, limit, excluded, prefix, depth, Kids(pages[id], lo), h, hi);
  }

  /** The rows emitted once children `..i` are behind. */
  ghost predicate ScannedTo(rows: seq<Entry>, prefix: seq<Entry>, pages: seq<Page>, kids: seq<NodeRef>, h: nat, i: nat,
                            start: Option<Key>, end: Option<Key>, limit: nat, excluded: Option<Key>) {
    i <= |kids| && rows == Take(prefix + Window(AllRows(pages, kids[..i], h), start, end, excluded), limit)
  }

  /** Walks an internal page's children in place, descending into every child whose
      range can intersect the scan, until the scan is satisfied. */
  method ScanChildren(pages: seq<Page>, first: nat, cells: seq<NodeRef>, start: Option<Key>, end: Option<Key>,
                      limit: nat,
                      excluded: Option<Key>, prefix: seq<Entry>, depth: nat,
                      ghost kids: seq<NodeRef>, ghost h: nat, ghost hi: Option<Key>)
    returns (r: Result<seq<Entry>, TreeError>)
    requires h > 0 && ValidRefs(pages, kids, h - 1, hi) && |prefix| < limit
    requires kids != [] && kids[0].page == first && kids[1..] == cells
    ensures depth + h < MAX_TREE_DEPTH ==> r.Ok?
    ensures r.Ok? ==> r.value == Take(prefix + Window(AllRows(pages, kids, h - 1), start, end, excluded), limit)
    decreases h, 1
  {
    var child, childMin: Option<Key>, rows := first, None, prefix;
    assert kids[..0] == [];
    for i := 0 to |cells|
      invariant child == kids[i].page && childMin == (if i == 0 then None else Some(kids[i].minKey))
      invariant |rows| < limit && ScannedTo(rows, prefix, pages, kids, h - 1, i, start, end, limit, excluded)
    {
      assert cells[i] == kids[i + 1];
      rows :- ScanChild(pages, child, childMin, Some(cells[i].minKey), start, end, limit, excluded, rows, depth, prefix,
          kids, i, h, hi);
      if |rows| >= limit {
        ScanFull(rows, prefix, pages, kids, h - 1, i + 1, start, end, limit, excluded);
        return Ok(rows);
      }
      child, childMin := cells[i].page, Some(cells[i].minKey);
    }
    rows :- ScanChild(pages, child, childMin, None, start, end, limit, excluded, rows, depth, prefix, kids, |cells|, h,
        hi);
    assert kids[..|cells| + 1] == kids;
    return Ok(rows);
  }

  /** Descends into one child, unless its range sits entirely below `start` or at or
      above `end`. */
  method ScanChild(pages: seq<Page>, child: nat, childMin: Option<Key>, childEnd: Option<Key>, start: Option<Key>,
                   end: Option<Key>,
                   limit: nat, excluded: Option<Key>, rows: seq<Entry>, depth: nat,
                   ghost prefix: seq<Entry>, ghost kids: seq<NodeRef>, ghost i: nat, ghost h: nat,
                       ghost hi: Option<Key>)
    returns (r: Result<seq<Entry>, TreeError>)
    requires h > 0 && ValidRefs(pages, kids, h - 1, hi) && i < |kids| && child == kids[i].page
    requires childMin == (if i == 0 then None else Some(kids[i].minKey))
    requires childEnd == (if i + 1 == |kids| then None else Some(kids[i + 1].minKey))
    requires |rows| < limit && ScannedTo(rows, prefix, pages, kids, h - 1, i, start, end, limit, excluded)
    ensures depth + h < MAX_TREE_DEPTH ==> r.Ok?
    ensures r.Ok? ==> ScannedTo(r.value, prefix, pages, kids, h - 1, i + 1, start, end, limit, excluded)
    decreases h, 0
  {
    var skip := (start.Some? && childEnd.Some? && AtMost(childEnd.value, start.value)) ||
                (end.Some? && childMin.Some? && AtMost(end.value, childMin.value));
    if skip {
      SkippedChild(pages, kids, h - 1, hi, i, start, end, excluded);
      assert rows + [] == rows;
      r := Ok(rows);
    } else {
      AtChild(pages, kids, h - 1, hi, i);
      r := ScanNode(pages, child, start, end, limit, excluded, rows, depth + 1, h - 1, kids[i].minKey,
          Upper(kids[i + 1..], hi));
    }
    if r.Ok? {
      ScanStep(rows, r.value, prefix, pages, kids, h - 1, i, start, end, limit, excluded);
    }
  }

  lemma SkippedChild(pages: seq<Page>, kids: seq<NodeRef>, h: nat, hi: Option<Key>, i: nat,
                     start: Option<Key>, end: Option<Key>, excluded: Option<Key>)
    requires ValidRefs(pages, kids, h, hi) && i < |kids|
    requires (start.Some? && i + 1 < |kids| && AtMost(kids[i + 1].minKey, start.value)) ||
             (end.Some? && AtMost(end.value, kids[i].minKey))
    ensures Window(Rows(pages, kids[i].page, h), start, end, excluded) == []
  {
    AtChild(pages, kids, h, hi, i);
    KeyOrder();
    WindowNone(Rows(pages, kids[i].page, h), start, end, excluded);
  }

  lemma ScanStep(before: seq<Entry>, rows: seq<Entry>, prefix: seq<Entry>, pages: seq<Page>, kids: seq<NodeRef>, h: nat,
                 i: nat, start: Option<Key>, end: Option<Key>, limit: nat, excluded: Option<Key>)
    requires i < |kids| && ScannedTo(before, prefix, pages, kids, h, i, start, end, limit, excluded)
    requires rows == Take(before + Window(Rows(pages, kids[i].page, h), start, end, excluded), limit)
    ensures ScannedTo(rows, prefix, pages, kids, h, i + 1, start, end, limit, excluded)
  {
    hide Window, AllRows, Rows;
    var left, here := AllRows(pages, kids[..i], h), Rows(pages, kids[i].page, h);
    assert kids[..i + 1] == kids[..i] + [kids[i]];
    AllRowsConcat(pages, kids[..i], [kids[i]], h);
    OneChild(pages, kids[i], h);
    WindowConcat(left, here, start, end, excluded);
    var wl, wh := Window(left, start, end, excluded), Window(here, start, end, excluded);
    assert prefix + (wl + wh) == prefix + wl + wh;
    TakeAgain(prefix + wl, wh, limit);
  }

  lemma ScanFull(rows: seq<Entry>, prefix: seq<Entry>, pages: seq<Page>, kids: seq<NodeRef>, h: nat,
                 i: nat, start: Option<Key>, end: Option<Key>, limit: nat, excluded: Option<Key>)
    requires ScannedTo(rows, prefix, pages, kids, h, i, start, end, limit, excluded) && |rows| >= limit
    ensures rows == Take(prefix + Window(AllRows(pages, kids, h), start, end, excluded), limit)
  {
    hide Window, AllRows;
    var left, right := AllRows(pages, kids[..i], h), AllRows(pages, kids[i..], h);
    assert kids == kids[..i] + kids[i..];
    AllRowsConcat(pages, kids[..i], kids[i..], h);
    WindowConcat(left, right, start, end, excluded);
    var wl, wr := Window(left, start, end, excluded), Window(right, start, end, excluded);
    assert prefix + (wl + wr) == prefix + wl + wr;
    TakeAgain(prefix + wl, wr, limit);
  }

  lemma OneChild(pages: seq<Page>, kid: NodeRef, h: nat)
    ensures AllRows(pages, [kid], h) == Rows(pages, kid.page, h)
  {
    assert [kid][1..] == [];
  }

  /** A limited scan returns the first rows of the map, in order. */
  method Scan(t: PageTree, start: Option<Key>, end: Option<Key>, limit: nat, excluded: Option<Key>)
    returns (r: Result<seq<Entry>, TreeError>)
    requires t.Valid()
    ensures t.root == 0 || t.height < MAX_TREE_DEPTH ==> r.Ok?
    ensures r.Ok? ==> FirstRows(r.value, limit, t.Contents(), start, end, excluded)
  {
    ghost var rows := RowsAt(t.pages, t.root, t.height);
    HoldsRows(t.pages, t.root, t.len, t.height);
    WindowIsFirst(rows, limit, start, end, excluded);
    if t.root == 0 || limit == 0 {
      return Ok([]);
    }
    r := ScanNode(t.pages, t.root, start, end, limit, excluded, [], 0, t.height, [], None);
    assert [] + Window(rows, start, end, excluded) == Window(rows, start, end, excluded);
  }

  // ----- Last key and change detection --------------------------------------

  function LastKey(rows: seq<Entry>): Option<Key> {
    if rows == [] then None else Some(rows[|rows| - 1].key)
  }

  /** The greatest key of a subtree in `[start, end)`, searched from the right. */
  method LastKeyInNode(t: PageTree, id: nat, start: Key, end: Option<Key>, depth: nat, ghost h: nat, ghost lo: Key,
                       ghost hi: Option<Key>)
    returns (r: Result<Option<Key>, TreeError>)
    requires ValidNode(t.pages, id, h, lo, hi)
    ensures depth + h < MAX_TREE_DEPTH ==> r.Ok?
    ensures r.Ok? ==> r.value == LastKey(Window(Rows(t.pages, id, h), Some(start), end, None))
    decreases h, 1
  {
    if depth >= MAX_TREE_DEPTH {
      return Err(CorruptPage(id, "tree descent too deep"));
    }
    match t.pages[id]
    case Leaf(entries) =>
      var last := LastKeyInLeaf(entries, start, end);
      return Ok(last);
    case Internal(_, _) =>
      var children :- t.DecodeInternal(id, h, lo, hi);
      var index := |children|;
      while index > 0
        invariant 0 <= index <= |children|
        invariant Window(AllRows(t.pages, children[index..], h - 1), Some(start), end, None) == []
      {
        index := index - 1;
        var found :- LastKeyInChild(t, children, index, start, end, depth, h, hi);
        LastStep(t.pages, children, h - 1, index, Some(start), end);
        if found.Some? {
          return Ok(found);
        }
      }
      assert children[0..] == children;
      return Ok(None);
  }

  /** One child's answer; a child whose range misses `[start, end)` is not read. */
  method LastKeyInChild(t: PageTree, children: seq<NodeRef>, index: nat, start: Key, end: Option<Key>, depth: nat,
                        ghost h: nat, ghost hi: Option<Key>)
    returns (r: Result<Option<Key>, TreeError>)
    requires h > 0 && ValidRefs(t.pages, children, h - 1, hi) && index < |children|
    ensures depth + h < MAX_TREE_DEPTH ==> r.Ok?
    ensures r.Ok? ==> r.value == LastKey(Window(Rows(t.pages, children[index].page, h - 1), Some(start), end, None))
    decreases h, 0
  {
    var skip := (end.Some? && AtMost(end.value, children[index].minKey)) ||
                (index + 1 < |children| && AtMost(children[index + 1].minKey, start));
    if skip {
      SkippedChild(t.pages, children, h - 1, hi, index, Some(start), end, None);
      return Ok(None);
    }
    AtChild(t.pages, children, h - 1, hi, index);
    r := LastKeyInNode(t, children[index].page, start, end, depth + 1, h - 1, children[index].minKey,
        Upper(children[index + 1..], hi));
  }

  method LastKeyInLeaf(entries: seq<Entry>, start: Key, end: Option<Key>) returns (r: Option<Key>)
    ensures r == LastKey(Window(entries, Some(start), end, None))
  {
    r := None;
    for i := 0 to |entries|
      invariant r == LastKey(Window(entries[..i], Some(start), end, None))
    {
      assert entries[..i + 1][..i] == entries[..i];
      if AtMost(start, entries[i].key) && Below(entries[i].key, end) {
        r := Some(entries[i].key);
      }
    }
    assert entries[..|entries|] == entries;
  }

  lemma LastStep(pages: seq<Page>, kids: seq<NodeRef>, h: nat, i: nat, start: Option<Key>, end: Option<Key>)
    requires i < |kids| && Window(AllRows(pages, kids[i + 1..], h), start, end, None) == []
    ensures Window(AllRows(pages, kids[i..], h), start, end, None) ==
            Window(Rows(pages, kids[i].page, h), start, end, None)
    ensures var w := Window(Rows(pages, kids[i].page, h), start, end, None);
            w != [] ==> LastKey(Window(AllRows(pages, kids, h), start, end, None)) == LastKey(w)
  {
    assert kids[i..][1..] == kids[i + 1..] && kids == kids[..i] + kids[i..];
    WindowConcat(Rows(pages, kids[i].page, h), AllRows(pages, kids[i + 1..], h), start, end, None);
    AllRowsConcat(pages, kids[..i], kids[i..], h);
    WindowConcat(AllRows(pages, kids[..i], h), AllRows(pages, kids[i..], h), start, end, None);
  }

  /** Whether some row selected by the window carries a revision past `revision`. */
  ghost predicate Changed(rows: seq<Entry>, start: Option<Key>, end: Option<Key>, excluded: Option<Key>,
                          revision: nat) {
    exists e :: e in rows && Selected(e.key, start, end, excluded) && e.revision > revision
  }

  method NodeChangedSince(t: PageTree, id: nat, start: Option<Key>, end: Option<Key>, revision: nat,
                          excluded: Option<Key>, depth: nat,
                          ghost h: nat, ghost lo: Key, ghost hi: Option<Key>)
    returns (r: Result<bool, TreeError>)
    requires ValidNode(t.pages, id, h, lo, hi)
    ensures depth + h < MAX_TREE_DEPTH ==> r.Ok?
    ensures r.Ok? ==> (r.value <==> Changed(Rows(t.pages, id, h), start, end, excluded, revision))
    decreases h, 1
  {
    if depth >= MAX_TREE_DEPTH {
      return Err(CorruptPage(id, "tree descent too deep"));
    }
    match t.pages[id]
    case Leaf(entries) =>
      var changed := exists i | 0 <= i < |entries| ::
        Selected(entries[i].key, start, end, excluded) && entries[i].revision > revision;
      return Ok(changed);
    case Internal(_, _) =>
      var children :- t.DecodeInternal(id, h, lo, hi);
      for index := 0 to |children|
        invariant !Changed(AllRows(t.pages, children[..index], h - 1), start, end, excluded, revision)
      {
        var changed :- ChildChangedSince(t, children, index, start, end, revision, excluded, depth, h, hi);
        ChangedHere(t.pages, children, h - 1, hi, index, start, end, excluded, revision);
        if changed {
          return Ok(true);
        }
        ChangedStep(t.pages, children, h - 1, index, start, end, excluded, revision);
      }
      assert children[..|children|] == children;
      return Ok(false);
  }

  method ChildChangedSince(t: PageTree, children: seq<NodeRef>, index: nat, start: Option<Key>, end: Option<Key>,
                           revision: nat,
                           excluded: Option<Key>, depth: nat, ghost h: nat, ghost hi: Option<Key>)
    returns (r: Result<bool, TreeError>)
    requires h > 0 && ValidRefs(t.pages, children, h - 1, hi) && index < |children|
    ensures depth + h < MAX_TREE_DEPTH ==> r.Ok?
    ensures r.Ok? ==> (r.value <==> Changed(Rows(t.pages, children[index].page, h - 1), start, end, excluded, revision))
    decreases h, 0
  {
    var skip := (start.Some? && index + 1 < |children| && AtMost(children[index + 1].minKey, start.value)) ||
                (end.Some? && AtMost(end.value, children[index].minKey));
    if skip {
      SkippedUnchanged(t.pages, children, h - 1, hi, index, start, end, excluded, revision);
      return Ok(false);
    }
    AtChild(t.pages, children, h - 1, hi, index);
    r := NodeChangedSince(t, children[index].page, start, end, revision, excluded, depth + 1, h - 1,
                          children[index].minKey, Upper(children[index + 1..], hi));
  }

  lemma ChangedHere(pages: seq<Page>, kids: seq<NodeRef>, h: nat, hi: Option<Key>, i: nat,
                    start: Option<Key>, end: Option<Key>, excluded: Option<Key>, revision: nat)
    requires ValidRefs(pages, kids, h, hi) && i < |kids|
    ensures Changed(Rows(pages, kids[i].page, h), start, end, excluded, revision) ==>
            Changed(AllRows(pages, kids, h), start, end, excluded, revision)
  {
    AtChild(pages, kids, h, hi, i);
  }

  lemma SkippedUnchanged(pages: seq<Page>, kids: seq<NodeRef>, h: nat, hi: Option<Key>, i: nat,
                         start: Option<Key>, end: Option<Key>, excluded: Option<Key>, revision: nat)
    requires ValidRefs(pages, kids, h, hi) && i < |kids|
    requires (start.Some? && i + 1 < |kids| && AtMost(kids[i + 1].minKey, start.value)) ||
             (end.Some? && AtMost(end.value, kids[i].minKey))
    ensures !Changed(Rows(pages, kids[i].page, h), start, end, excluded, revision)
  {
    SkippedChild(pages, kids, h, hi, i, start, end, excluded);
    forall e | e in Rows(pages, kids[i].page, h) ensures !Selected(e.key, start, end, excluded) {
      WindowMember(Rows(pages, kids[i].page, h), start, end, excluded, e);
    }
  }

  lemma ChangedStep(pages: seq<Page>, kids: seq<NodeRef>, h: nat, i: nat, start: Option<Key>, end: Option<Key>,
                    excluded: Option<Key>, revision: nat)
    requires i < |kids| && !Changed(AllRows(pages, kids[..i], h), start, end, excluded, revision)
    requires !Changed(Rows(pages, kids[i].page, h), start, end, excluded, revision)
    ensures !Changed(AllRows(pages, kids[..i + 1], h), start, end, excluded, revision)
  {
    assert kids[..i + 1] == kids[..i] + [kids[i]];
    AllRowsConcat(pages, kids[..i], [kids[i]], h);
    OneChild(pages, kids[i], h);
  }

  /** The last key of the map in `[start, end)`. */
  method LastKeyIn(t: PageTree, start: Key, end: Option<Key>) returns (r: Result<Option<Key>, TreeError>)
    requires t.Valid()
    ensures t.root == 0 || t.height < MAX_TREE_DEPTH ==> r.Ok?
    ensures r.Ok? ==> Greatest(t.Contents(), start, end, r.value)
  {
    ghost var rows := RowsAt(t.pages, t.root, t.height);
    HoldsRows(t.pages, t.root, t.len, t.height);
    if t.root == 0 {
      return Ok(None);
    }
    r := LastKeyInNode(t, t.root, start, end, 0, t.height, [], None);
    LastIsGreatest(rows, start, end);
  }

  /** `r` is the greatest key of `m` in `[start, end)`, if there is one. */
  ghost predicate Greatest(m: Store, start: Key, end: Option<Key>, r: Option<Key>) {
    && (r.Some? ==> r.value in m && AtMost(start, r.value) && Below(r.value, end))
    && forall k :: k in m && AtMost(start, k) && Below(k, end) ==> r.Some? && AtMost(k, r.value)
  }

  lemma LastIsGreatest(rows: seq<Entry>, start: Key, end: Option<Key>)
    requires Sorted(rows)
    ensures Greatest(MapOf(rows), start, end, LastKey(Window(rows, Some(start), end, None)))
  {
    var w := Window(rows, Some(start), end, None);
    MapOfRows(rows);
    WindowSorted(rows, Some(start), end, None);
    KeyOrder();
    if w != [] {
      WindowMember(rows, Some(start), end, None, w[|w| - 1]);
    }
    forall k | k in MapOf(rows) && AtMost(start, k) && Below(k, end) ensures w != [] && AtMost(k, w[|w| - 1].key) {
      var e :| e in rows && e.key == k;
      WindowMember(rows, Some(start), end, None, e);
      var i :| 0 <= i < |w| && w[i] == e;
    }
  }

  method ChangedSince(t: PageTree, start: Option<Key>, end: Option<Key>, revision: nat, excluded: Option<Key>)
    returns (r: Result<bool, TreeError>)
    requires t.Valid()
    ensures t.root == 0 || t.height < MAX_TREE_DEPTH ==> r.Ok?
    ensures r.Ok? ==> (r.value <==> StoreChanged(t.Contents(), start, end, excluded, revision))
  {
    ghost var rows := RowsAt(t.pages, t.root, t.height);
    HoldsRows(t.pages, t.root, t.len, t.height);
    ChangedInStore(rows, start, end, excluded, revision);
    if t.root == 0 {
      return Ok(false);
    }
    r := NodeChangedSince(t, t.root, start, end, revision, excluded, 0, t.height, [], None);
  }

  ghost predicate StoreChanged(m: Store, start: Option<Key>, end: Option<Key>, excluded: Option<Key>, revision: nat) {
    exists k :: k in m && Selected(k, start, end, excluded) && m[k].revision > revision
  }

  lemma ChangedInStore(rows: seq<Entry>, start: Option<Key>, end: Option<Key>, excluded: Option<Key>, revision: nat)
    requires Sorted(rows)
    ensures Changed(rows, start, end, excluded, revision) <==> StoreChanged(MapOf(rows), start, end, excluded, revision)
  {
    MapOfRows(rows);
    var m := MapOf(rows);
    if Changed(rows, start, end, excluded, revision) {
      var e :| e in rows && Selected(e.key, start, end, excluded) && e.revision > revision;
      assert e.key in m;
    }
    if StoreChanged(m, start, end, excluded, revision) {
      var k :| k in m && Selected(k, start, end, excluded) && m[k].revision > revision;
      var e :| e in rows && e.key == k;
      assert e.revision > revision;
    }
  }
}
