/** The copy-on-write B+tree: batched rewrite over an append-only page file. */
module PageTree {
  import opened Results
  import opened Keys
  import opened Pages
  import opened Packing
  import opened Mutations
  import opened Stores

  datatype TreeError = CorruptPage(page: nat, reason: string) | IoFailure

  /** The nodes `refs` at height `h` are valid and hold exactly `rows`. */
  ghost predicate Spells(pages: seq<Page>, refs: seq<NodeRef>, h: nat, hi: Option<Key>, rows: seq<Entry>) {
    ValidRefs(pages, refs, h, hi) && AllRows(pages, refs, h) == rows
  }

  lemma SpellsKept(pages: seq<Page>, more: seq<Page>, refs: seq<NodeRef>, h: nat, hi: Option<Key>, rows: seq<Entry>)
    requires pages <= more && Spells(pages, refs, h, hi, rows)
    ensures Spells(more, refs, h, hi, rows)
  {
    RefsKept(pages, more, refs, h, hi);
  }

  /** A fresh leaf is a valid node over its own entries. */
  lemma FreshLeaf(pages: seq<Page>, id: nat, chunk: seq<Entry>, hi: Option<Key>)
    requires id < |pages| && pages[id] == Leaf(chunk) && chunk != []
    requires Fits(Leaf(chunk)) && Sorted(chunk) && AllBelow(chunk, hi)
    ensures ValidNode(pages, id, 0, chunk[0].key, hi)
    ensures Rows(pages, id, 0) == chunk
  {
    KeyOrder();
  }

  /** A fresh internal page is a valid node over the children it was given. */
  lemma FreshParent(pages: seq<Page>, id: nat, chunk: seq<NodeRef>, h: nat, hi: Option<Key>)
    requires id < |pages| && chunk != [] && pages[id] == ParentOf(chunk) && Fits(ParentOf(chunk))
    requires ValidRefs(pages, chunk, h, hi)
    ensures ValidNode(pages, id, h + 1, chunk[0].minKey, hi)
    ensures Rows(pages, id, h + 1) == AllRows(pages, chunk, h)
  {
  }

  class PageTree {
    var pages: seq<Page>
    /** Pages on the file; those past it wait in the append buffer. */
    var flushed: nat
    var root: nat
    var len: nat
    ghost var height: nat

    /** A fresh page file: the super page and no root. */
    constructor ()
      ensures Valid() && Contents() == map[]
    {
      pages, flushed, root, len, height := [Super], 1, 0, 0, 0;
    }

    /** Installs a prepared root. */
    method Publish(root': nat, len': nat, ghost height': nat)
      requires Valid() && Holds(pages, root', len', height')
      modifies this`root, this`len, this`height
      ensures Valid() && Contents() == StoreAt(pages, root', height') && root == root' && len == len'
      ensures height == height'
    {
      root, len, height := root', len', height';
    }

    // ----- Writing levels --------------------------------------------------

    method Append(page: Page) returns (id: nat)
      modifies this`pages
      ensures id == |old(pages)| && pages == old(pages) + [page]
    {
      id := |pages|;
      pages := pages + [page];
    }

    method WriteLeaf(entries: seq<Entry>) returns (r: Result<NodeRef, TreeError>)
      modifies this`pages
      ensures r.Ok? <==> entries != [] && Fits(Leaf(entries))
      ensures r.Ok? ==> pages == old(pages) + [Leaf(entries)] && r.value == NodeRef(|old(pages)|, entries[0].key)
      ensures r.Err? ==> pages == old(pages)
    {
      if entries == [] {
        return Err(CorruptPage(0, "cannot write an empty leaf"));
      }
      var offset := HEADER_SIZE;
      var directory := PAGE_SIZE - |entries| * SLOT_SIZE;
      for i := 0 to |entries|
        invariant offset == HEADER_SIZE + LeafCosts(entries[..i]) - i * SLOT_SIZE
      {
        assert entries[..i + 1][..i] == entries[..i];
        offset := offset + LeafCost(entries[i]) - SLOT_SIZE;
      }
      assert entries[..|entries|] == entries;
      if offset > directory {
        return Err(CorruptPage(0, "leaf cells overlap the slot directory"));
      }
      var id := Append(Leaf(entries));
      return Ok(NodeRef(id, entries[0].key));
    }

    /** Writes sorted entries as adjacent leaves. */
    method WriteLeafLevel(entries: seq<Entry>, ghost hi: Option<Key>)
      returns (r: Result<seq<NodeRef>, TreeError>, ghost chunks: seq<seq<Entry>>)
      requires Sorted(entries) && AllBelow(entries, hi)
      modifies this`pages
      ensures old(pages) <= pages
      ensures r.Ok? <==> entries != []
      ensures r.Ok? ==> Spells(pages, r.value, 0, hi, entries)
      ensures r.Ok? ==> r.value != [] && r.value[0].minKey == entries[0].key
      ensures r.Ok? ==> PackedLeaves(chunks) && Flat(chunks) == entries && |r.value| == |chunks|
    {
      if entries == [] {
        chunks := [];
        return Err(CorruptPage(0, "cannot write an empty leaf")), chunks;
      }
      var parts := PackLeaves(entries);
      chunks := parts;
      var refs: seq<NodeRef> := [];
      for i := 0 to |parts|
        invariant old(pages) <= pages && |pages| == |old(pages)| + i
        invariant LeavesAt(pages, |old(pages)|, parts[..i], refs)
      {
        var node := WriteLeaf(parts[i]);
        refs := refs + [node.value];
      }
      assert parts[..|parts|] == parts;
      LeavesSpell(pages, |old(pages)|, parts, refs, hi);
      return Ok(refs), chunks;
    }

    method WriteInternal(refs: seq<NodeRef>) returns (r: Result<NodeRef, TreeError>)
      modifies this`pages
      ensures r.Ok? <==> refs != [] && HEADER_SIZE + CellCosts(refs[1..]) <= PAGE_SIZE
      ensures r.Ok? ==> pages == old(pages) + [ParentOf(refs)] && r.value == NodeRef(|old(pages)|, refs[0].minKey)
      ensures r.Err? ==> pages == old(pages)
    {
      if refs == [] {
        return Err(CorruptPage(0, "cannot write an empty internal page"));
      }
      var cells := refs[1..];
      var offset := HEADER_SIZE;
      var directory := PAGE_SIZE - |cells| * SLOT_SIZE;
      for i := 0 to |cells|
        invariant offset == HEADER_SIZE + CellCosts(cells[..i]) - i * SLOT_SIZE
      {
        assert cells[..i + 1][..i] == cells[..i];
        offset := offset + CellCost(cells[i].minKey) - SLOT_SIZE;
      }
      assert cells[..|cells|] == cells;
      if offset > directory {
        return Err(CorruptPage(0, "internal cells overlap the slot directory"));
      }
      var id := Append(ParentOf(refs));
      return Ok(NodeRef(id, refs[0].minKey));
    }

    /** Writes adjacent nodes under parents one level higher. Two or more nodes
        always come back as strictly fewer. */
    method WriteInternalLevel(refs: seq<NodeRef>, ghost h: nat, ghost hi: Option<Key>)
      returns (r: Result<seq<NodeRef>, TreeError>, ghost chunks: seq<seq<NodeRef>>)
      requires ValidRefs(pages, refs, h, hi)
      modifies this`pages
      ensures old(pages) <= pages
      ensures r.Ok? <==> refs != []
      ensures r.Ok? ==> Spells(pages, r.value, h + 1, hi, AllRows(old(pages), refs, h))
      ensures r.Ok? ==> r.value != [] && r.value[0].minKey == refs[0].minKey
      ensures r.Ok? ==> PackedChildren(chunks) && Flat(chunks) == refs && |r.value| == |chunks|
      ensures r.Ok? && |refs| >= 2 ==> |r.value| < |refs|
    {
      if refs == [] {
        chunks := [];
        return Err(CorruptPage(0, "cannot write an empty internal page")), chunks;
      }
      var parts := PackChildren(refs);
      chunks := parts;
      FewerParents(parts);
      var out: seq<NodeRef> := [];
      for i := 0 to |parts|
        invariant old(pages) <= pages && |pages| == |old(pages)| + i
        invariant ParentsAt(pages, |old(pages)|, parts[..i], out)
      {
        var node := WriteInternal(parts[i]);
        out := out + [node.value];
      }
      assert parts[..|parts|] == parts;
      RefsKept(old(pages), pages, refs, h, hi);
      ParentsSpell(pages, |old(pages)|, parts, out, h, hi);
      return Ok(out), chunks;
    }

    // ----- Reading nodes back ----------------------------------------------

    /** A node with its least key, found by walking its leftmost spine. */
    method Describe(id: nat, ghost h: nat, ghost lo: Key, ghost hi: Option<Key>) returns (r: Result<NodeRef, TreeError>)
      requires ValidNode(pages, id, h, lo, hi)
      ensures r.Ok? <==> h < MAX_TREE_DEPTH
      ensures r.Ok? ==> Rows(pages, id, h) != [] && r.value == NodeRef(id, Rows(pages, id, h)[0].key)
    {
      var current, depth := id, 0;
      ghost var up := hi;
      while true
        invariant 0 <= depth <= h && depth <= MAX_TREE_DEPTH
        invariant ValidNode(pages, current, h - depth, lo, up)
        invariant Rows(pages, current, h - depth) != []
                  ==> Rows(pages, id, h) != [] && Rows(pages, current, h - depth)[0] == Rows(pages, id, h)[0]
        decreases MAX_TREE_DEPTH - depth
      {
        if depth >= MAX_TREE_DEPTH {
          return Err(CorruptPage(current, "tree descent too deep"));
        }
        NodeRows(pages, current, h - depth, lo, up);
        match pages[current]
        case Leaf(entries) =>
          return Ok(NodeRef(id, entries[0].key));
        case Internal(first, cells) =>
          up := Upper(cells, up);
          current, depth := first, depth + 1;
      }
    }

    /** The children of an internal page, child 0 described by its actual least key. */
    method DecodeInternal(id: nat, ghost h: nat, ghost lo: Key, ghost hi: Option<Key>)
      returns (r: Result<seq<NodeRef>, TreeError>)
      requires ValidNode(pages, id, h, lo, hi) && h > 0
      ensures r.Ok? <==> h <= MAX_TREE_DEPTH
      ensures r.Ok? ==> Decoded(pages, id, h, lo, hi, r.value)
    {
      var first, cells := pages[id].first, pages[id].cells;
      var node :- Describe(first, h - 1, lo, Upper(cells, hi));
      DecodedChildren(pages, id, h, lo, hi, node);
      return Ok([node] + cells);
    }

    // ----- Merging underfull siblings ---------------------------------------

    /** The entries of a run of adjacent leaves. */
    method CollectEntries(run: seq<NodeRef>, ghost hi: Option<Key>) returns (entries: seq<Entry>)
      requires ValidRefs(pages, run, 0, hi)
      ensures entries == AllRows(pages, run, 0)
    {
      entries := [];
      for i := 0 to |run|
        invariant entries + AllRows(pages, run[i..], 0) == AllRows(pages, run, 0)
        invariant ValidRefs(pages, run[i..], 0, hi)
      {
        NextInRun(pages, run, i, 0, hi);
        entries := entries + pages[run[i].page].entries;
      }
      assert run[|run|..] == [];
    }

    /** The children of a run of adjacent internal pages. */
    method CollectChildren(run: seq<NodeRef>, ghost h: nat, ghost hi: Option<Key>)
      returns (r: Result<seq<NodeRef>, TreeError>)
      requires h > 0 && run != [] && ValidRefs(pages, run, h, hi)
      ensures r.Ok? <==> h <= MAX_TREE_DEPTH
      ensures r.Ok? ==> Spells(pages, r.value, h - 1, hi, AllRows(pages, run, h))
      ensures r.Ok? ==> r.value != [] && AtMost(run[0].minKey, r.value[0].minKey)
    {
      var kids: seq<NodeRef> := [];
      for i := 0 to |run|
        invariant CollectedThrough(pages, kids, run, i, h, hi)
        invariant i > 0 ==> h <= MAX_TREE_DEPTH
      {
        NextInRun(pages, run, i, h, hi);
        var more :- DecodeInternal(run[i].page, h, run[i].minKey, Upper(run[i + 1..], hi));
        CollectStep(pages, kids, more, run, i, h, hi);
        kids := kids + more;
      }
      assert run[|run|..] == [];
      return Ok(kids);
    }

    /** Re-emits the contents of a run of adjacent nodes through the packers. */
    method RewriteSiblings(run: seq<NodeRef>, ghost h: nat, ghost hi: Option<Key>)
      returns (r: Result<seq<NodeRef>, TreeError>)
      requires run != [] && ValidRefs(pages, run, h, hi)
      modifies this`pages
      ensures old(pages) <= pages
      ensures h <= MAX_TREE_DEPTH ==> r.Ok?
      ensures r.Ok? ==> Spells(pages, r.value, h, hi, AllRows(old(pages), run, h))
      ensures r.Ok? ==> r.value != [] && AtMost(run[0].minKey, r.value[0].minKey)
      ensures r.Ok? && h == 0 && Fits(Leaf(AllRows(old(pages), run, 0))) ==> |r.value| == 1
      ensures r.Ok? && h == 0 && |run| >= 2 && AllUnderfull(old(pages), run) ==> |r.value| < |run|
    {
      RefsRows(pages, run, h, hi);
      if pages[run[0].page].Leaf? {
        var entries := CollectEntries(run, hi);
        assert entries[0] in entries;
        ghost var chunks;
        r, chunks := WriteLeafLevel(entries, hi);
        if Fits(Leaf(entries)) { OneLeafPage(chunks); }
        if |run| >= 2 && AllUnderfull(old(pages), run) { FewerLeaves(old(pages), run, chunks, hi); }
      } else {
        var kids :- CollectChildren(run, h, hi);
        ghost var chunks;
        r, chunks := WriteInternalLevel(kids, h - 1, hi);
      }
    }

    method PageUsed(id: nat) returns (r: Option<nat>)
      requires id < |pages|
      ensures r == UsedBytes(pages[id])
    {
      r := UsedBytes(pages[id]);
    }

    /** Whether an underfull page of `own` used bytes and `neighbor` merge into one
        page; `right` is the pair's right member. */
    method PairFits(own: nat, neighbor: NodeRef, right: NodeRef) returns (fits: bool)
      requires neighbor.page < |pages|
      ensures fits <==> PairAllowed(own, UsedBytes(pages[neighbor.page]), right.minKey)
    {
      var bytes := PageUsed(neighbor.page);
      if bytes.None? {
        return false;
      }
      return own + bytes.value + CellCost(right.minKey) <= PAGE_SIZE + HEADER_SIZE;
    }

    /** Which children a batch left underfull. */
    method Underfull(children: seq<NodeRef>, rewritten: seq<bool>) returns (small: seq<bool>)
      requires |children| == |rewritten|
      requires forall i :: 0 <= i < |children| ==> children[i].page < |pages|
      ensures |small| == |children|
      ensures forall i :: 0 <= i < |children| ==> small[i] == (rewritten[i] && IsUnderfull(pages[children[i].page]))
    {
      small := [];
      for i := 0 to |children|
        invariant |small| == i
        invariant forall j :: 0 <= j < i ==> small[j] == (rewritten[j] && IsUnderfull(pages[children[j].page]))
      {
        var used := PageUsed(children[i].page);
        small := small + [rewritten[i] && used.Some? && used.value < UNDERFULL_BYTES];
      }
    }

    /** Picks the next run to re-emit: a maximal run of underfull children, or a lone
        one with a neighbour it fits beside, the left one taken back from `merged`. */
    method ChooseRun(merged: seq<NodeRef>, children: seq<NodeRef>, small: seq<bool>, index: nat,
                     ghost h: nat, ghost hi: Option<Key>, ghost rows: seq<Entry>)
      returns (keep: seq<NodeRef>, run: seq<NodeRef>, end: nat, merge: bool)
      requires index < |children| == |small| && SiblingsThrough(pages, merged, children, index, h, hi, rows)
      requires forall i :: 0 <= i < |children| && small[i] ==>
                 children[i].page < |pages| && IsUnderfull(pages[children[i].page])
      requires forall i :: 0 <= i < |children| ==> children[i].page < |pages|
      ensures index < end <= |children| && run != [] && keep + run == merged + children[index..end]
      ensures Covers(pages, keep + run, children, end, h, hi)
      ensures merge ==> small[index] && |run| >= 2
      ensures merge && h == 0 ==> Shrinks(pages, run)
      ensures merged == children[..index] ==> (merge <==> MergesAt(pages, children, small, index))
      ensures !merge ==> end == index + 1 && keep == merged
    {
      hide Covers, SiblingsThrough, Fits, AllRows, Rows, UsedBytes, ValidRefs, ValidNode, AllUnderfull, CellCost;
      end := index + 1;
      while small[index] && end < |children| && small[end]
        invariant index < end <= |children| && (end > index + 1 ==> small[index])
        invariant small[index] ==> forall i :: index <= i < end ==> small[i]
      {
        end := end + 1;
      }
      keep, run, merge := merged, children[index..end], small[index];
      RunCovered(pages, merged, children, index, end, h, hi, rows);
      if !merge {
        return;
      }
      if end > index + 1 {
        SmallRunShrinks(pages, children, small, index, end, h, hi, rows);
        return;
      }
      var used := PageUsed(children[index].page);
      var right := false;
      if end < |children| {
        right := PairFits(used.value, children[end], children[end]);
      }
      if right {
        end := end + 1;
        RunCovered(pages, merged, children, index, end, h, hi, rows);
        run := children[index..end];
        if h == 0 { PairShrinks(pages, keep, run, children, end, hi); }
        return;
      }
      merge := false;
      if merged != [] {
        RunValid(pages, merged, run, children, end, h, hi);
        var left := merged[|merged| - 1];
        merge := PairFits(used.value, left, children[index]);
        if merge {
          assert merged + run == merged[..|merged| - 1] + ([left] + run);
          keep, run := merged[..|merged| - 1], [left] + run;
          if h == 0 { PairShrinks(pages, keep, run, children, end, hi); }
        }
      }
    }

    /** One pass that re-emits every run of underfull children a batch produced; a
        lone underfull child absorbs one neighbour when the pair fits a page. */
    method MergeUnderfull(children: seq<NodeRef>, rewritten: seq<bool>, ghost h: nat, ghost hi: Option<Key>)
      returns (r: Result<seq<NodeRef>, TreeError>)
      requires children != [] && |children| == |rewritten| && ValidRefs(pages, children, h, hi)
      modifies this`pages
      ensures old(pages) <= pages
      ensures h <= MAX_TREE_DEPTH ==> r.Ok?
      ensures r.Ok? ==> Spells(pages, r.value, h, hi, AllRows(old(pages), children, h))
      ensures r.Ok? ==> r.value != [] && AtMost(children[0].minKey, r.value[0].minKey)
      ensures r.Ok? && h == 0 ==> |r.value| <= |children|
      ensures r.Ok? && h == 0 && (exists i :: 0 <= i < |children| && PairsUp(old(pages), children, rewritten, i)) ==>
                |r.value| < |children|
    {
      hide Covers, Fits, AllRows, Rows, UsedBytes, ValidRefs, ValidNode, AllUnderfull, PairsUp, MergesAt, IsUnderfull,
           Less;
      KeyOrder();
      if |children| < 2 || true !in rewritten {
        NothingPairsUp(pages, children, rewritten);
        return Ok(children);
      }
      RefsInFile(pages, children, h, hi);
      var small := Underfull(children, rewritten);
      ghost var rows := AllRows(pages, children, h);
      var merged: seq<NodeRef> := [];
      var index := 0;
      MergeStart(pages, children, h, hi);
      ghost var shrunk := false;
      while index < |children|
        invariant 0 <= index <= |children| && old(pages) <= pages
        invariant SiblingsThrough(pages, merged, children, index, h, hi, rows)
        invariant h == 0 && shrunk ==> |merged| < index
        invariant !shrunk ==> merged == children[..index] && pages == old(pages) && forall j :: 0 <= j < index ==>
                    !MergesAt(pages, children, small, j)
      {
        var keep, run, end, merge := ChooseRun(merged, children, small, index, h, hi, rows);
        ghost var before := pages;
        RunValid(pages, keep, run, children, end, h, hi);
        var out := run;
        if merge {
          out :- RewriteSiblings(run, h, Upper(children[end..], hi));
        }
        MergeStep(before, pages, keep, run, out, children, end, h, hi, rows);
        assert !merge && !shrunk ==> merged + children[index..end] == children[..end];
        merged, index, shrunk := keep + out, end, shrunk || merge;
      }
      assert children[index..] == [] && children[..index] == children;
      if !shrunk { NonePairsUp(pages, children, rewritten, small); }
      return Ok(merged);
    }

    // ----- Batched rewrite --------------------------------------------------

    /** Rewrites one subtree for the mutations that fall inside it. The nodes that
        replace it are none when the subtree became empty, several when it split,
        and one level lower when a root was left with a single child. */
    method ApplyNode(id: nat, muts: seq<Prepared>, isRoot: bool, before: seq<bool>, depth: nat,
                     ghost h: nat, ghost lo: Key, ghost hi: Option<Key>)
      returns (r: Result<seq<NodeRef>, TreeError>, existed: seq<bool>, ghost h': nat)
      requires ValidNode(pages, id, h, lo, hi)
      requires muts != [] && KeySorted(muts) && DistinctIndexes(muts, |before|) && KeysWithin(muts, lo, hi)
      modifies this`pages
      ensures old(pages) <= pages
      ensures r.Ok? <==> depth + h < MAX_TREE_DEPTH
      ensures r.Ok? ==> Rewritten(old(pages), id, h, muts, pages, r.value, h', lo, hi)
      ensures r.Ok? ==> Recorded(Rows(old(pages), id, h), muts, before, existed)
      ensures h' <= h && (!isRoot ==> h' == h)
      decreases MAX_TREE_DEPTH - depth, 2
    {
      hide Applied, Recorded, KeySorted, DistinctIndexes, Rows, AllRows, Sorted;
      existed, h' := before, h;
      if depth >= MAX_TREE_DEPTH {
        return Err(CorruptPage(id, "tree descent too deep")), existed, h';
      }
      NodeRows(pages, id, h, lo, hi);
      NoRows(pages, h);
      match pages[id]
      case Leaf(entries) =>
        LeafRows(pages, id, h, lo, hi);
        var merged;
        merged, existed := MergeEntries(entries, muts, before);
        AppliedBounds(entries, muts, merged, lo, hi);
        if merged == [] {
          return Ok([]), existed, h';
        }
        assert merged[0] in merged;
        ghost var chunks;
        r, chunks := WriteLeafLevel(merged, hi);
      case Internal(_, _) =>
        var decoded := DecodeInternal(id, h, lo, hi);
        if decoded.Err? {
          return Err(decoded.error), existed, h';
        }
        var applied, rewritten;
        applied, rewritten, existed := ApplyChildren(decoded.value, muts, before, depth, id, h, lo, hi);
        if applied.Err? {
          return applied, existed, h';
        }
        if applied.value == [] {
          NoRows(pages, h);
          NoRows(pages, h - 1);
          return applied, existed, h';
        }
        var merged := MergeUnderfull(applied.value, rewritten, h - 1, hi);
        KeyOrder();
        if isRoot && |merged.value| == 1 {
          return merged, existed, h - 1;
        }
        ghost var chunks;
        r, chunks := WriteInternalLevel(merged.value, h - 1, hi);
    }

    /** Routes the mutations to the children that own them and rewrites those. */
    method ApplyChildren(children: seq<NodeRef>, muts: seq<Prepared>, before: seq<bool>, depth: nat,
                         ghost id: nat, ghost h: nat, ghost lo: Key, ghost hi: Option<Key>)
      returns (r: Result<seq<NodeRef>, TreeError>, rewritten: seq<bool>, existed: seq<bool>)
      requires Decoded(pages, id, h, lo, hi, children)
      requires muts != [] && KeySorted(muts) && DistinctIndexes(muts, |before|) && KeysWithin(muts, lo, hi)
      requires depth < MAX_TREE_DEPTH
      modifies this`pages
      ensures old(pages) <= pages
      ensures r.Ok? <==> depth + h < MAX_TREE_DEPTH
      ensures r.Ok? ==> Rewritten(old(pages), id, h, muts, pages, r.value, h - 1, lo, hi)
      ensures r.Ok? ==> |rewritten| == |r.value|
      ensures r.Ok? ==> Recorded(Rows(old(pages), id, h), muts, before, existed)
      decreases MAX_TREE_DEPTH - depth, 1
    {
      var out: seq<NodeRef> := [];
      rewritten, existed := [], before;
      var cursor := 0;
      ghost var rows := Rows(pages, id, h);
      ChildrenStart(pages, children, muts, before, id, h, lo, hi);
      for index := 0 to |children|
        invariant old(pages) <= pages
        invariant 0 <= cursor
        invariant ChildrenThrough(pages, out, existed, children, index, muts, cursor, h, lo, hi, rows, before)
        invariant |rewritten| == |out|
        invariant cursor > 0 ==> depth + h < MAX_TREE_DEPTH
      {
        var end := |muts|;
        if index + 1 < |children| {
          end := SplitPoint(muts, cursor, children[index + 1].minKey);
        }
        var part, flags, existed' := ApplyChild(children, index, muts, cursor, end, existed, depth, out, id, h, lo, hi,
            rows, before);
        if part.Err? {
          return part, rewritten, existed;
        }
        out, rewritten, existed, cursor := out + part.value, rewritten + flags, existed', end;
      }
      assert muts[..cursor] == muts && children[..|children|] == children;
      return Ok(out), rewritten, existed;
    }

    /** Rewrites one child for its slice of the mutations, or keeps it untouched when
        the slice is empty. */
    method ApplyChild(children: seq<NodeRef>, index: nat, muts: seq<Prepared>, cursor: nat, end: nat,
                      recorded: seq<bool>, depth: nat,
                      ghost out: seq<NodeRef>, ghost id: nat, ghost h: nat, ghost lo: Key, ghost hi: Option<Key>,
                      ghost rows: seq<Entry>, ghost before: seq<bool>)
      returns (r: Result<seq<NodeRef>, TreeError>, rewritten: seq<bool>, existed: seq<bool>)
      requires index < |children| && depth < MAX_TREE_DEPTH && KeySorted(muts) && DistinctIndexes(muts, |before|)
      requires ChildrenThrough(pages, out, recorded, children, index, muts, cursor, h, lo, hi, rows, before)
      requires SplitAt(children, index, muts, cursor, end) && KeysWithin(muts, lo, hi)
      modifies this`pages
      ensures old(pages) <= pages
      ensures r.Err? ==> depth + h >= MAX_TREE_DEPTH
      ensures r.Ok? ==>
                ChildrenThrough(pages, out + r.value, existed, children, index + 1, muts, end, h, lo, hi, rows, before)
      ensures r.Ok? ==> |rewritten| == |r.value| && (end > cursor ==> depth + h < MAX_TREE_DEPTH)
      ensures r.Ok? && end == cursor ==> r.value == [children[index]] && rewritten == [false] && pages == old(pages)
      ensures r.Ok? && end > cursor ==> rewritten == seq(|r.value|, _ => true)
      decreases MAX_TREE_DEPTH - depth, 0
    {
      existed := recorded;
      ghost var childLo := if index == 0 then lo else children[index].minKey;
      ghost var next := Upper(children[index + 1..], hi);
      SliceWithin(pages, out, existed, children, index, muts, cursor, end, h, lo, hi, rows, before);
      if end == cursor {
        UntouchedChild(pages, children, index, muts, cursor, existed, h, lo, hi);
        ChildStep(pages, pages, out, [children[index]], existed, existed, children, index, muts, cursor, end, h, lo, hi,
          rows, before);
        return Ok([children[index]]), [false], existed;
      }
      ghost var ph;
      r, existed, ph := ApplyNode(children[index].page, muts[cursor..end], false, existed, depth + 1, h - 1, childLo,
        next);
      if r.Err? {
        return r, [], existed;
      }
      ChildStep(old(pages), pages, out, r.value, recorded, existed, children, index, muts, cursor, end, h, lo, hi, rows,
        before);
      rewritten := seq(|r.value|, _ => true);
    }

    // ----- The public mutation ----------------------------------------------

    ghost predicate Valid()
      reads this
    {
      && pages != [] && pages[0] == Super && flushed == |pages|
      && Holds(pages, root, len, height)
    }

    ghost function Contents(): Store
      reads this
    {
      StoreAt(pages, root, height)
    }

    /** Applies a whole batch in one copy-on-write pass. The new root holds the batch
        applied, in order, to the old contents; the old root still holds what it
        held; and a failed batch leaves the page file as it found it. `io` says
        whether the final write reaches the file. */
    method PrepareBatch(edits: seq<Edit>, io: bool) returns (r: Result<(nat, nat), TreeError>, ghost h': nat)
      requires Valid()
      modifies this`pages, this`flushed
      ensures Valid() && Contents() == old(Contents()) && old(pages) <= pages
      ensures r.Ok? <==> io && (root == 0 || edits == [] || height < MAX_TREE_DEPTH)
      ensures r.Err? ==> pages == old(pages)
      ensures r.Ok? ==>
                Holds(pages, r.value.0, r.value.1, h') &&
                StoreAt(pages, r.value.0, h') == ApplyEdits(old(Contents()), edits)
    {
      r, h' := PrepareBatchInner(edits);
      if r.Ok? && io {
        flushed := |pages|;
      } else {
        if r.Ok? { r := Err(IoFailure); }
        pages := pages[..flushed];
        assert pages == old(pages);
      }
      HoldsKept(old(pages), pages, root, len, height);
    }

    method PrepareBatchInner(edits: seq<Edit>) returns (r: Result<(nat, nat), TreeError>, ghost h': nat)
      requires Valid()
      modifies this`pages
      ensures old(pages) <= pages
      ensures r.Ok? <==> root == 0 || edits == [] || height < MAX_TREE_DEPTH
      ensures r.Ok? ==>
                Holds(pages, r.value.0, r.value.1, h') &&
                StoreAt(pages, r.value.0, h') == ApplyEdits(old(Contents()), edits)
    {
      h' := height;
      if edits == [] {
        return Ok((root, len)), h';
      }
      ghost var rows := RowsAt(pages, root, height);
      HoldsRows(pages, root, len, height);
      var prepared := StableSort(Prepare(edits));
      SortedPrepared(edits);
      var nodes, existed;
      nodes, existed, h' := RewriteRoot(prepared, |edits|);
      if nodes.Err? {
        return Err(nodes.error), h';
      }
      var top;
      top, h' := Raise(nodes.value, h', rows, prepared);
      var root', len' := Finish(top, h', prepared, existed, rows, edits);
      return Ok((root', len')), h';
    }

    /** The new root and entry count: the old count plus the batch's delta. */
    method Finish(top: seq<NodeRef>, ghost h: nat, prepared: seq<Prepared>, existed: seq<bool>, ghost rows: seq<Entry>,
                  ghost edits: seq<Edit>)
      returns (root': nat, len': nat)
      requires Grown(pages, top, h, rows, prepared) && |top| <= 1 && (top != [] ==> top[0].page != 0)
      requires Sorted(rows) && |rows| == len && KeySorted(prepared)
      requires Recorded(rows, prepared, seq(|edits|, _ => false), existed)
      requires ApplyAll(MapOf(rows), prepared) == ApplyEdits(MapOf(rows), edits)
      ensures Holds(pages, root', len', h) && StoreAt(pages, root', h) == ApplyEdits(MapOf(rows), edits)
    {
      MapOfRows(rows);
      var delta := CountDelta(prepared, existed, MapOf(rows));
      GrownHolds(pages, top, h, rows, prepared, edits, delta);
      if top == [] {
        return 0, 0;
      }
      return top[0].page, len + delta;
    }

    /** Absorbs a sorted batch into the tree, or into a first level of leaves. */
    method RewriteRoot(prepared: seq<Prepared>, n: nat)
      returns (r: Result<seq<NodeRef>, TreeError>, existed: seq<bool>, ghost h': nat)
      requires Valid() && prepared != [] && KeySorted(prepared) && DistinctIndexes(prepared, n)
      modifies this`pages
      ensures old(pages) <= pages
      ensures r.Ok? <==> root == 0 || height < MAX_TREE_DEPTH
      ensures r.Ok? ==> Grown(pages, r.value, h', RowsAt(old(pages), root, height), prepared)
      ensures r.Ok? ==> Recorded(RowsAt(old(pages), root, height), prepared, seq(n, _ => false), existed)
    {
      existed := seq(n, _ => false);
      if root != 0 {
        AllWithin(prepared);
        r, existed, h' := ApplyNode(root, prepared, true, existed, 0, height, [], None);
        return;
      }
      var entries;
      entries, existed := MergeEntries([], prepared, existed);
      h' := 0;
      if entries == [] {
        return Ok([]), existed, h';
      }
      var level, chunks := WriteLeafLevel(entries, None);
      return level, existed, h';
    }

    /** Builds levels until one node is left; each level is strictly smaller. */
    method Raise(start: seq<NodeRef>, ghost h: nat, ghost rows: seq<Entry>, ghost muts: seq<Prepared>)
      returns (nodes: seq<NodeRef>, ghost h': nat)
      requires pages != [] && pages[0] == Super && Grown(pages, start, h, rows, muts)
      modifies this`pages
      ensures old(pages) <= pages && |nodes| <= 1
      ensures Grown(pages, nodes, h', rows, muts)
      ensures nodes != [] ==> nodes[0].page != 0
    {
      nodes, h' := start, h;
      while |nodes| > 1
        invariant old(pages) <= pages
        invariant Grown(pages, nodes, h', rows, muts)
        decreases |nodes|
      {
        var level, chunks := WriteInternalLevel(nodes, h', None);
        nodes, h' := level.value, h' + 1;
      }
      assert nodes != [] ==> ValidNode(pages, nodes[0].page, h', nodes[0].minKey, Upper(nodes[1..], None));
    }
  }

  // ----- Roots and their contents -----------------------------------------

  ghost function RowsAt(pages: seq<Page>, root: nat, h: nat): seq<Entry> {
    if root == 0 then [] else Rows(pages, root, h)
  }

  ghost function StoreAt(pages: seq<Page>, root: nat, h: nat): Store {
    MapOf(RowsAt(pages, root, h))
  }

  /** `root` names a valid tree with `len` entries; root 0 is the empty tree. */
  ghost predicate Holds(pages: seq<Page>, root: nat, len: nat, h: nat) {
    && (root != 0 ==> ValidNode(pages, root, h, [], None))
    && len == |StoreAt(pages, root, h)|
  }

  lemma HoldsRows(pages: seq<Page>, root: nat, len: nat, h: nat)
    requires Holds(pages, root, len, h)
    ensures Sorted(RowsAt(pages, root, h)) && |RowsAt(pages, root, h)| == len
  {
    if root != 0 {
      NodeRows(pages, root, h, [], None);
    }
    MapOfRows(RowsAt(pages, root, h));
  }

  lemma HoldsKept(pages: seq<Page>, more: seq<Page>, root: nat, len: nat, h: nat)
    requires pages <= more && Holds(pages, root, len, h)
    ensures Holds(more, root, len, h) && StoreAt(more, root, h) == StoreAt(pages, root, h)
  {
    if root != 0 {
      NodeKept(pages, more, root, h, [], None);
    }
  }

  /** Nodes that hold the old rows with the batch applied. */
  ghost predicate Grown(pages: seq<Page>, nodes: seq<NodeRef>, h: nat, rows: seq<Entry>, muts: seq<Prepared>) {
    && ValidRefs(pages, nodes, h, None)
    && Applied(rows, muts, AllRows(pages, nodes, h))
  }

  lemma SortedPrepared(edits: seq<Edit>)
    ensures var p := StableSort(Prepare(edits));
            KeySorted(p) && DistinctIndexes(p, |edits|) && |p| == |edits|
    ensures forall m: Store :: ApplyAll(m, StableSort(Prepare(edits))) == ApplyEdits(m, edits)
  {
    var p, q := StableSort(Prepare(edits)), Prepare(edits);
    StableSortIs(q);
    forall m: Store ensures ApplyAll(m, p) == ApplyEdits(m, edits) {
      SortedBatch(m, q);
      PrepareApplies(m, edits);
    }
    assert |p| == |multiset(p)| == |multiset(q)| == |q|;
    StableSortDistinct(q, |edits|);
  }

  lemma AllWithin(muts: seq<Prepared>)
    ensures KeysWithin(muts, [], None)
  {
  }

  lemma GrownHolds(pages: seq<Page>, nodes: seq<NodeRef>, h: nat, rows: seq<Entry>, muts: seq<Prepared>,
                   edits: seq<Edit>, delta: int)
    requires Grown(pages, nodes, h, rows, muts) && |nodes| <= 1 && Sorted(rows)
    requires nodes != [] ==> nodes[0].page != 0
    requires ApplyAll(MapOf(rows), muts) == ApplyEdits(MapOf(rows), edits)
    requires |ApplyAll(MapOf(rows), muts)| == |MapOf(rows)| + delta
    ensures var root := if nodes == [] then 0 else nodes[0].page;
            && StoreAt(pages, root, h) == ApplyEdits(MapOf(rows), edits)
            && |rows| + delta >= 0
            && Holds(pages, root, if nodes == [] then 0 else |rows| + delta, h)
  {
    var after := AllRows(pages, nodes, h);
    RefsRows(pages, nodes, h, None);
    AppliedIsApplyAll(rows, muts, after);
    MapOfRows(rows);
    if nodes == [] {
      assert after == [];
    } else {
      RootOf(pages, nodes[0], h);
      assert nodes == [nodes[0]];
    }
  }

  lemma RootOf(pages: seq<Page>, node: NodeRef, h: nat)
    requires ValidRefs(pages, [node], h, None)
    ensures ValidNode(pages, node.page, h, [], None)
    ensures AllRows(pages, [node], h) == Rows(pages, node.page, h)
  {
    assert [node][1..] == [];
    NodeRows(pages, node.page, h, node.minKey, None);
    NodeRebound(pages, node.page, h, node.minKey, None, [], None);
  }

  /** The first mutation at or past `bound`. */
  method SplitPoint(muts: seq<Prepared>, from: nat, bound: Key) returns (end: nat)
    requires from <= |muts| && KeySorted(muts)
    ensures from <= end <= |muts|
    ensures forall i :: from <= i < end ==> Less(muts[i].key, bound)
    ensures forall i :: end <= i < |muts| ==> AtMost(bound, muts[i].key)
  {
    end := from;
    while end < |muts| && Less(muts[end].key, bound)
      invariant from <= end <= |muts|
      invariant forall i :: from <= i < end ==> Less(muts[i].key, bound)
    {
      end := end + 1;
    }
    KeyOrder();
  }

  /** Children `[..index]` have absorbed the mutations `[..cursor]`; the remaining
      children are as they were. */
  ghost predicate ChildrenThrough(pages: seq<Page>, out: seq<NodeRef>, existed: seq<bool>,
                                  children: seq<NodeRef>, index: nat, muts: seq<Prepared>, cursor: nat,
                                  h: nat, lo: Key, hi: Option<Key>, rows: seq<Entry>, before: seq<bool>)
  {
    && h > 0 && index <= |children| && cursor <= |muts| && children != []
    && Spells(pages, children, h - 1, hi, rows)
    && ValidNode(pages, children[0].page, h - 1, lo, Upper(children[1..], hi)) && AtMost(lo, children[0].minKey)
    && ValidRefs(pages, out, h - 1, Upper(children[index..], hi))
    && (out != [] ==> AtMost(lo, out[0].minKey))
    && Applied(AllRows(pages, children[..index], h - 1), muts[..cursor], AllRows(pages, out, h - 1))
    && Recorded(rows, muts[..cursor], before, existed)
    && (index == 0 ==> cursor == 0 && out == [])
    && (index == |children| ==> cursor == |muts|)
    && (forall x :: 0 <= x < cursor ==> Below(muts[x].key, Upper(children[index..], hi)))
    && (0 < index < |children| ==> forall x :: cursor <= x < |muts| ==> AtMost(children[index].minKey, muts[x].key))
  }

  ghost predicate KeysWithin(muts: seq<Prepared>, lo: Key, hi: Option<Key>) {
    forall i :: 0 <= i < |muts| ==> AtMost(lo, muts[i].key) && Below(muts[i].key, hi)
  }

  lemma NoRows(pages: seq<Page>, h: nat)
    ensures AllRows(pages, [], h) == [] && ValidRefs(pages, [], h, None)
  {
  }

  lemma LeafRows(pages: seq<Page>, id: nat, h: nat, lo: Key, hi: Option<Key>)
    requires ValidNode(pages, id, h, lo, hi) && pages[id].Leaf?
    ensures Rows(pages, id, h) == pages[id].entries && Sorted(pages[id].entries)
  {
  }

  /** `refs` replace node `id`: valid, inside its bounds, and holding exactly its
      rows with the mutations applied. */
  ghost predicate Rewritten(before: seq<Page>, id: nat, h: nat, muts: seq<Prepared>,
                            pages: seq<Page>, refs: seq<NodeRef>, h': nat, lo: Key, hi: Option<Key>)
  {
    && ValidRefs(pages, refs, h', hi)
    && (refs != [] ==> AtMost(lo, refs[0].minKey))
    && Applied(Rows(before, id, h), muts, AllRows(pages, refs, h'))
  }

  lemma ChildrenStart(pages: seq<Page>, children: seq<NodeRef>, muts: seq<Prepared>, before: seq<bool>,
                      id: nat, h: nat, lo: Key, hi: Option<Key>)
    requires Decoded(pages, id, h, lo, hi, children)
    ensures ChildrenThrough(pages, [], before, children, 0, muts, 0, h, lo, hi, Rows(pages, id, h), before)
  {
    assert children[..0] == [] && muts[..0] == [];
  }

  /** The mutations routed to child `index` lie inside that child's bounds. */
  lemma SliceWithin(pages: seq<Page>, out: seq<NodeRef>, existed: seq<bool>, children: seq<NodeRef>, index: nat,
                    muts: seq<Prepared>, cursor: nat, end: nat, h: nat, lo: Key, hi: Option<Key>,
                    rows: seq<Entry>, before: seq<bool>)
    requires index < |children|
    requires ChildrenThrough(pages, out, existed, children, index, muts, cursor, h, lo, hi, rows, before)
    requires KeySorted(muts) && KeysWithin(muts, lo, hi) && DistinctIndexes(muts, |before|)
    requires cursor <= end <= |muts|
    requires index + 1 == |children| ==> end == |muts|
    requires index + 1 < |children| ==> forall i :: cursor <= i < end ==> Less(muts[i].key, children[index + 1].minKey)
    ensures var childLo := if index == 0 then lo else children[index].minKey;
            var next := Upper(children[index + 1..], hi);
            && ValidNode(pages, children[index].page, h - 1, childLo, next)
            && KeysWithin(muts[cursor..end], childLo, next)
    ensures KeySorted(muts[cursor..end]) && DistinctIndexes(muts[cursor..end], |existed|)
  {
    SplitRefs(pages, children, index, h - 1, hi);
    NextInRun(pages, children, index, h - 1, hi);
  }

  lemma UntouchedChild(pages: seq<Page>, children: seq<NodeRef>, index: nat, muts: seq<Prepared>, cursor: nat,
                       existed: seq<bool>, h: nat, lo: Key, hi: Option<Key>)
    requires h > 0 && index < |children| && ValidRefs(pages, children, h - 1, hi) && cursor <= |muts|
    ensures Spells(pages, [children[index]], h - 1, Upper(children[index + 1..], hi),
            Rows(pages, children[index].page, h - 1))
    ensures Applied(Rows(pages, children[index].page, h - 1), muts[cursor..cursor],
            Rows(pages, children[index].page, h - 1))
    ensures Recorded(Rows(pages, children[index].page, h - 1), muts[cursor..cursor], existed, existed)
    ensures AtMost(children[index].minKey, children[index].minKey)
  {
    KeyOrder();
    SplitRefs(pages, children, index, h - 1, hi);
    NextInRun(pages, children, index, h - 1, hi);
    assert [children[index]][1..] == [];
  }

  /** One child done: its replacements join the list, its mutations join the prefix. */
  lemma ChildStep(prior: seq<Page>, pages: seq<Page>, out: seq<NodeRef>, part: seq<NodeRef>,
                  existed: seq<bool>, existed': seq<bool>, children: seq<NodeRef>, index: nat,
                  muts: seq<Prepared>, cursor: nat, end: nat, h: nat, lo: Key, hi: Option<Key>,
                  rows: seq<Entry>, before: seq<bool>)
    requires prior <= pages && index < |children|
    requires ChildrenThrough(prior, out, existed, children, index, muts, cursor, h, lo, hi, rows, before)
    requires KeySorted(muts) && KeysWithin(muts, lo, hi) && DistinctIndexes(muts, |before|)
    requires SplitAt(children, index, muts, cursor, end)
    requires ValidRefs(pages, part, h - 1, Upper(children[index + 1..], hi))
    requires part != [] ==> AtMost(if index == 0 then lo else children[index].minKey, part[0].minKey)
    requires Applied(Rows(prior, children[index].page, h - 1), muts[cursor..end], AllRows(pages, part, h - 1))
    requires Recorded(Rows(prior, children[index].page, h - 1), muts[cursor..end], existed, existed')
    ensures ChildrenThrough(pages, out + part, existed', children, index + 1, muts, end, h, lo, hi, rows, before)
  {
    hide Applied, Recorded, Rows, AllRows, KeySorted, DistinctIndexes;
    KeyOrder();
    ChildStepRows(prior, pages, out, part, children, index, muts, cursor, end, h, lo, hi);
    ChildStepRecorded(prior, existed, existed', children, index, muts, cursor, end, h, lo, hi, before);
    SpellsKept(prior, pages, children, h - 1, hi, rows);
    NodeKept(prior, pages, children[0].page, h - 1, lo, Upper(children[1..], hi));
    ChildBetween(prior, children, index, h - 1, hi);
  }

  lemma ChildStepRecorded(prior: seq<Page>, existed: seq<bool>, existed': seq<bool>, children: seq<NodeRef>, index: nat,
                          muts: seq<Prepared>, cursor: nat, end: nat, h: nat, lo: Key, hi: Option<Key>,
                          before: seq<bool>)
    requires h > 0 && SplitAt(children, index, muts, cursor, end) && ValidRefs(prior, children, h - 1, hi)
    requires index > 0 ==> forall x :: cursor <= x < |muts| ==> AtMost(children[index].minKey, muts[x].key)
    requires DistinctIndexes(muts, |before|)
    requires Recorded(AllRows(prior, children, h - 1), muts[..cursor], before, existed)
    requires Recorded(Rows(prior, children[index].page, h - 1), muts[cursor..end], existed, existed')
    ensures Recorded(AllRows(prior, children, h - 1), muts[..end], before, existed')
  {
    hide Recorded, Rows, AllRows;
    assert muts[..end] == muts[..cursor] + muts[cursor..end];
    ChildHasKey(prior, children, index, muts, cursor, end, h, lo, hi);
    RecordedJoin(AllRows(prior, children, h - 1), Rows(prior, children[index].page, h - 1), muts[..cursor],
                 muts[cursor..end], before, existed, existed');
  }

  /** `[cursor, end)` are the mutations child `index` owns. */
  ghost predicate SplitAt(children: seq<NodeRef>, index: nat, muts: seq<Prepared>, cursor: nat, end: nat) {
    && index < |children| && cursor <= end <= |muts|
    && (index + 1 == |children| ==> end == |muts|)
    && (index + 1 < |children| ==>
          && (forall i :: cursor <= i < end ==> Less(muts[i].key, children[index + 1].minKey))
          && (forall i :: end <= i < |muts| ==> AtMost(children[index + 1].minKey, muts[i].key)))
  }

  lemma ChildStepRows(prior: seq<Page>, pages: seq<Page>, out: seq<NodeRef>, part: seq<NodeRef>,
                      children: seq<NodeRef>, index: nat, muts: seq<Prepared>, cursor: nat, end: nat,
                      h: nat, lo: Key, hi: Option<Key>)
    requires prior <= pages && h > 0 && SplitAt(children, index, muts, cursor, end)
    requires ValidRefs(prior, children, h - 1, hi)
    requires ValidRefs(prior, out, h - 1, Some(children[index].minKey)) && (out != [] ==> AtMost(lo, out[0].minKey))
    requires Applied(AllRows(prior, children[..index], h - 1), muts[..cursor], AllRows(prior, out, h - 1))
    requires index == 0 ==> cursor == 0 && out == []
    requires forall x :: 0 <= x < cursor ==> Less(muts[x].key, children[index].minKey)
    requires index > 0 ==> forall x :: cursor <= x < |muts| ==> AtMost(children[index].minKey, muts[x].key)
    requires ValidRefs(pages, part, h - 1, Upper(children[index + 1..], hi))
    requires part != [] ==> AtMost(if index == 0 then lo else children[index].minKey, part[0].minKey)
    requires Applied(Rows(prior, children[index].page, h - 1), muts[cursor..end], AllRows(pages, part, h - 1))
    ensures ValidRefs(pages, out + part, h - 1, Upper(children[index + 1..], hi))
    ensures Applied(AllRows(pages, children[..index + 1], h - 1), muts[..end], AllRows(pages, out + part, h - 1))
    ensures Below(children[index].minKey, Upper(children[index + 1..], hi))
  {
    hide Applied, Rows;
    var child, left, next := children[index], children[..index], Upper(children[index + 1..], hi);
    assert children[..index + 1] == left + [child] && muts[..end] == muts[..cursor] + muts[cursor..end];
    ChildBetween(prior, children, index, h - 1, hi);
    RowsThrough(prior, pages, children, index, h - 1, hi);
    RefsKept(prior, pages, out, h - 1, Some(child.minKey));
    OutBelow(pages, out, part, child, h - 1, lo, next, index == 0);
    JoinRefs(pages, out, part, h - 1, Some(child.minKey), next);
    if index == 0 {
      assert muts[..end] == muts[cursor..end] && out + part == part && left == [];
      assert [] + Rows(prior, child.page, h - 1) == Rows(prior, child.page, h - 1);
    } else {
      AppliedJoin(AllRows(prior, left, h - 1), muts[..cursor], AllRows(pages, out, h - 1),
                  Rows(prior, child.page, h - 1), muts[cursor..end], AllRows(pages, part, h - 1), child.minKey);
    }
  }

  lemma OutBelow(pages: seq<Page>, out: seq<NodeRef>, part: seq<NodeRef>, child: NodeRef, h: nat,
                 lo: Key, next: Option<Key>, first: bool)
    requires ValidRefs(pages, out, h, Some(child.minKey)) && (first ==> out == [])
    requires Below(child.minKey, next)
    requires part != [] ==> AtMost(if first then lo else child.minKey, part[0].minKey)
    ensures AllBelow(AllRows(pages, out, h), Upper(part, next))
  {
    KeyOrder();
    RefsRows(pages, out, h, Some(child.minKey));
  }

  lemma RowsThrough(prior: seq<Page>, pages: seq<Page>, children: seq<NodeRef>, index: nat, h: nat, hi: Option<Key>)
    requires prior <= pages && index < |children| && ValidRefs(prior, children, h, hi)
    ensures AllRows(pages, children[..index + 1], h) ==
            AllRows(prior, children[..index], h) + Rows(prior, children[index].page, h)
  {
    var left, child := children[..index], children[index];
    assert children[..index + 1] == left + [child] && [child][1..] == [];
    ChildBetween(prior, children, index, h, hi);
    RefsKept(prior, pages, left, h, Some(child.minKey));
    NodeKept(prior, pages, child.page, h, child.minKey, Upper(children[index + 1..], hi));
    AllRowsConcat(pages, left, [child], h);
  }

  /** A child's rows, those before it and those after it, apart by its bounds. */
  lemma ChildBetween(pages: seq<Page>, children: seq<NodeRef>, index: nat, h: nat, hi: Option<Key>)
    requires index < |children| && ValidRefs(pages, children, h, hi)
    ensures var next := Upper(children[index + 1..], hi);
            var left, mine, right := AllRows(pages, children[..index], h), Rows(pages, children[index].page, h),
                AllRows(pages, children[index + 1..], h);
            && ValidRefs(pages, children[..index], h, Some(children[index].minKey))
            && ValidNode(pages, children[index].page, h, children[index].minKey, next)
            && AllRows(pages, children, h) == left + (mine + right)
            && AllBelow(left, Some(children[index].minKey))
            && AllFrom(mine, children[index].minKey) && AllBelow(mine, next)
            && (index + 1 < |children| ==> AllFrom(right, children[index + 1].minKey))
            && (index + 1 == |children| ==> right == [])
            && Below(children[index].minKey, next)
            && AtMost(children[0].minKey, children[index].minKey)
  {
    KeyOrder();
    var next := Upper(children[index + 1..], hi);
    SplitRefs(pages, children, index, h, hi);
    NextInRun(pages, children, index, h, hi);
    RefsRows(pages, children[..index], h, Some(children[index].minKey));
    NodeRows(pages, children[index].page, h, children[index].minKey, next);
    RefsRows(pages, children[index + 1..], h, hi);
    var mine := Rows(pages, children[index].page, h);
    assert mine[0] in mine;
    if index > 0 {
      var left := AllRows(pages, children[..index], h);
      assert left[0] in left && children[..index][0] == children[0];
    }
  }

  lemma ChildHasKey(pages: seq<Page>, children: seq<NodeRef>, index: nat, muts: seq<Prepared>, cursor: nat, end: nat,
                    h: nat, lo: Key, hi: Option<Key>)
    requires h > 0 && SplitAt(children, index, muts, cursor, end)
    requires ValidRefs(pages, children, h - 1, hi)
    requires index > 0 ==> forall x :: cursor <= x < |muts| ==> AtMost(children[index].minKey, muts[x].key)
    ensures forall i :: cursor <= i < end ==>
              (HasKey(Rows(pages, children[index].page, h - 1), muts[i].key) <==>
                  HasKey(AllRows(pages, children, h - 1), muts[i].key))
  {
    KeyOrder();
    ChildBetween(pages, children, index, h - 1, hi);
    var left, mine, right := AllRows(pages, children[..index], h - 1), Rows(pages, children[index].page, h - 1),
        AllRows(pages, children[index + 1..], h - 1);
    var all := AllRows(pages, children, h - 1);
    assert index == 0 ==> children[..index] == [];
    forall i | cursor <= i < end ensures HasKey(mine, muts[i].key) <==> HasKey(all, muts[i].key) {
      HasKeyIn(mine, all, muts[i].key);
    }
  }

  /** Whether two pages of these used bytes go into one, by the merger's estimate. */
  predicate PairAllowed(own: nat, used: Option<nat>, separator: Key) {
    used.Some? && own + used.value + CellCost(separator) <= PAGE_SIZE + HEADER_SIZE
  }

  /** Two leaves are merged exactly when their entries, with room for one more separator, fit a page of
      4096 bytes, and a leaf is underfull exactly below a quarter of one. */
  lemma PairMeans(a: seq<Entry>, b: seq<Entry>, separator: Key)
    requires Fits(Leaf(a)) && Fits(Leaf(b)) && UsedBytes(Leaf(a)).Some? && UsedBytes(Leaf(b)).Some?
    ensures PairAllowed(UsedBytes(Leaf(a)).value, UsedBytes(Leaf(b)), separator) <==>
            HEADER_SIZE + LeafCosts(a + b) + CellCost(separator) <= 4096
    ensures IsUnderfull(Leaf(a)) <==> HEADER_SIZE + LeafCosts(a) < 1024
  {
    hide LeafCosts, CellCost;
    LeafCostsConcat(a, b);
  }

  /** Child `i` is underfull and its neighbour on one side is allowed beside it. */
  predicate MergesAt(pages: seq<Page>, children: seq<NodeRef>, small: seq<bool>, i: nat)
    requires i < |children| == |small| && forall j :: 0 <= j < |children| ==> children[j].page < |pages|
  {
    && small[i] && UsedBytes(pages[children[i].page]).Some?
    && var own := UsedBytes(pages[children[i].page]).value;
       || (i + 1 < |children| && PairAllowed(own, UsedBytes(pages[children[i + 1].page]), children[i + 1].minKey))
       || (i > 0 && PairAllowed(own, UsedBytes(pages[children[i - 1].page]), children[i].minKey))
  }

  /** The same, of a child the batch rewrote and left underfull. */
  ghost predicate PairsUp(pages: seq<Page>, children: seq<NodeRef>, rewritten: seq<bool>, i: nat) {
    && i < |children| == |rewritten| && (forall j :: 0 <= j < |children| ==> children[j].page < |pages|)
    && rewritten[i] && IsUnderfull(pages[children[i].page])
    && MergesAt(pages, children, rewritten, i)
  }

  lemma NothingPairsUp(pages: seq<Page>, children: seq<NodeRef>, rewritten: seq<bool>)
    requires |children| < 2 || true !in rewritten
    ensures forall i :: 0 <= i < |children| ==> !PairsUp(pages, children, rewritten, i)
  {
    forall i | 0 <= i < |children| ensures !PairsUp(pages, children, rewritten, i) {
      if |children| == |rewritten| { assert rewritten[i] in rewritten; }
    }
  }

  lemma NonePairsUp(pages: seq<Page>, children: seq<NodeRef>, rewritten: seq<bool>, small: seq<bool>)
    requires |children| == |rewritten| == |small| && forall j :: 0 <= j < |children| ==> children[j].page < |pages|
    requires forall j :: 0 <= j < |children| ==> small[j] == (rewritten[j] && IsUnderfull(pages[children[j].page]))
    requires forall j :: 0 <= j < |children| ==> !MergesAt(pages, children, small, j)
    ensures forall i :: 0 <= i < |children| ==> !PairsUp(pages, children, rewritten, i)
  {
    forall i | 0 <= i < |children| ensures !PairsUp(pages, children, rewritten, i) {
      assert !MergesAt(pages, children, small, i);
    }
  }

  ghost predicate AllUnderfull(pages: seq<Page>, run: seq<NodeRef>) {
    forall i :: 0 <= i < |run| ==> run[i].page < |pages| && IsUnderfull(pages[run[i].page])
  }

  /** Re-emitting a run of leaves yields fewer: they fit one page, or all were underfull. */
  ghost predicate Shrinks(pages: seq<Page>, run: seq<NodeRef>) {
    |run| >= 2 && (Fits(Leaf(AllRows(pages, run, 0))) || AllUnderfull(pages, run))
  }

  /** A pair of leaves the merger accepts becomes exactly one page. */
  lemma PairOfLeaves(a: seq<Entry>, b: seq<Entry>, separator: Key)
    requires Fits(Leaf(a)) && Fits(Leaf(b)) && UsedBytes(Leaf(a)).Some?
    requires PairAllowed(UsedBytes(Leaf(a)).value, UsedBytes(Leaf(b)), separator)
    ensures Fits(Leaf(a + b))
  {
    LeafCostsConcat(a, b);
  }

  lemma PairShrinks(pages: seq<Page>, keep: seq<NodeRef>, run: seq<NodeRef>, children: seq<NodeRef>, end: nat,
                    hi: Option<Key>)
    requires |run| == 2 && Covers(pages, keep + run, children, end, 0, hi)
    requires run[0].page < |pages| && run[1].page < |pages|
    requires var a, b := UsedBytes(pages[run[0].page]), UsedBytes(pages[run[1].page]);
             a.Some? && b.Some? && (PairAllowed(a.value, b, run[1].minKey) || PairAllowed(b.value, a, run[1].minKey))
    ensures Shrinks(pages, run)
  {
    var next := Upper(children[end..], hi);
    ConcatValid(pages, keep, run, 0, next);
    assert run[0..] == run && run[2..] == [];
    NextInRun(pages, run, 0, 0, next);
    NextInRun(pages, run, 1, 0, next);
    var a, b := pages[run[0].page].entries, pages[run[1].page].entries;
    assert AllRows(pages, run, 0) == a + b;
    PairOfLeaves(a, b, run[1].minKey);
  }

  lemma SmallRunShrinks(pages: seq<Page>, children: seq<NodeRef>, small: seq<bool>, index: nat, end: nat,
                        h: nat, hi: Option<Key>, rows: seq<Entry>)
    requires index + 1 < end <= |children| == |small|
    requires (forall j :: 0 <= j < |children| ==> children[j].page < |pages|)
    requires forall i :: 0 <= i < |children| && small[i] ==> IsUnderfull(pages[children[i].page])
    requires forall i :: index <= i < end ==> small[i]
    ensures AllUnderfull(pages, children[index..end]) && MergesAt(pages, children, small, index)
  {
    var run := children[index..end];
    forall i | 0 <= i < |run| ensures run[i].page < |pages| && IsUnderfull(pages[run[i].page]) {
      assert run[i] == children[index + i] && small[index + i];
    }
    assert small[index] && small[index + 1];
  }

  /** Underfull leaves re-emitted take fewer pages than before. */
  lemma FewerLeaves(pages: seq<Page>, run: seq<NodeRef>, chunks: seq<seq<Entry>>, hi: Option<Key>)
    requires ValidRefs(pages, run, 0, hi) && |run| >= 2 && AllUnderfull(pages, run)
    requires PackedLeaves(chunks) && Flat(chunks) == AllRows(pages, run, 0)
    ensures |chunks| < |run|
  {
    UnderfullCosts(pages, run, hi);
    LeafPagesCost(chunks, |chunks| / 2);
  }

  lemma {:induction false} UnderfullCosts(pages: seq<Page>, run: seq<NodeRef>, hi: Option<Key>)
    requires ValidRefs(pages, run, 0, hi) && AllUnderfull(pages, run)
    ensures LeafCosts(AllRows(pages, run, 0)) <= |run| * 983
    decreases |run|
  {
    if run == [] {
    } else {
      var rest := run[1..];
      assert forall i :: 0 <= i < |rest| ==> rest[i] == run[i + 1];
      UnderfullCosts(pages, rest, hi);
      assert IsUnderfull(pages[run[0].page]);
      LeafCostsConcat(Rows(pages, run[0].page, 0), AllRows(pages, rest, 0));
    }
  }

  predicate IsUnderfull(p: Page) {
    UsedBytes(p).Some? && UsedBytes(p).value < UNDERFULL_BYTES
  }

  lemma {:induction false} RefsInFile(pages: seq<Page>, refs: seq<NodeRef>, h: nat, hi: Option<Key>)
    requires ValidRefs(pages, refs, h, hi)
    ensures forall i :: 0 <= i < |refs| ==> refs[i].page < |pages|
    decreases |refs|
  {
    if refs == [] {
    } else {
      RefsInFile(pages, refs[1..], h, hi);
      assert forall i :: 0 < i < |refs| ==> refs[i] == refs[1..][i - 1];
    }
  }

  /** The merged list so far replaces `children[..index]`. */
  ghost predicate SiblingsThrough(pages: seq<Page>, merged: seq<NodeRef>, children: seq<NodeRef>, index: nat,
                                h: nat, hi: Option<Key>, rows: seq<Entry>)
  {
    && index <= |children|
    && Spells(pages, children, h, hi, rows)
    && Spells(pages, merged, h, Upper(children[index..], hi), AllRows(pages, children[..index], h))
    && (merged == [] <==> index == 0)
    && (merged != [] ==> AtMost(children[0].minKey, merged[0].minKey))
  }

  lemma MergeStart(pages: seq<Page>, children: seq<NodeRef>, h: nat, hi: Option<Key>)
    requires ValidRefs(pages, children, h, hi)
    ensures SiblingsThrough(pages, [], children, 0, h, hi, AllRows(pages, children, h))
  {
    assert children[..0] == [];
  }

  /** What has been merged, followed by the next run, still spells the prefix. */
  lemma RunCovered(pages: seq<Page>, merged: seq<NodeRef>, children: seq<NodeRef>, index: nat, end: nat,
                   h: nat, hi: Option<Key>, rows: seq<Entry>)
    requires index < end <= |children|
    requires SiblingsThrough(pages, merged, children, index, h, hi, rows)
    ensures Covers(pages, merged + children[index..end], children, end, h, hi)
  {
    KeyOrder();
    var run, next := children[index..end], Upper(children[end..], hi);
    SplitRefs(pages, children, end, h, hi);
    SplitRefs(pages, children[..end], index, h, next);
    assert children[..end][..index] == children[..index] && children[..end][index..] == run;
    assert Upper(children[index..], hi) == Some(run[0].minKey);
    RefsRows(pages, merged, h, Some(run[0].minKey));
    JoinRefs(pages, merged, run, h, Some(run[0].minKey), next);
  }

  ghost predicate Covers(pages: seq<Page>, refs: seq<NodeRef>, children: seq<NodeRef>, end: nat, h: nat,
                         hi: Option<Key>) {
    && 0 < end <= |children| && refs != []
    && Spells(pages, refs, h, Upper(children[end..], hi), AllRows(pages, children[..end], h))
    && AtMost(children[0].minKey, refs[0].minKey)
  }

  lemma RunValid(pages: seq<Page>, keep: seq<NodeRef>, run: seq<NodeRef>, children: seq<NodeRef>, end: nat, h: nat,
                 hi: Option<Key>)
    requires run != [] && Covers(pages, keep + run, children, end, h, hi)
    ensures ValidRefs(pages, run, h, Upper(children[end..], hi))
    ensures forall i :: 0 <= i < |keep| ==> keep[i].page < |pages|
  {
    ConcatValid(pages, keep, run, h, Upper(children[end..], hi));
    RefsInFile(pages, keep, h, Upper(run, Upper(children[end..], hi)));
  }

  lemma MergeStep(before: seq<Page>, pages: seq<Page>, keep: seq<NodeRef>, run: seq<NodeRef>, out: seq<NodeRef>,
                  children: seq<NodeRef>, end: nat, h: nat, hi: Option<Key>, rows: seq<Entry>)
    requires before <= pages && run != [] && out != []
    requires Spells(before, children, h, hi, rows)
    requires Covers(before, keep + run, children, end, h, hi)
    requires Spells(pages, out, h, Upper(children[end..], hi), AllRows(before, run, h))
    requires AtMost(run[0].minKey, out[0].minKey)
    ensures SiblingsThrough(pages, keep + out, children, end, h, hi, rows)
  {
    KeyOrder();
    var next := Upper(children[end..], hi);
    ConcatValid(before, keep, run, h, next);
    AllRowsConcat(before, keep, run, h);
    RefsRows(before, keep, h, Some(run[0].minKey));
    RefsKept(before, pages, keep, h, Some(run[0].minKey));
    JoinRefs(pages, keep, out, h, Some(run[0].minKey), next);
    SpellsKept(before, pages, children, h, hi, rows);
    SplitRefs(before, children, end, h, hi);
    RefsKept(before, pages, children[..end], h, next);
  }

  /** Header, cells and slots of a tree page; none for a page that cannot be measured. */
  function UsedBytes(p: Page): Option<nat> {
    match p
    case Super => None
    case Leaf(es) =>
      if |es| > MAX_LEAF_ENTRIES then None
      else if HEADER_SIZE + LeafCosts(es) < PAGE_SIZE then Some(HEADER_SIZE + LeafCosts(es)) else Some(PAGE_SIZE)
    case Internal(_, cells) =>
      if |cells| > MAX_INTERNAL_CHILDREN - 1 then None
      else if HEADER_SIZE + CellCosts(cells) < PAGE_SIZE then Some(HEADER_SIZE + CellCosts(cells)) else Some(PAGE_SIZE)
  }

  /** The children gathered so far are those of `run[..i]`. */
  ghost predicate CollectedThrough(pages: seq<Page>, kids: seq<NodeRef>, run: seq<NodeRef>, i: nat, h: nat,
                                   hi: Option<Key>) {
    && h > 0 && i <= |run|
    && ValidRefs(pages, run[i..], h, hi)
    && ValidRefs(pages, kids, h - 1, Upper(run[i..], hi))
    && AllRows(pages, kids, h - 1) + AllRows(pages, run[i..], h) == AllRows(pages, run, h)
    && (i == 0 <==> kids == [])
    && (i > 0 ==> AtMost(run[0].minKey, kids[0].minKey))
  }

  lemma NextInRun(pages: seq<Page>, run: seq<NodeRef>, i: nat, h: nat, hi: Option<Key>)
    requires i < |run| && ValidRefs(pages, run[i..], h, hi)
    ensures ValidNode(pages, run[i].page, h, run[i].minKey, Upper(run[i + 1..], hi))
    ensures ValidRefs(pages, run[i + 1..], h, hi)
    ensures AllRows(pages, run[i..], h) == Rows(pages, run[i].page, h) + AllRows(pages, run[i + 1..], h)
  {
    assert run[i..][1..] == run[i + 1..];
  }

  lemma CollectStep(pages: seq<Page>, kids: seq<NodeRef>, more: seq<NodeRef>, run: seq<NodeRef>, i: nat, h: nat,
                    hi: Option<Key>)
    requires i < |run| && CollectedThrough(pages, kids, run, i, h, hi)
    requires Decoded(pages, run[i].page, h, run[i].minKey, Upper(run[i + 1..], hi), more)
    ensures CollectedThrough(pages, kids + more, run, i + 1, h, hi)
  {
    KeyOrder();
    var node, next := run[i], Upper(run[i + 1..], hi);
    NextInRun(pages, run, i, h, hi);
    RefsRows(pages, kids, h - 1, Some(node.minKey));
    JoinRefs(pages, kids, more, h - 1, Some(node.minKey), next);
  }

  /** `refs` are the children of `id`, described tightly enough to be rewritten. */
  ghost predicate Decoded(pages: seq<Page>, id: nat, h: nat, lo: Key, hi: Option<Key>, refs: seq<NodeRef>) {
    && h > 0 && refs != [] && id < |pages| && pages[id] == ParentOf(refs)
    && Spells(pages, refs, h - 1, hi, Rows(pages, id, h))
    && ValidNode(pages, refs[0].page, h - 1, lo, Upper(refs[1..], hi))
    && AtMost(lo, refs[0].minKey)
  }

  lemma DecodedChildren(pages: seq<Page>, id: nat, h: nat, lo: Key, hi: Option<Key>, node: NodeRef)
    requires ValidNode(pages, id, h, lo, hi) && h > 0
    requires var rows := Rows(pages, pages[id].first, h - 1);
             rows != [] && node == NodeRef(pages[id].first, rows[0].key)
    ensures Decoded(pages, id, h, lo, hi, [node] + pages[id].cells)
  {
    var first, cells := pages[id].first, pages[id].cells;
    var refs := [node] + cells;
    assert refs[1..] == cells;
    NodeRows(pages, first, h - 1, lo, Upper(cells, hi));
    var rows := Rows(pages, first, h - 1);
    assert rows[0] in rows;
    KeyOrder();
    NodeRebound(pages, first, h - 1, lo, Upper(cells, hi), node.minKey, Upper(cells, hi));
  }

  /** Page `base + i` is the leaf holding chunk `i`, and `refs` names them. */
  predicate LeavesAt(pages: seq<Page>, base: nat, parts: seq<seq<Entry>>, refs: seq<NodeRef>) {
    && |refs| == |parts| && base + |parts| <= |pages|
    && forall i :: 0 <= i < |parts| ==>
         parts[i] != [] && pages[base + i] == Leaf(parts[i]) && refs[i] == NodeRef(base + i, parts[i][0].key)
  }

  predicate ParentsAt(pages: seq<Page>, base: nat, parts: seq<seq<NodeRef>>, refs: seq<NodeRef>) {
    && |refs| == |parts| && base + |parts| <= |pages|
    && forall i :: 0 <= i < |parts| ==>
         parts[i] != [] && pages[base + i] == ParentOf(parts[i]) && refs[i] == NodeRef(base + i, parts[i][0].minKey)
  }

  lemma {:induction false} LeavesSpell(pages: seq<Page>, base: nat, parts: seq<seq<Entry>>, refs: seq<NodeRef>,
                                       hi: Option<Key>)
    requires LeavesAt(pages, base, parts, refs) && PackedLeaves(parts)
    requires Sorted(Flat(parts)) && AllBelow(Flat(parts), hi)
    ensures Spells(pages, refs, 0, hi, Flat(parts))
    ensures parts != [] ==> Flat(parts) != [] && refs[0].minKey == Flat(parts)[0].key
    decreases |parts|
  {
    hide Sorted, Less;
    if parts == [] {
    } else {
      FlatCons(parts);
      SortedSplit(parts[0], Flat(parts[1..]), hi);
      LeavesSpell(pages, base + 1, parts[1..], refs[1..], hi);
      FreshLeaf(pages, base, parts[0], Upper(refs[1..], hi));
    }
  }

  lemma {:induction false} ParentsSpell(pages: seq<Page>, base: nat, parts: seq<seq<NodeRef>>, refs: seq<NodeRef>,
                                        h: nat, hi: Option<Key>)
    requires ParentsAt(pages, base, parts, refs) && PackedChildren(parts)
    requires ValidRefs(pages, Flat(parts), h, hi)
    ensures Spells(pages, refs, h + 1, hi, AllRows(pages, Flat(parts), h))
    ensures parts != [] ==> Flat(parts) != [] && refs[0].minKey == Flat(parts)[0].minKey
    decreases |parts|
  {
    if parts == [] {
    } else {
      var c, rest := parts[0], Flat(parts[1..]);
      FlatCons(parts);
      ConcatValid(pages, c, rest, h, hi);
      AllRowsConcat(pages, c, rest, h);
      ParentsSpell(pages, base + 1, parts[1..], refs[1..], h, hi);
      FreshParent(pages, base, c, h, Upper(rest, hi));
    }
  }

  lemma SplitRefs(pages: seq<Page>, refs: seq<NodeRef>, at: nat, h: nat, hi: Option<Key>)
    requires at <= |refs| && ValidRefs(pages, refs, h, hi)
    ensures ValidRefs(pages, refs[..at], h, Upper(refs[at..], hi)) && ValidRefs(pages, refs[at..], h, hi)
    ensures AllRows(pages, refs, h) == AllRows(pages, refs[..at], h) + AllRows(pages, refs[at..], h)
  {
    assert refs == refs[..at] + refs[at..];
    ConcatValid(pages, refs[..at], refs[at..], h, hi);
    AllRowsConcat(pages, refs[..at], refs[at..], h);
  }

  lemma SortedSplit(a: seq<Entry>, b: seq<Entry>, hi: Option<Key>)
    requires Sorted(a + b) && AllBelow(a + b, hi)
    ensures Sorted(a) && Sorted(b)
    ensures AllBelow(a, if b == [] then hi else Some(b[0].key)) && AllBelow(b, hi)
  {
    var s := a + b;
    assert forall i :: 0 <= i < |a| ==> s[i] == a[i];
    assert forall i :: 0 <= i < |b| ==> s[|a| + i] == b[i];
    forall e | e in a && b != [] ensures Less(e.key, b[0].key) {
      var i :| 0 <= i < |a| && a[i] == e;
      assert Less(s[i].key, s[|a|].key);
    }
  }
}
