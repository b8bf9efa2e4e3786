/** Greedy packing of sorted entries and child references into pages. */
module Packing {
  import opened Pages

  function Flat<T>(chunks: seq<seq<T>>): seq<T> {
    if chunks == [] then [] else Flat(chunks[..|chunks| - 1]) + chunks[|chunks| - 1]
  }

  lemma {:induction false} FlatCons<T>(chunks: seq<seq<T>>)
    requires chunks != []
    ensures Flat(chunks) == chunks[0] + Flat(chunks[1..])
    decreases |chunks|
  {
    var n := |chunks| - 1;
    if n == 0 {
    } else {
      FlatCons(chunks[..n]);
      assert chunks[..n][1..] == chunks[1..][..n - 1];
    }
  }

  /** A leaf page that could not have taken one more entry. */
  predicate LeafClosed(chunk: seq<Entry>, next: Entry) {
    HEADER_SIZE + LeafCosts(chunk) + LeafCost(next) > PAGE_SIZE
  }

  /** Every chunk fits a page and was closed only because its successor's first
      entry did not fit. */
  predicate PackedLeaves(chunks: seq<seq<Entry>>) {
    && (forall i :: 0 <= i < |chunks| ==> chunks[i] != [] && Fits(Leaf(chunks[i])))
    && (forall i :: 0 < i < |chunks| ==> LeafClosed(chunks[i - 1], chunks[i][0]))
  }

  /** The packing is determined by its entries. */
  lemma {:induction false} PackingUnique(a: seq<seq<Entry>>, b: seq<seq<Entry>>)
    requires PackedLeaves(a) && PackedLeaves(b) && Flat(a) == Flat(b)
    ensures a == b
    decreases |a|
  {
    if a == [] || b == [] {
      if a != [] { FlatCons(a); }
      if b != [] { FlatCons(b); }
    } else {
      FirstNotShorter(a, b);
      FirstNotShorter(b, a);
      FlatCons(a);
      FlatCons(b);
      assert a[0] == Flat(a)[..|a[0]|] == b[0];
      assert Flat(a[1..]) == Flat(a)[|a[0]|..] == Flat(b[1..]);
      PackingUnique(a[1..], b[1..]);
      assert a == [a[0]] + a[1..] && b == [b[0]] + b[1..];
    }
  }

  /** A first page shorter than another's could have taken one more entry. */
  lemma FirstNotShorter(a: seq<seq<Entry>>, b: seq<seq<Entry>>)
    requires a != [] && b != [] && PackedLeaves(a) && PackedLeaves(b) && Flat(a) == Flat(b)
    ensures |a[0]| >= |b[0]|
  {
    FlatCons(a);
    FlatCons(b);
    if |a[0]| < |b[0]| {
      var n := |a[0]|;
      if |a| > 1 {
        FlatCons(a[1..]);
        assert LeafClosed(a[0], a[1][0]);
        assert b[0][..n] == Flat(b)[..n] == a[0] && b[0][n] == Flat(a)[n] == a[1][0];
        assert b[0] == b[0][..n] + b[0][n..];
        LeafCostsConcat(b[0][..n], b[0][n..]);
        LeafCostsAtLeastFirst(b[0][n..]);
      }
    }
  }

  /** The first child of a page lives in its header and costs no cell. */
  function ParentOf(chunk: seq<NodeRef>): Page
    requires chunk != []
  {
    Internal(chunk[0].page, chunk[1..])
  }

  predicate ParentClosed(chunk: seq<NodeRef>, next: NodeRef) {
    chunk != [] && HEADER_SIZE + 8 + CellCosts(chunk[1..]) + CellCost(next.minKey) > PAGE_SIZE
  }

  predicate PackedChildren(chunks: seq<seq<NodeRef>>) {
    && (forall i :: 0 <= i < |chunks| ==> chunks[i] != [] && Fits(ParentOf(chunks[i])))
    && (forall i :: 0 < i < |chunks| ==> ParentClosed(chunks[i - 1], chunks[i][0]))
  }

  /** Splits entries into leaf pages. A cell of legal shape always fits a page of
      its own, so the packer cannot fail. */
  method PackLeaves(entries: seq<Entry>) returns (chunks: seq<seq<Entry>>)
    requires entries != []
    ensures chunks != [] && Flat(chunks) == entries && PackedLeaves(chunks)
  {
    chunks := [];
    var start, used := 0, HEADER_SIZE;
    for index := 0 to |entries|
      invariant 0 <= start <= index && (index > 0 ==> start < index)
      invariant used == HEADER_SIZE + LeafCosts(entries[start..index]) <= PAGE_SIZE
      invariant PackedTo(chunks, entries, start)
    {
      var size := LeafCost(entries[index]);
      if used + size > PAGE_SIZE && index > start {
        ClosePage(chunks, entries, start, index);
        chunks := chunks + [entries[start..index]];
        start, used := index, HEADER_SIZE;
      }
      GrowPage(entries, start, index);
      used := used + size;
    }
    LastPage(chunks, entries, start);
    chunks := chunks + [entries[start..]];
  }

  /** The chunks closed so far hold the entries before `start`. */
  ghost predicate PackedTo(chunks: seq<seq<Entry>>, entries: seq<Entry>, start: nat) {
    && start <= |entries| && Flat(chunks) == entries[..start] && PackedLeaves(chunks)
    && (chunks != [] ==> start < |entries| && LeafClosed(chunks[|chunks| - 1], entries[start]))
  }

  lemma GrowPage(entries: seq<Entry>, start: nat, index: nat)
    requires start <= index < |entries|
    ensures LeafCosts(entries[start..index + 1]) == LeafCosts(entries[start..index]) + LeafCost(entries[index])
  {
    assert entries[start..index + 1][..index - start] == entries[start..index];
  }

  lemma ClosePage(chunks: seq<seq<Entry>>, entries: seq<Entry>, start: nat, index: nat)
    requires PackedTo(chunks, entries, start) && start < index < |entries|
    requires Fits(Leaf(entries[start..index])) && LeafClosed(entries[start..index], entries[index])
    ensures PackedTo(chunks + [entries[start..index]], entries, index)
  {
    var chunk := entries[start..index];
    assert entries[..index] == entries[..start] + chunk;
    FlatSnoc(chunks, chunk);
    LeafPush(chunks, chunk);
  }

  lemma LastPage(chunks: seq<seq<Entry>>, entries: seq<Entry>, start: nat)
    requires PackedTo(chunks, entries, start) && start < |entries|
    requires Fits(Leaf(entries[start..|entries|]))
    ensures Flat(chunks + [entries[start..]]) == entries && PackedLeaves(chunks + [entries[start..]])
  {
    assert entries == entries[..start] + entries[start..] && entries[start..] == entries[start..|entries|];
    FlatSnoc(chunks, entries[start..]);
    LeafPush(chunks, entries[start..]);
  }

  lemma LeafPush(chunks: seq<seq<Entry>>, chunk: seq<Entry>)
    requires PackedLeaves(chunks) && chunk != [] && Fits(Leaf(chunk))
    requires chunks != [] ==> LeafClosed(chunks[|chunks| - 1], chunk[0])
    ensures PackedLeaves(chunks + [chunk])
  {
  }

  /** Splits children into internal pages. */
  method PackChildren(refs: seq<NodeRef>) returns (chunks: seq<seq<NodeRef>>)
    requires refs != []
    ensures chunks != [] && Flat(chunks) == refs && PackedChildren(chunks)
  {
    hide GroupedTo, PackedChildren, Flat;
    chunks := [];
    var start, used := 0, HEADER_SIZE + 8;
    NoneGrouped(refs);
    for index := 1 to |refs|
      invariant 0 <= start < index
      invariant used == HEADER_SIZE + 8 + CellCosts(refs[start + 1..index]) <= PAGE_SIZE
      invariant GroupedTo(chunks, refs, start)
    {
      var size := CellCost(refs[index].minKey);
      if used + size > PAGE_SIZE {
        CloseParent(chunks, refs, start, index);
        chunks := chunks + [refs[start..index]];
        start, used := index, HEADER_SIZE + 8;
      } else {
        GrowParent(refs, start, index);
        used := used + size;
      }
    }
    LastParent(chunks, refs, start);
    chunks := chunks + [refs[start..]];
  }

  ghost predicate GroupedTo(chunks: seq<seq<NodeRef>>, refs: seq<NodeRef>, start: nat) {
    && start < |refs| && Flat(chunks) == refs[..start] && PackedChildren(chunks)
    && (chunks != [] ==> ParentClosed(chunks[|chunks| - 1], refs[start]))
  }

  lemma NoneGrouped(refs: seq<NodeRef>)
    requires refs != []
    ensures GroupedTo([], refs, 0)
  {
  }

  lemma GrowParent(refs: seq<NodeRef>, start: nat, index: nat)
    requires start < index < |refs|
    ensures CellCosts(refs[start + 1..index + 1]) == CellCosts(refs[start + 1..index]) + CellCost(refs[index].minKey)
  {
    assert refs[start + 1..index + 1][..index - start - 1] == refs[start + 1..index];
  }

  lemma CloseParent(chunks: seq<seq<NodeRef>>, refs: seq<NodeRef>, start: nat, index: nat)
    requires GroupedTo(chunks, refs, start) && start < index < |refs|
    requires HEADER_SIZE + 8 + CellCosts(refs[start + 1..index]) <= PAGE_SIZE
    requires HEADER_SIZE + 8 + CellCosts(refs[start + 1..index]) + CellCost(refs[index].minKey) > PAGE_SIZE
    ensures GroupedTo(chunks + [refs[start..index]], refs, index)
  {
    var chunk := refs[start..index];
    assert refs[..index] == refs[..start] + chunk && chunk[1..] == refs[start + 1..index];
    FlatSnoc(chunks, chunk);
    ParentPush(chunks, chunk);
  }

  lemma LastParent(chunks: seq<seq<NodeRef>>, refs: seq<NodeRef>, start: nat)
    requires GroupedTo(chunks, refs, start)
    requires HEADER_SIZE + 8 + CellCosts(refs[start + 1..|refs|]) <= PAGE_SIZE
    ensures Flat(chunks + [refs[start..]]) == refs && PackedChildren(chunks + [refs[start..]])
  {
    var chunk := refs[start..];
    assert refs == refs[..start] + chunk && chunk[1..] == refs[start + 1..|refs|];
    FlatSnoc(chunks, chunk);
    ParentPush(chunks, chunk);
  }

  lemma ParentPush(chunks: seq<seq<NodeRef>>, chunk: seq<NodeRef>)
    requires PackedChildren(chunks) && chunk != [] && Fits(ParentOf(chunk))
    requires chunks != [] ==> ParentClosed(chunks[|chunks| - 1], chunk[0])
    ensures PackedChildren(chunks + [chunk])
  {
  }

  lemma FlatSnoc<T>(chunks: seq<seq<T>>, chunk: seq<T>)
    ensures Flat(chunks + [chunk]) == Flat(chunks) + chunk
  {
    assert (chunks + [chunk])[..|chunks|] == chunks;
  }

  // ----- How many pages a packing takes ------------------------------------

  /** Internal packing always shrinks a list of two or more nodes, which is what
      makes the root-building loop terminate. */
  lemma {:induction false} FewerParents(chunks: seq<seq<NodeRef>>)
    requires PackedChildren(chunks) && chunks != []
    ensures 2 * |chunks| <= |Flat(chunks)| + 1
  {
    var n := |chunks| - 1;
    if n == 0 {
    } else {
      FewerParents(chunks[..n]);
      assert ParentClosed(chunks[n - 1], chunks[n][0]);
      AllButLastHoldTwo(chunks[..n], chunks[n][0]);
    }
  }

  lemma {:induction false} AllButLastHoldTwo(chunks: seq<seq<NodeRef>>, next: NodeRef)
    requires PackedChildren(chunks)
    requires chunks != [] ==> ParentClosed(chunks[|chunks| - 1], next)
    ensures 2 * |chunks| <= |Flat(chunks)|
  {
    if chunks == [] {
    } else {
      var n := |chunks| - 1;
      AllButLastHoldTwo(chunks[..n], chunks[n][0]);
      TwoPerClosed(chunks[n], next);
    }
  }

  lemma TwoPerClosed(chunk: seq<NodeRef>, next: NodeRef)
    requires ParentClosed(chunk, next)
    ensures |chunk| >= 2
  {
    var tail := chunk[1..];
    assert |tail| == 0 ==> CellCosts(tail) == 0;
  }

  /** Two adjacent leaf pages together overflow one page. */
  lemma {:induction false} LeafPagesCost(chunks: seq<seq<Entry>>, pairs: nat)
    requires PackedLeaves(chunks) && 2 * pairs <= |chunks|
    ensures pairs * 4057 <= LeafCosts(Flat(chunks))
    decreases pairs
  {
    if pairs == 0 {
    } else {
      var n := |chunks|;
      var head, a, b := chunks[..n - 2], chunks[n - 2], chunks[n - 1];
      LeafPagesCost(head, pairs - 1);
      assert chunks[..n - 1][..n - 2] == head;
      assert Flat(chunks) == Flat(head) + a + b;
      LeafCostsConcat(Flat(head) + a, b);
      LeafCostsConcat(Flat(head), a);
      LeafCostsAtLeastFirst(b);
    }
  }

  lemma {:induction false} LeafCostsAtLeastFirst(es: seq<Entry>)
    requires es != []
    ensures LeafCost(es[0]) <= LeafCosts(es)
    decreases |es|
  {
    if |es| > 1 {
      LeafCostsAtLeastFirst(es[..|es| - 1]);
    }
  }

  /** Entries whose cells fit one page are written as exactly one page. */
  lemma OneLeafPage(chunks: seq<seq<Entry>>)
    requires PackedLeaves(chunks) && chunks != []
    requires Fits(Leaf(Flat(chunks)))
    ensures |chunks| == 1
  {
    if |chunks| >= 2 {
      LeafPagesCost(chunks, 1);
    }
  }

  /** A page's entries with one added or replaced take at most three pages. */
  lemma AtMostThreeLeaves(chunks: seq<seq<Entry>>, page: seq<Entry>, e: Entry)
    requires PackedLeaves(chunks)
    requires Fits(Leaf(page)) && LeafCosts(Flat(chunks)) <= LeafCosts(page) + LeafCost(e)
    ensures |chunks| <= 3
  {
    if |chunks| >= 4 {
      LeafPagesCost(chunks, 2);
    }
  }

  /** Every page but the last, with its successor's separator, overflows a page. */
  lemma {:induction false} ParentPagesCost(chunks: seq<seq<NodeRef>>)
    requires PackedChildren(chunks) && chunks != []
    ensures Flat(chunks) != []
    ensures (|chunks| - 1) * 4049 + CellCosts(chunks[|chunks| - 1][1..]) <= CellCosts(Flat(chunks)[1..])
    decreases |chunks|
  {
    var n := |chunks| - 1;
    var head, c := chunks[..n], chunks[n];
    if n == 0 {
      assert Flat(chunks) == c;
    } else {
      ParentPagesCost(head);
      assert ParentClosed(chunks[n - 1], c[0]);
      AppendedCost(Flat(head), c);
    }
  }

  lemma AppendedCost(head: seq<NodeRef>, c: seq<NodeRef>)
    requires head != [] && c != []
    ensures CellCosts((head + c)[1..]) == CellCosts(head[1..]) + CellCost(c[0].minKey) + CellCosts(c[1..])
  {
    assert (head + c)[1..] == head[1..] + c && c == [c[0]] + c[1..];
    CellCostsConcat(head[1..], c);
    CellCostsConcat([c[0]], c[1..]);
  }

  /** Replacing one child of a page by at most three yields at most two pages, so
      one insert grows no level by more than that. */
  lemma AtMostTwoParents(kids: seq<NodeRef>, at: nat, mid: seq<NodeRef>, chunks: seq<seq<NodeRef>>)
    requires at < |kids| && Fits(ParentOf(kids))
    requires 1 <= |mid| <= 3
    requires Flat(chunks) == kids[..at] + mid + kids[at + 1..]
    requires PackedChildren(chunks)
    ensures |chunks| <= 2
  {
    if |chunks| >= 3 {
      ParentPagesCost(chunks);
      SplicedCost(kids, at, mid, Flat(chunks));
    }
  }

  lemma SplicedCost(kids: seq<NodeRef>, at: nat, mid: seq<NodeRef>, refs: seq<NodeRef>)
    requires at < |kids| && 1 <= |mid| <= 3
    requires refs == kids[..at] + mid + kids[at + 1..]
    ensures CellCosts(refs[1..]) <= CellCosts(kids[1..]) + 3 * 1047
  {
    SmallCells(mid);
    SmallCells(mid[1..]);
    if at == 0 {
      assert refs[1..] == mid[1..] + kids[1..];
      CellCostsConcat(mid[1..], kids[1..]);
    } else {
      var l, r := kids[1..at], kids[at + 1..];
      assert refs[1..] == l + (mid + r);
      CellCostsConcat(l, mid + r);
      CellCostsConcat(mid, r);
      assert kids[1..] == l + ([kids[at]] + r);
      CellCostsConcat(l, [kids[at]] + r);
      CellCostsConcat([kids[at]], r);
    }
  }

  lemma {:induction false} SmallCells(refs: seq<NodeRef>)
    ensures CellCosts(refs) <= |refs| * 1047
    decreases |refs|
  {
    if refs == [] {
    } else {
      SmallCells(refs[..|refs| - 1]);
    }
  }
}
