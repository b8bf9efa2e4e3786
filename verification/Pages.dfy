/** The page graph of the copy-on-write B+tree and what it means.

    A page file is an append-only sequence of pages; a page's id is its position.
    A tree node at height `h` either holds entries (`h == 0`) or names children of
    height `h - 1`. Child 0 of an internal page carries no separator: it owns
    everything below the first cell's key. */
module Pages {
  import opened Results
  import opened Keys

  const PAGE_SIZE := 4096
  const HEADER_SIZE := 40
  const SLOT_SIZE := 2
  const INLINE_LIMIT := 1024
  const LEAF_CELL_HEADER := 33
  const INTERNAL_CELL_HEADER := 21
  const UNDERFULL_BYTES := PAGE_SIZE / 4
  const MAX_LEAF_ENTRIES := (PAGE_SIZE - HEADER_SIZE) / LEAF_CELL_HEADER
  const MAX_INTERNAL_CHILDREN := (PAGE_SIZE - HEADER_SIZE) / INTERNAL_CELL_HEADER + 1
  const MAX_TREE_DEPTH := 64

  datatype Entry = Entry(key: Key, value: Value, revision: nat)

  /** A page together with a lower bound of the keys below it. */
  datatype NodeRef = NodeRef(page: nat, minKey: Key)

  /** `Super` is page 0; body cells of an internal page introduce children 1, 2, ... */
  datatype Page =
    | Super
    | Leaf(entries: seq<Entry>)
    | Internal(first: nat, cells: seq<NodeRef>)

  // ----- Page arithmetic -------------------------------------------------

  function InlineBytes(s: seq<Byte>): nat {
    if |s| <= INLINE_LIMIT then |s| else 0
  }

  /** A leaf cell's bytes plus its slot in the directory at the page tail. */
  function LeafCost(e: Entry): nat {
    LEAF_CELL_HEADER + InlineBytes(e.key) + InlineBytes(e.value) + SLOT_SIZE
  }

  /** The same for a separator cell of an internal page. */
  function CellCost(key: Key): nat {
    INTERNAL_CELL_HEADER + InlineBytes(key) + SLOT_SIZE
  }

  function LeafCosts(es: seq<Entry>): nat {
    if es == [] then 0 else LeafCosts(es[..|es| - 1]) + LeafCost(es[|es| - 1])
  }

  function CellCosts(refs: seq<NodeRef>): nat {
    if refs == [] then 0 else CellCosts(refs[..|refs| - 1]) + CellCost(refs[|refs| - 1].minKey)
  }

  lemma {:induction false} LeafCostsConcat(a: seq<Entry>, b: seq<Entry>)
    ensures LeafCosts(a + b) == LeafCosts(a) + LeafCosts(b)
    decreases |b|
  {
    if b == [] {
      assert a + b == a;
    } else {
      assert (a + b)[..|a + b| - 1] == a + b[..|b| - 1];
      LeafCostsConcat(a, b[..|b| - 1]);
    }
  }

  lemma {:induction false} CellCostsConcat(a: seq<NodeRef>, b: seq<NodeRef>)
    ensures CellCosts(a + b) == CellCosts(a) + CellCosts(b)
    decreases |b|
  {
    if b == [] {
      assert a + b == a;
    } else {
      assert (a + b)[..|a + b| - 1] == a + b[..|b| - 1];
      CellCostsConcat(a, b[..|b| - 1]);
    }
  }

  /** Whether a page's cells end at or before the slot directory. The internal
      packer starts eight bytes later than the cells do. */
  predicate Fits(p: Page) {
    match p
    case Super => true
    case Leaf(es) => HEADER_SIZE + LeafCosts(es) <= PAGE_SIZE
    case Internal(_, cells) => HEADER_SIZE + 8 + CellCosts(cells) <= PAGE_SIZE
  }

  // ----- Sorted rows -----------------------------------------------------

  predicate Sorted(es: seq<Entry>) {
    forall i, j :: 0 <= i < j < |es| ==> Less(es[i].key, es[j].key)
  }

  predicate AllFrom(es: seq<Entry>, lo: Key) {
    forall e :: e in es ==> AtMost(lo, e.key)
  }

  predicate AllBelow(es: seq<Entry>, hi: Option<Key>) {
    forall e :: e in es ==> Below(e.key, hi)
  }

  lemma SortedConcat(a: seq<Entry>, b: seq<Entry>, mid: Key)
    requires Sorted(a) && Sorted(b)
    requires AllBelow(a, Some(mid)) && AllFrom(b, mid)
    ensures Sorted(a + b)
  {
    KeyOrder();
    var s := a + b;
    forall i, j | 0 <= i < j < |s| ensures Less(s[i].key, s[j].key) {
      if i < |a| <= j {
        assert a[i] in a && b[j - |a|] in b;
      }
    }
  }

  // ----- Valid subtrees and their rows -----------------------------------

  function Upper(refs: seq<NodeRef>, hi: Option<Key>): Option<Key> {
    if refs == [] then hi else Some(refs[0].minKey)
  }

  /** A well-formed subtree of height `h` whose keys lie in `[lo, hi)`. Equal leaf
      depth, key order and separator bounds are all part of this predicate. */
  ghost predicate ValidNode(pages: seq<Page>, id: nat, h: nat, lo: Key, hi: Option<Key>)
    decreases h, 0
  {
    && id < |pages|
    && Fits(pages[id])
    && match pages[id]
       case Super => false
       case Leaf(es) =>
         h == 0 && es != [] && Sorted(es) && AllFrom(es, lo) && AllBelow(es, hi)
       case Internal(first, cells) =>
         && h > 0
         && ValidNode(pages, first, h - 1, lo, Upper(cells, hi))
         && ValidRefs(pages, cells, h - 1, hi)
  }

  /** Adjacent subtrees of one height, each bounded above by its successor. */
  ghost predicate ValidRefs(pages: seq<Page>, refs: seq<NodeRef>, h: nat, hi: Option<Key>)
    decreases h, |refs|
  {
    refs == [] ||
    (&& ValidNode(pages, refs[0].page, h, refs[0].minKey, Upper(refs[1..], hi))
     && ValidRefs(pages, refs[1..], h, hi))
  }

  /** The entries below a node, left to right. */
  ghost function Rows(pages: seq<Page>, id: nat, h: nat): seq<Entry>
    decreases h, 0
  {
    if id >= |pages| then []
    else match pages[id]
      case Super => []
      case Leaf(es) => es
      case Internal(first, cells) =>
        if h == 0 then [] else Rows(pages, first, h - 1) + AllRows(pages, cells, h - 1)
  }

  ghost function AllRows(pages: seq<Page>, refs: seq<NodeRef>, h: nat): seq<Entry>
    decreases h, |refs|
  {
    if refs == [] then [] else Rows(pages, refs[0].page, h) + AllRows(pages, refs[1..], h)
  }

  /** Rows of a valid subtree are sorted, non-empty and inside the bounds. */
  lemma {:induction false} NodeRows(pages: seq<Page>, id: nat, h: nat, lo: Key, hi: Option<Key>)
    requires ValidNode(pages, id, h, lo, hi)
    ensures var rows := Rows(pages, id, h);
            rows != [] && Sorted(rows) && AllFrom(rows, lo) && AllBelow(rows, hi)
    decreases h, 0
  {
    if pages[id].Internal? {
      var first, cells := pages[id].first, pages[id].cells;
      NodeRows(pages, first, h - 1, lo, Upper(cells, hi));
      RefsRows(pages, cells, h - 1, hi);
      JoinBounds(Rows(pages, first, h - 1), AllRows(pages, cells, h - 1), lo, cells, hi);
    }
  }

  lemma {:induction false} RefsRows(pages: seq<Page>, refs: seq<NodeRef>, h: nat, hi: Option<Key>)
    requires ValidRefs(pages, refs, h, hi)
    ensures var rows := AllRows(pages, refs, h);
            && Sorted(rows) && AllBelow(rows, hi)
            && (refs == [] <==> rows == [])
            && (refs != [] ==> AllFrom(rows, refs[0].minKey))
    decreases h, |refs|
  {
    if refs == [] {
    } else {
      NodeRows(pages, refs[0].page, h, refs[0].minKey, Upper(refs[1..], hi));
      RefsRows(pages, refs[1..], h, hi);
      JoinBounds(Rows(pages, refs[0].page, h), AllRows(pages, refs[1..], h), refs[0].minKey, refs[1..], hi);
    }
  }

  lemma JoinBounds(a: seq<Entry>, b: seq<Entry>, lo: Key, refs: seq<NodeRef>, hi: Option<Key>)
    requires Sorted(a) && AllFrom(a, lo) && AllBelow(a, Upper(refs, hi)) && a != []
    requires Sorted(b) && AllBelow(b, hi) && (refs == [] <==> b == [])
    requires refs != [] ==> AllFrom(b, refs[0].minKey)
    ensures Sorted(a + b) && AllFrom(a + b, lo) && AllBelow(a + b, hi)
  {
    KeyOrder();
    if b == [] {
      assert a + b == a;
    } else {
      SortedConcat(a, b, refs[0].minKey);
      assert b[0] in b && a[0] in a;
      assert Less(a[0].key, refs[0].minKey);
      assert AtMost(refs[0].minKey, b[0].key);
      forall e | e in a + b ensures AtMost(lo, e.key) && Below(e.key, hi) {
        assert e in a || e in b;
      }
    }
  }

  // ----- Pages are never rewritten ---------------------------------------

  /** Appending pages leaves every existing subtree, and its rows, as they were. */
  lemma {:induction false} NodeKept(pages: seq<Page>, more: seq<Page>, id: nat, h: nat, lo: Key, hi: Option<Key>)
    requires pages <= more && ValidNode(pages, id, h, lo, hi)
    ensures ValidNode(more, id, h, lo, hi)
    ensures Rows(more, id, h) == Rows(pages, id, h)
    decreases h, 0
  {
    assert more[id] == pages[id];
    if pages[id].Internal? {
      var first, cells := pages[id].first, pages[id].cells;
      NodeKept(pages, more, first, h - 1, lo, Upper(cells, hi));
      RefsKept(pages, more, cells, h - 1, hi);
    }
  }

  lemma {:induction false} RefsKept(pages: seq<Page>, more: seq<Page>, refs: seq<NodeRef>, h: nat, hi: Option<Key>)
    requires pages <= more && ValidRefs(pages, refs, h, hi)
    ensures ValidRefs(more, refs, h, hi)
    ensures AllRows(more, refs, h) == AllRows(pages, refs, h)
    decreases h, |refs|
  {
    if refs == [] {
    } else {
      NodeKept(pages, more, refs[0].page, h, refs[0].minKey, Upper(refs[1..], hi));
      RefsKept(pages, more, refs[1..], h, hi);
    }
  }

  // ----- Bounds may be moved while the rows stay inside them ---------------

  lemma {:induction false} NodeRebound(pages: seq<Page>, id: nat, h: nat,
                                       lo: Key, hi: Option<Key>, lo': Key, hi': Option<Key>)
    requires ValidNode(pages, id, h, lo, hi)
    requires AllFrom(Rows(pages, id, h), lo') && AllBelow(Rows(pages, id, h), hi')
    ensures ValidNode(pages, id, h, lo', hi')
    decreases h, 0
  {
    if pages[id].Internal? {
      var first, cells := pages[id].first, pages[id].cells;
      var a, b := Rows(pages, first, h - 1), AllRows(pages, cells, h - 1);
      assert forall e :: e in a ==> e in a + b;
      assert forall e :: e in b ==> e in a + b;
      NodeRows(pages, first, h - 1, lo, Upper(cells, hi));
      NodeRebound(pages, first, h - 1, lo, Upper(cells, hi), lo', Upper(cells, hi'));
      RefsRebound(pages, cells, h - 1, hi, hi');
    }
  }

  lemma {:induction false} RefsRebound(pages: seq<Page>, refs: seq<NodeRef>, h: nat, hi: Option<Key>, hi': Option<Key>)
    requires ValidRefs(pages, refs, h, hi)
    requires AllBelow(AllRows(pages, refs, h), hi')
    ensures ValidRefs(pages, refs, h, hi')
    decreases h, |refs|
  {
    if refs == [] {
    } else {
      var a, b := Rows(pages, refs[0].page, h), AllRows(pages, refs[1..], h);
      assert forall e :: e in a ==> e in a + b;
      assert forall e :: e in b ==> e in a + b;
      NodeRows(pages, refs[0].page, h, refs[0].minKey, Upper(refs[1..], hi));
      NodeRebound(pages, refs[0].page, h, refs[0].minKey, Upper(refs[1..], hi), refs[0].minKey, Upper(refs[1..], hi'));
      RefsRebound(pages, refs[1..], h, hi, hi');
    }
  }

  // ----- Lists of adjacent nodes ------------------------------------------

  lemma {:induction false} AllRowsConcat(pages: seq<Page>, a: seq<NodeRef>, b: seq<NodeRef>, h: nat)
    ensures AllRows(pages, a + b, h) == AllRows(pages, a, h) + AllRows(pages, b, h)
    decreases |a|
  {
    if a == [] {
      assert a + b == b;
    } else {
      assert (a + b)[1..] == a[1..] + b;
      AllRowsConcat(pages, a[1..], b, h);
    }
  }

  /** Two adjacent lists form one list when the left rows stay below the right's
      first separator. */
  lemma {:induction false} JoinRefs(pages: seq<Page>, a: seq<NodeRef>, b: seq<NodeRef>, h: nat, mid: Option<Key>,
                                    hi: Option<Key>)
    requires ValidRefs(pages, a, h, mid) && ValidRefs(pages, b, h, hi)
    requires AllBelow(AllRows(pages, a, h), Upper(b, hi))
    ensures ValidRefs(pages, a + b, h, hi)
    ensures AllRows(pages, a + b, h) == AllRows(pages, a, h) + AllRows(pages, b, h)
    decreases |a|
  {
    AllRowsConcat(pages, a, b, h);
    RefsRebound(pages, a, h, mid, Upper(b, hi));
    ConcatValid(pages, a, b, h, hi);
  }

  lemma {:induction false} ConcatValid(pages: seq<Page>, a: seq<NodeRef>, b: seq<NodeRef>, h: nat, hi: Option<Key>)
    ensures ValidRefs(pages, a + b, h, hi) <==> ValidRefs(pages, a, h, Upper(b, hi)) && ValidRefs(pages, b, h, hi)
    decreases |a|
  {
    if a == [] {
      assert a + b == b;
    } else {
      assert (a + b)[1..] == a[1..] + b;
      assert Upper(a[1..] + b, hi) == Upper(a[1..], Upper(b, hi));
      ConcatValid(pages, a[1..], b, h, hi);
    }
  }
}
