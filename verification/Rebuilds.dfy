/** Rebuilding a collection's indexes from its documents. */
module Rebuilds {
  import opened Results
  import opened Keys
  import opened Pages
  import opened Mutations
  import opened Stores
  import opened Windows
  import opened Replay
  import opened Indexes
  import opened Documents

  const REBUILD_PAGE := 1024

  // ----- Clearing -----------------------------------------------------------

  /** Deletes every entry of one index. */
  method ClearEntries(m: Store, x: Key) returns (ops: seq<Operation>)
    requires ValidName(x)
    ensures forall j :: 0 <= j < |ops| ==> ops[j].Delete? && EntryPrefix(x) <= ops[j].key
    ensures forall v, p :: EntryKey(x, v, p) in m ==> Named(ops, EntryKey(x, v, p))
  {
    hide EntryKey, EntryPrefix;
    var prefix := EntryPrefix(x);
    var rows := ScanStore(m, Some(prefix), PrefixSuccessor(prefix), |m| + 1);
    RowsFit(rows, |m| + 1, m, Some(prefix), PrefixSuccessor(prefix), None);
    ops := seq(|rows|, i requires 0 <= i < |rows| => Operation.Delete(rows[i].key));
    forall j | 0 <= j < |ops| ensures prefix <= ops[j].key {
      assert rows[j] in rows;
      PrefixIsInterval(prefix, rows[j].key);
    }
    forall v, p | EntryKey(x, v, p) in m ensures Named(ops, EntryKey(x, v, p)) {
      UnderPrefix(x, v, p);
      PrefixIsInterval(prefix, EntryKey(x, v, p));
      var j := IndexOf(rows, EntryKey(x, v, p));
      assert ops[j].key == EntryKey(x, v, p);
    }
  }

  /** Documents as they were in `m0`, and no entry of the fields in `cleared`. */
  ghost predicate Cleared(c: Collection, m0: Store, m: Store, cleared: set<Key>) {
    && (forall d :: IsDocument(c, d) ==> Lookup(m, d) == Lookup(m0, d))
    && (forall f, v, e :: f in cleared ==> Posting(c, f, v, e) !in m)
  }

  /** One index cleared: its entries are gone, nothing else appears, documents stay. */
  lemma ClearStep(c: Collection, m0: Store, m: Store, cleared: set<Key>, f: Key, ops: seq<Operation>, lsn: nat)
    requires Cleared(c, m0, m, cleared)
    requires forall j :: 0 <= j < |ops| ==> ops[j].Delete? && EntryPrefix(IndexName(c, f)) <= ops[j].key
    requires forall v, p :: EntryKey(IndexName(c, f), v, p) in m ==> Named(ops, EntryKey(IndexName(c, f), v, p))
    ensures Cleared(c, m0, RedoAll(m, ops, lsn), cleared + {f})
  {
    hide EntryKey, IndexName, RedoAll, EntryPrefix;
    var m' := RedoAll(m, ops, lsn);
    forall d | IsDocument(c, d) ensures Lookup(m', d) == Lookup(m, d) {
      DocumentPlain(c, d);
      forall j | 0 <= j < |ops| ensures ops[j].key != d { PrefixNotDocument(c, IndexName(c, f), ops[j].key); }
      NotOn(ops, d);
      PresentAfter(m, ops, lsn, d);
    }
    forall g, v, e | g in cleared + {f} ensures Posting(c, g, v, e) !in m' {
      var k := Posting(c, g, v, e);
      EntryKeyPlain(IndexName(c, g), v, e);
      PresentAfter(m, ops, lsn, k);
      if Named(ops, k) { DeletedOn(ops, k); } else { NotOn(ops, k); }
    }
  }

  lemma PrefixNotDocument(c: Collection, x: Key, k: Key)
    requires EntryPrefix(x) <= k
    ensures !IsDocument(c, k)
  {
    assert EntryPrefix(x)[..|ENTRY_BASE|] == ENTRY_BASE;
    assert k[..|ENTRY_BASE|] == EntryPrefix(x)[..|ENTRY_BASE|];
    if IsDocument(c, k) { DocumentPlain(c, k); }
  }

  // ----- One page of documents ----------------------------------------------

  predicate Reached(d: Key, cursor: Option<Key>) {
    cursor.Some? && AtMost(d, cursor.value)
  }

  /** The rebuild's state at a cursor: documents untouched, those reached are readable and
      hold scalars, and the entries are exactly theirs. */
  ghost predicate Rebuilt(decode: Decoder, c: Collection, m0: Store, m: Store, cursor: Option<Key>) {
    && (forall d :: IsDocument(c, d) ==> Lookup(m, d) == Lookup(m0, d))
    && (forall d :: IsDocument(c, d) && d in m0 && Reached(d, cursor) ==> Sound(decode, c, m0, d))
    && (forall f, v, e :: f in c.indexes && ValidIndexValue(v) ==>
          (Posting(c, f, v, e) in m <==> IsDocument(c, e) && Reached(e, cursor) && FieldIs(decode, m0, e, f, v)))
  }

  ghost predicate Sound(decode: Decoder, c: Collection, m: Store, d: Key) {
    d in m && decode(m[d].value).Some? && Indexable(c, decode(m[d].value))
  }

  /** The updates of a page: one per row and field, entering the row's scalar. */
  ghost predicate PageUpdates(us: seq<IndexUpdate>, decode: Decoder, c: Collection, rows: seq<Entry>) {
    && (forall i, f :: 0 <= i < |rows| && f in c.indexes ==>
           UpdateFor(c, rows[i].key, None, decode(rows[i].value), f) in us)
    && (forall u :: u in us ==> FromRow(u, decode, c, rows))
  }

  ghost predicate FromRow(u: IndexUpdate, decode: Decoder, c: Collection, rows: seq<Entry>) {
    exists i, f :: 0 <= i < |rows| && f in c.indexes && u == UpdateFor(c, rows[i].key, None, decode(rows[i].value), f)
  }

  method CollectPage(decode: Decoder, c: Collection, rows: seq<Entry>)
      returns (r: Result<seq<IndexUpdate>, DocumentError>)
    ensures r.Ok? <==> forall i :: 0 <= i < |rows| ==>
              decode(rows[i].value).Some? && Indexable(c, decode(rows[i].value))
    ensures r.Ok? ==> PageUpdates(r.value, decode, c, rows)
  {
    hide IndexName, PageUpdates, UpdatesOf, Indexable, UpdateFor;
    var us: seq<IndexUpdate> := [];
    NoUpdates(decode, c);
    assert rows[..0] == [];
    for i := 0 to |rows|
      invariant forall j :: 0 <= j < i ==> decode(rows[j].value).Some? && Indexable(c, decode(rows[j].value))
      invariant PageUpdates(us, decode, c, rows[..i])
    {
      var fields := decode(rows[i].value);
      if fields.None? {
        return Err(Unreadable);
      }
      NoFields(c);
      var more :- IndexUpdates(c, rows[i].key, None, fields);
      PageGrows(us, more, decode, c, rows, i);
      us := us + more;
    }
    assert rows[..|rows|] == rows;
    return Ok(us);
  }

  lemma NoUpdates(decode: Decoder, c: Collection)
    ensures PageUpdates([], decode, c, [])
  {
  }

  lemma NoFields(c: Collection)
    ensures Indexable(c, None)
  {
  }

  lemma PageGrows(us: seq<IndexUpdate>, more: seq<IndexUpdate>, decode: Decoder, c: Collection, rows: seq<Entry>,
                  i: nat)
    requires i < |rows| && PageUpdates(us, decode, c, rows[..i])
    requires UpdatesOf(more, c, rows[i].key, None, decode(rows[i].value))
    ensures PageUpdates(us + more, decode, c, rows[..i + 1])
  {
    hide UpdateFor, FromRow, UpdatesOf;
    var b := rows[..i + 1];
    forall u | u in us + more ensures FromRow(u, decode, c, b) {
      RowKept(u, us, more, decode, c, rows, i);
    }
    forall j, f | 0 <= j < |b| && f in c.indexes
      ensures UpdateFor(c, b[j].key, None, decode(b[j].value), f) in us + more
    {
      if j < i {
        assert b[j] == rows[..i][j];
      } else {
        FieldIn(more, c, rows[i].key, None, decode(rows[i].value), f);
      }
    }
  }

  lemma FieldIn(us: seq<IndexUpdate>, c: Collection, d: Key, before: Option<Fields>, after: Option<Fields>, f: Key)
    requires UpdatesOf(us, c, d, before, after) && f in c.indexes
    ensures UpdateFor(c, d, before, after, f) in us
  {
  }

  lemma RowKept(u: IndexUpdate, us: seq<IndexUpdate>, more: seq<IndexUpdate>, decode: Decoder, c: Collection,
                rows: seq<Entry>, i: nat)
    requires i < |rows| && u in us + more && (u in us ==> FromRow(u, decode, c, rows[..i]))
    requires UpdatesOf(more, c, rows[i].key, None, decode(rows[i].value))
    ensures FromRow(u, decode, c, rows[..i + 1])
  {
    hide UpdateFor;
    var a, b := rows[..i], rows[..i + 1];
    if u in us {
      var j, f :| 0 <= j < |a| && f in c.indexes && u == UpdateFor(c, a[j].key, None, decode(a[j].value), f);
      assert a[j] == b[j];
    } else {
      assert u in more;
      var f :| f in c.indexes && u == UpdateFor(c, rows[i].key, None, decode(rows[i].value), f);
      assert b[i] == rows[i];
    }
  }

  // ----- What a page's updates do -------------------------------------------

  /** The rows are exactly the documents between two cursors. */
  ghost predicate Between(rows: seq<Entry>, c: Collection, m: Store, cursor: Option<Key>, last: Key) {
    && (forall i :: 0 <= i < |rows| ==>
           HoldsRow(m, rows[i]) && IsDocument(c, rows[i].key) && AtMost(rows[i].key, last) &&
           !Reached(rows[i].key, cursor))
    && (forall d :: IsDocument(c, d) && d in m && AtMost(d, last) && !Reached(d, cursor) ==> HasKey(rows, d))
    && (forall d :: Reached(d, cursor) ==> AtMost(d, last))
  }

  /** A page enters exactly its documents' scalars. */
  lemma PageEnters(us: seq<IndexUpdate>, decode: Decoder, c: Collection, rows: seq<Entry>, m: Store, f: Key, v: Value,
                   e: Key)
    requires ValidCollection(c) && PageUpdates(us, decode, c, rows) && f in c.indexes
    requires forall i :: 0 <= i < |rows| ==>
               HoldsRow(m, rows[i])
    ensures EntersFor(us, IndexName(c, f), v, e) <==> HasKey(rows, e) && FieldIs(decode, m, e, f, v)
    ensures !Released(us, IndexName(c, f), v, e)
  {
    hide IndexName, ValidCollection, UpdateFor, FieldIs, HoldsRow, PageUpdates;
    forall i | 0 <= i < |us| ensures us[i].oldValue == None { var j, g := RowOf(us, decode, c, rows, i); }
    if EntersFor(us, IndexName(c, f), v, e) {
      var i :| 0 <= i < |us| && Enters(us[i], IndexName(c, f), v) && us[i].primary == e;
      EnteredFrom(us, decode, c, rows, m, f, v, i);
    }
    if HasKey(rows, e) && FieldIs(decode, m, e, f, v) {
      var j := IndexOf(rows, e);
      var u := UpdateFor(c, rows[j].key, None, decode(rows[j].value), f);
      RowIn(us, decode, c, rows, j, f);
      var i :| 0 <= i < |us| && us[i] == u;
      RowEnters(decode, c, m, rows[j], f, v);
    }
  }

  lemma RowIn(us: seq<IndexUpdate>, decode: Decoder, c: Collection, rows: seq<Entry>, j: nat, f: Key)
    requires PageUpdates(us, decode, c, rows) && j < |rows| && f in c.indexes
    ensures UpdateFor(c, rows[j].key, None, decode(rows[j].value), f) in us
  {
    hide FromRow, UpdateFor;
  }

  lemma RowOf(us: seq<IndexUpdate>, decode: Decoder, c: Collection, rows: seq<Entry>, i: nat) returns (j: nat, f: Key)
    requires PageUpdates(us, decode, c, rows) && i < |us|
    ensures j < |rows| && f in c.indexes && us[i] == UpdateFor(c, rows[j].key, None, decode(rows[j].value), f)
    ensures us[i].oldValue == None
  {
    hide IndexName, PageUpdates;
    InPage(us, decode, c, rows, i);
    j, f :| 0 <= j < |rows| && f in c.indexes && us[i] == UpdateFor(c, rows[j].key, None, decode(rows[j].value), f);
  }

  lemma InPage(us: seq<IndexUpdate>, decode: Decoder, c: Collection, rows: seq<Entry>, i: nat)
    requires PageUpdates(us, decode, c, rows) && i < |us|
    ensures FromRow(us[i], decode, c, rows)
  {
    hide FromRow, UpdateFor;
    assert us[i] in us;
  }

  lemma EnteredFrom(us: seq<IndexUpdate>, decode: Decoder, c: Collection, rows: seq<Entry>, m: Store, f: Key, v: Value,
                    i: nat)
    requires ValidCollection(c) && PageUpdates(us, decode, c, rows) && f in c.indexes
    requires forall j :: 0 <= j < |rows| ==>
               HoldsRow(m, rows[j])
    requires i < |us| && Enters(us[i], IndexName(c, f), v)
    ensures HasKey(rows, us[i].primary) && FieldIs(decode, m, us[i].primary, f, v)
  {
    hide IndexName, PageUpdates;
    var j, g := RowOf(us, decode, c, rows, i);
    IndexNameInjective(c, g, f);
    assert rows[j] in rows;
  }

  lemma RowEnters(decode: Decoder, c: Collection, m: Store, row: Entry, f: Key, v: Value)
    requires HoldsRow(m, row) && FieldIs(decode, m, row.key, f, v)
    ensures var u := UpdateFor(c, row.key, None, decode(row.value), f);
            Enters(u, IndexName(c, f), v) && u.primary == row.key
  {
    hide IndexName;
  }

  lemma PageStep(decode: Decoder, c: Collection, m0: Store, m: Store, cursor: Option<Key>, rows: seq<Entry>,
                 us: seq<IndexUpdate>, last: Key, lsn: nat)
    requires ValidCollection(c) && Rebuilt(decode, c, m0, m, cursor) && Between(rows, c, m, cursor, last)
    requires PageUpdates(us, decode, c, rows)
    requires forall i :: 0 <= i < |us| ==> ValidUpdate(us[i])
    requires forall i :: 0 <= i < |rows| ==> decode(rows[i].value).Some? && Indexable(c, decode(rows[i].value))
    ensures Rebuilt(decode, c, m0, RedoAll(m, UpdatesOps(us), lsn), Some(last))
  {
    hide IndexName, EntryKey, UpdatesOps, RedoAll, ValidCollection, PageUpdates, Indexable, FieldIs, IsDocument;
    var m' := RedoAll(m, UpdatesOps(us), lsn);
    forall d | IsDocument(c, d) ensures Lookup(m', d) == Lookup(m0, d) {
      UpdatesAvoid(c, us, d);
      DocumentPlain(c, d);
      PresentAfter(m, UpdatesOps(us), lsn, d);
    }
    forall d | IsDocument(c, d) && d in m0 && AtMost(d, last) ensures Sound(decode, c, m0, d) {
      if !Reached(d, cursor) {
        assert Lookup(m, d) == Lookup(m0, d);
        var j := IndexOf(rows, d);
      }
    }
    forall f, v, e | f in c.indexes && ValidIndexValue(v)
      ensures Posting(c, f, v, e) in m' <==> IsDocument(c, e) && AtMost(e, last) && FieldIs(decode, m0, e, f, v)
    {
      PagePosting(decode, c, m0, m, cursor, rows, us, last, lsn, f, v, e);
    }
  }

  lemma PagePosting(decode: Decoder, c: Collection, m0: Store, m: Store, cursor: Option<Key>, rows: seq<Entry>,
                    us: seq<IndexUpdate>, last: Key, lsn: nat,
                    f: Key, v: Value, e: Key)
    requires ValidCollection(c) && Rebuilt(decode, c, m0, m, cursor) && Between(rows, c, m, cursor, last)
    requires PageUpdates(us, decode, c, rows)
    requires (forall i :: 0 <= i < |us| ==> ValidUpdate(us[i])) && f in c.indexes && ValidIndexValue(v)
    ensures Posting(c, f, v, e) in RedoAll(m, UpdatesOps(us), lsn) <==>
              IsDocument(c, e) && AtMost(e, last) && FieldIs(decode, m0, e, f, v)
  {
    hide IndexName, EntryKey, UpdatesOps, RedoAll, ValidCollection, PageUpdates, Indexable, IsDocument, LastOn,
         EntersFor, Released;
    NameValid(c, f);
    EntryKeyPlain(IndexName(c, f), v, e);
    PresentAfter(m, UpdatesOps(us), lsn, Posting(c, f, v, e));
    UpdatesOn(us, IndexName(c, f), v, e);
    PageEnters(us, decode, c, rows, m, f, v, e);
    Either(LastOn(UpdatesOps(us), Posting(c, f, v, e)));
    if HasKey(rows, e) {
      var j := IndexOf(rows, e);
      assert Lookup(m, e) == Lookup(m0, e);
    }
    if IsDocument(c, e) && AtMost(e, last) && FieldIs(decode, m0, e, f, v) && !Reached(e, cursor) {
      assert Lookup(m, e) == Lookup(m0, e);
      assert HasKey(rows, e);
    }
  }

  // ----- When a page is accepted --------------------------------------------

  /** No two documents share a value of a unique field. */
  ghost predicate NoTwins(decode: Decoder, c: Collection, unique: map<Key, bool>, m: Store) {
    forall f, v, d, e :: IsUnique(c, unique, f) && IsDocument(c, d) && IsDocument(c, e) ==>
      FieldIs(decode, m, d, f, v) && FieldIs(decode, m, e, f, v) ==> d == e
  }

  lemma PageAccepted(decode: Decoder, c: Collection, unique: map<Key, bool>, m0: Store, m: Store, cursor: Option<Key>,
                     rows: seq<Entry>, us: seq<IndexUpdate>, last: Key)
    requires ValidCollection(c) && Declared(c, unique) && Rebuilt(decode, c, m0, m, cursor)
    requires Between(rows, c, m, cursor, last)
    requires PageUpdates(us, decode, c, rows) && (forall i :: 0 <= i < |us| ==> ValidUpdate(us[i]))
    requires NoTwins(decode, c, unique, m0)
    ensures Accepts(m, unique, us)
  {
    hide IndexName, EntryKey, ValidCollection, PageUpdates, Rebuilt, Between, NoTwins, Claimable, IsUnique;
    forall i | 0 <= i < |us| ensures us[i].index in unique && (unique[us[i].index] ==> Claimable(m, us, i)) {
      var j, f := RowOf(us, decode, c, rows, i);
      if unique[us[i].index] {
        UniqueField(c, unique, f);
        ClaimHolds(decode, c, unique, m0, m, cursor, rows, us, last, i, f);
      }
    }
  }

  lemma UniqueField(c: Collection, unique: map<Key, bool>, f: Key)
    requires Declared(c, unique) && f in c.indexes
    ensures IsUnique(c, unique, f) <==> unique[IndexName(c, f)]
  {
  }

  lemma ClaimHolds(decode: Decoder, c: Collection, unique: map<Key, bool>, m0: Store, m: Store, cursor: Option<Key>,
                   rows: seq<Entry>, us: seq<IndexUpdate>, last: Key,
                   i: nat, f: Key)
    requires ValidCollection(c) && Rebuilt(decode, c, m0, m, cursor) && Between(rows, c, m, cursor, last)
    requires PageUpdates(us, decode, c, rows) && (forall j :: 0 <= j < |us| ==> ValidUpdate(us[j]))
    requires NoTwins(decode, c, unique, m0)
    requires i < |us| && IsUnique(c, unique, f) && us[i].index == IndexName(c, f)
    ensures Claimable(m, us, i)
  {
    hide IndexName, EntryKey, ValidCollection, PageUpdates, Rebuilt, Between;
    if us[i].oldValue != us[i].newValue && us[i].newValue.Some? {
      var v := us[i].newValue.value;
      HolderIs(decode, c, m0, m, cursor, rows, us, last, f, v, i);
      forall j | 0 <= j < i && Enters(us[j], us[i].index, v) ensures us[j].primary == us[i].primary {
        HolderIs(decode, c, m0, m, cursor, rows, us, last, f, v, j);
      }
      forall q | EntryKey(us[i].index, v, q) in m ensures q == us[i].primary {
        HolderWas(decode, c, m0, m, cursor, f, v, q);
      }
    }
  }

  lemma HolderIs(decode: Decoder, c: Collection, m0: Store, m: Store, cursor: Option<Key>, rows: seq<Entry>,
                 us: seq<IndexUpdate>, last: Key, f: Key, v: Value, i: nat)
    requires ValidCollection(c) && Rebuilt(decode, c, m0, m, cursor) && Between(rows, c, m, cursor, last)
    requires PageUpdates(us, decode, c, rows)
    requires f in c.indexes && i < |us| && Enters(us[i], IndexName(c, f), v)
    ensures IsDocument(c, us[i].primary) && FieldIs(decode, m0, us[i].primary, f, v)
  {
    hide IndexName, EntryKey, ValidCollection, PageUpdates, IsDocument, Sound;
    EnteredFrom(us, decode, c, rows, m, f, v, i);
    var j := IndexOf(rows, us[i].primary);
    assert Lookup(m, us[i].primary) == Lookup(m0, us[i].primary);
  }

  lemma HolderWas(decode: Decoder, c: Collection, m0: Store, m: Store, cursor: Option<Key>, f: Key, v: Value, q: Key)
    requires Rebuilt(decode, c, m0, m, cursor) && f in c.indexes && ValidIndexValue(v)
    requires EntryKey(IndexName(c, f), v, q) in m
    ensures IsDocument(c, q) && FieldIs(decode, m0, q, f, v)
  {
    hide IndexName, EntryKey, IsDocument, FieldIs, Sound;
    assert Posting(c, f, v, q) in m;
  }

  // ----- The whole rebuild --------------------------------------------------

  ghost predicate Rebuildable(decode: Decoder, c: Collection, unique: map<Key, bool>, m: Store) {
    (forall d :: IsDocument(c, d) && d in m ==> Sound(decode, c, m, d)) && NoTwins(decode, c, unique, m)
  }

  lemma RebuildableMeans(decode: Decoder, c: Collection, unique: map<Key, bool>, m: Store)
    ensures Rebuildable(decode, c, unique, m) <==>
            && (forall d :: IsDocument(c, d) && d in m ==> decode(m[d].value).Some?)
            && (forall d, f :: IsDocument(c, d) && d in m && f in c.indexes ==>
                  FieldOf(decode(m[d].value), f) != Some(Composite))
            && forall f, v, d, e |
                 && IsUnique(c, unique, f) && IsDocument(c, d) && IsDocument(c, e)
                 && FieldIs(decode, m, d, f, v) && FieldIs(decode, m, e, f, v) :: d == e
  {
    hide IsDocument, IsUnique;
  }

  ghost function DocumentsOf(c: Collection, m: Store): set<Key> {
    set d | d in m && IsDocument(c, d)
  }

  ghost function ReachedDocuments(c: Collection, m: Store, cursor: Option<Key>): set<Key> {
    set d | d in m && IsDocument(c, d) && Reached(d, cursor)
  }

  ghost predicate UniqueAll(c: Collection, unique: map<Key, bool>, m: Store) {
    forall f :: IsUnique(c, unique, f) ==> UniqueIn(m, IndexName(c, f))
  }

  /** Drops every entry of the collection's indexes. */
  method ClearAll(c: Collection, m0: Store, at: nat) returns (m: Store, lsn: nat)
    requires ValidCollection(c)
    ensures Cleared(c, m0, m, c.indexes.Keys)
  {
    hide Cleared, IndexName, EntryKey, EntryPrefix, Named, RedoAll, ValidCollection;
    m, lsn := m0, at;
    var left := c.indexes.Keys;
    NothingCleared(c, m0);
    assert c.indexes.Keys - left == {};
    while left != {}
      invariant left <= c.indexes.Keys && Cleared(c, m0, m, c.indexes.Keys - left)
      decreases |left|
    {
      var f :| f in left;
      NameValid(c, f);
      var ops := ClearEntries(m, IndexName(c, f));
      ClearStep(c, m0, m, c.indexes.Keys - left, f, ops, lsn);
      m, lsn := RedoAll(m, ops, lsn), lsn + 1;
      assert c.indexes.Keys - left + {f} == c.indexes.Keys - (left - {f});
      left := left - {f};
    }
    assert c.indexes.Keys - {} == c.indexes.Keys;
  }

  lemma NothingCleared(c: Collection, m: Store)
    ensures Cleared(c, m, m, {})
  {
  }

  lemma ClearedStarts(decode: Decoder, c: Collection, unique: map<Key, bool>, m0: Store, m: Store)
    requires Cleared(c, m0, m, c.indexes.Keys)
    ensures Rebuilt(decode, c, m0, m, None) && UniqueAll(c, unique, m)
  {
    hide IndexName, EntryKey, IsDocument;
    forall f, v, e | f in c.indexes ensures EntryKey(IndexName(c, f), v, e) !in m {
      assert Posting(c, f, v, e) !in m;
    }
  }

  /** One page of at most 1024 rows from the cursor on, without the cursor's own row. */
  method NextPage(c: Collection, m: Store, cursor: Option<Key>) returns (news: seq<Entry>)
    requires cursor.Some? ==> IsDocument(c, cursor.value)
    ensures news == [] ==> forall d :: IsDocument(c, d) && d in m ==> Reached(d, cursor)
    ensures news != [] ==> Sorted(news) && Between(news, c, m, cursor, news[|news| - 1].key)
  {
    hide CollectionPrefix, FirstRows, Between, IsDocument, Reached, PrefixSuccessor, Less;
    var prefix := CollectionPrefix(c);
    var lo := if cursor.Some? then cursor else Some(prefix);
    var batch := ScanStore(m, lo, PrefixSuccessor(prefix), REBUILD_PAGE);
    assert Sorted(batch) by { FirstSorted(batch, REBUILD_PAGE, m, lo, PrefixSuccessor(prefix)); }
    news := [];
    for i := 0 to |batch|
      invariant forall e :: e in news <==> e in batch[..i] && cursor != Some(e.key)
      invariant Sorted(news)
    {
      assert batch[..i + 1] == batch[..i] + [batch[i]];
      forall e | e in news ensures Less(e.key, batch[i].key) {
        var j :| 0 <= j < i && batch[..i][j] == e;
      }
      if cursor != Some(batch[i].key) {
        news := news + [batch[i]];
      }
    }
    assert batch[..|batch|] == batch;
    if news == [] {
      LastPage(c, m, cursor, batch);
    } else {
      PageBetween(c, m, cursor, batch, news);
    }
  }

  lemma FirstSorted(rows: seq<Entry>, limit: nat, m: Store, lo: Option<Key>, hi: Option<Key>)
    requires FirstRows(rows, limit, m, lo, hi, None)
    ensures Sorted(rows)
  {
  }

  /** The scan's window, in terms of the cursor. */
  lemma Windowed(c: Collection, cursor: Option<Key>, d: Key)
    requires cursor.Some? ==> IsDocument(c, cursor.value)
    ensures var lo := if cursor.Some? then cursor else Some(CollectionPrefix(c));
            Selected(d, lo, PrefixSuccessor(CollectionPrefix(c)), None) <==>
                IsDocument(c, d) && (!Reached(d, cursor) || cursor == Some(d))
  {
    hide CollectionPrefix, PrefixSuccessor, Less;
    var p := CollectionPrefix(c);
    PrefixIsInterval(p, d);
    if cursor.Some? {
      PrefixIsInterval(p, cursor.value);
      LessTotal(d, cursor.value);
      LessIrreflexive(d);
      if Less(d, cursor.value) && Less(cursor.value, d) { LessTransitive(d, cursor.value, d); }
      if AtMost(cursor.value, d) && Less(d, p) {
        LessTotal(d, cursor.value);
        if Less(cursor.value, d) { LessTransitive(cursor.value, d, p); }
      }
    }
  }

  lemma LastPage(c: Collection, m: Store, cursor: Option<Key>, batch: seq<Entry>)
    requires cursor.Some? ==> IsDocument(c, cursor.value)
    requires FirstRows(batch, REBUILD_PAGE, m, if cursor.Some? then cursor
             else Some(CollectionPrefix(c)), PrefixSuccessor(CollectionPrefix(c)), None)
    requires forall e :: e in batch ==> cursor == Some(e.key)
    ensures forall d :: IsDocument(c, d) && d in m ==> Reached(d, cursor)
  {
    hide CollectionPrefix, PrefixSuccessor, Less, Selected, IsDocument;
    if |batch| > 1 {
      assert batch[0] in batch && batch[1] in batch;
      LessIrreflexive(batch[0].key);
    }
    forall d | IsDocument(c, d) && d in m ensures Reached(d, cursor) {
      Windowed(c, cursor, d);
      LessIrreflexive(d);
    }
  }

  lemma PageBetween(c: Collection, m: Store, cursor: Option<Key>, batch: seq<Entry>, news: seq<Entry>)
    requires cursor.Some? ==> IsDocument(c, cursor.value)
    requires FirstRows(batch, REBUILD_PAGE, m, if cursor.Some? then cursor
             else Some(CollectionPrefix(c)), PrefixSuccessor(CollectionPrefix(c)), None)
    requires news != [] && Sorted(news) && forall e :: e in news <==> e in batch && cursor != Some(e.key)
    ensures Between(news, c, m, cursor, news[|news| - 1].key)
  {
    hide CollectionPrefix, PrefixSuccessor, Less, Selected, IsDocument;
    var last := news[|news| - 1].key;
    forall i | 0 <= i < |news|
      ensures HoldsRow(m, news[i]) && IsDocument(c, news[i].key) && AtMost(news[i].key, last)
      ensures !Reached(news[i].key, cursor)
    {
      assert news[i] in news;
      Windowed(c, cursor, news[i].key);
      LessIrreflexive(last);
      if Less(last, news[i].key) && Less(news[i].key, last) { LessTransitive(last, news[i].key, last); }
    }
    forall d | IsDocument(c, d) && d in m && AtMost(d, last) && !Reached(d, cursor) ensures HasKey(news, d) {
      Windowed(c, cursor, d);
      NotPast(batch, news[|news| - 1], d);
      LessIrreflexive(d);
      var j := IndexOf(batch, d);
      assert batch[j] in news;
    }
    forall d | Reached(d, cursor) ensures AtMost(d, last) {
      assert !Reached(last, cursor);
      LessTotal(d, cursor.value);
      if Less(d, cursor.value) { LessTransitive(d, cursor.value, last); }
      LessIrreflexive(last);
      if Less(last, d) && Less(d, last) { LessTransitive(d, last, d); LessIrreflexive(d); }
    }
  }

  lemma NotPast(batch: seq<Entry>, e: Entry, d: Key)
    requires Sorted(batch) && e in batch && AtMost(d, e.key)
    ensures !PastEnd(batch, REBUILD_PAGE, d)
  {
    hide Less;
    var i :| 0 <= i < |batch| && batch[i] == e;
    if |batch| == REBUILD_PAGE && i < REBUILD_PAGE - 1 && Less(batch[REBUILD_PAGE - 1].key, d) {
      LessTransitive(e.key, batch[REBUILD_PAGE - 1].key, d);
    }
  }

  /** Rebuilds every declared index from the documents on disk. It succeeds exactly when
      every document is readable with scalar indexed fields and no two share a unique value;
      then the indexes are exact, whatever entries were there before. */
  method RebuildIndexes(decode: Decoder, c: Collection, unique: map<Key, bool>, m0: Store, at: nat)
    returns (r: Result<nat, DocumentError>, m: Store, lsn: nat)
    requires ValidCollection(c) && SmallScalars(decode) && Declared(c, unique)
    ensures c.indexes == map[] ==> r == Ok(0) && m == m0
    ensures c.indexes != map[] ==> (r.Ok? <==> Rebuildable(decode, c, unique, m0))
    ensures c.indexes != map[] ==>
              (r.Ok? <==>
                 && (forall d :: IsDocument(c, d) && d in m0 ==> decode(m0[d].value).Some?)
                 && (forall d, f :: IsDocument(c, d) && d in m0 && f in c.indexes ==>
                       FieldOf(decode(m0[d].value), f) != Some(Composite))
                 && forall f, v, d, e |
                      && IsUnique(c, unique, f) && IsDocument(c, d) && IsDocument(c, e)
                      && FieldIs(decode, m0, d, f, v) && FieldIs(decode, m0, e, f, v) :: d == e)
    ensures c.indexes != map[] && r.Ok? ==> ExactIndexes(decode, c, m) && r.value == |DocumentsOf(c, m0)|
    ensures (forall d :: IsDocument(c, d) ==> Lookup(m, d) == Lookup(m0, d)) && UniqueAll(c, unique, m)
  {
    RebuildableMeans(decode, c, unique, m0);
    hide ValidCollection, SmallScalars, Declared, Rebuilt, Rebuildable, ExactIndexes, IsDocument, Between, PageUpdates,
         Cleared, UniqueAll, RedoAll, UpdatesOps,
         Accepts, Indexable, Sorted, DocumentsOf, ReachedDocuments, IndexName;
    if c.indexes == map[] {
      NoIndexes(decode, c, unique, m0);
      return Ok(0), m0, at;
    }
    m, lsn := ClearAll(c, m0, at);
    ClearedStarts(decode, c, unique, m0, m);
    var rebuilt := 0;
    var cursor: Option<Key> := None;
    NoneReached(c, m0);
    while true
      invariant Rebuilt(decode, c, m0, m, cursor) && UniqueAll(c, unique, m)
      invariant cursor.Some? ==> IsDocument(c, cursor.value)
      invariant rebuilt == |ReachedDocuments(c, m0, cursor)|
      decreases |DocumentsOf(c, m0)| - rebuilt
    {
      SameDocuments(decode, c, m0, m, cursor);
      var news := NextPage(c, m, cursor);
      if news == [] {
        break;
      }
      var last := news[|news| - 1].key;
      var page := CollectPage(decode, c, news);
      PageRows(decode, c, m0, m, cursor, news, last);
      if page.Err? {
        UnsoundPage(decode, c, unique, m0, m, cursor, news, last);
        return Err(page.error), m, lsn;
      }
      var us := page.value;
      PageValid(decode, c, news, us);
      var plan := PlanUpdates(m, unique, us);
      if plan.Err? {
        RefusedPage(decode, c, unique, m0, m, cursor, news, us, last);
        return Err(Refused(plan.error)), m, lsn;
      }
      PageStep(decode, c, m0, m, cursor, news, us, last, lsn);
      PageUnique(c, unique, m, us, lsn);
      CountPage(decode, c, m0, m, cursor, news, last);
      m, lsn := RedoAll(m, plan.value, lsn), lsn + 1;
      cursor, rebuilt := Some(last), rebuilt + |news|;
    }
    RebuildDone(decode, c, unique, m0, m, cursor);
    return Ok(rebuilt), m, lsn;
  }

  lemma NoIndexes(decode: Decoder, c: Collection, unique: map<Key, bool>, m: Store)
    requires c.indexes == map[]
    ensures UniqueAll(c, unique, m) && Tidy(decode, c, m)
  {
  }

  lemma NoneReached(c: Collection, m: Store)
    ensures |ReachedDocuments(c, m, None)| == 0
  {
    assert ReachedDocuments(c, m, None) == {};
  }

  lemma SameDocuments(decode: Decoder, c: Collection, m0: Store, m: Store, cursor: Option<Key>)
    requires Rebuilt(decode, c, m0, m, cursor)
    ensures forall d :: IsDocument(c, d) ==> Lookup(m, d) == Lookup(m0, d)
  {
    hide IsDocument, Sound, FieldIs, Posting;
  }

  /** The page's rows are documents of the original store, the last among them. */
  lemma PageRows(decode: Decoder, c: Collection, m0: Store, m: Store, cursor: Option<Key>, rows: seq<Entry>, last: Key)
    requires Rebuilt(decode, c, m0, m, cursor) && Between(rows, c, m, cursor, last) && rows != []
    requires last == rows[|rows| - 1].key
    ensures IsDocument(c, last) && forall i :: 0 <= i < |rows| ==> IsDocument(c, rows[i].key) && HoldsRow(m0, rows[i])
  {
    hide IsDocument, Sound, FieldIs, Posting;
    forall i | 0 <= i < |rows| ensures IsDocument(c, rows[i].key) && HoldsRow(m0, rows[i]) {
      assert HoldsRow(m, rows[i]) && Lookup(m, rows[i].key) == Lookup(m0, rows[i].key);
    }
  }

  lemma UnsoundPage(decode: Decoder, c: Collection, unique: map<Key, bool>, m0: Store, m: Store, cursor: Option<Key>,
                    rows: seq<Entry>, last: Key)
    requires forall i :: 0 <= i < |rows| ==> IsDocument(c, rows[i].key) && HoldsRow(m0, rows[i])
    requires !(forall i :: 0 <= i < |rows| ==> decode(rows[i].value).Some? && Indexable(c, decode(rows[i].value)))
    ensures !Rebuildable(decode, c, unique, m0)
  {
    hide IsDocument, Indexable, NoTwins;
    var i :| 0 <= i < |rows| && !(decode(rows[i].value).Some? && Indexable(c, decode(rows[i].value)));
    assert !Sound(decode, c, m0, rows[i].key);
  }

  lemma PageValid(decode: Decoder, c: Collection, rows: seq<Entry>, us: seq<IndexUpdate>)
    requires ValidCollection(c) && SmallScalars(decode) && PageUpdates(us, decode, c, rows)
    ensures forall i :: 0 <= i < |us| ==> ValidUpdate(us[i])
  {
    hide IndexName, PageUpdates;
    forall i | 0 <= i < |us| ensures ValidUpdate(us[i]) {
      var j, f := RowOf(us, decode, c, rows, i);
      NameValid(c, f);
    }
  }

  lemma RefusedPage(decode: Decoder, c: Collection, unique: map<Key, bool>, m0: Store, m: Store, cursor: Option<Key>,
                    rows: seq<Entry>, us: seq<IndexUpdate>, last: Key)
    requires ValidCollection(c) && Declared(c, unique) && Rebuilt(decode, c, m0, m, cursor)
    requires Between(rows, c, m, cursor, last)
    requires PageUpdates(us, decode, c, rows) && (forall i :: 0 <= i < |us| ==> ValidUpdate(us[i]))
    requires !Accepts(m, unique, us)
    ensures !Rebuildable(decode, c, unique, m0)
  {
    hide ValidCollection, Declared, Rebuilt, Between, PageUpdates, Accepts, NoTwins, Sound, IsDocument;
    if NoTwins(decode, c, unique, m0) {
      PageAccepted(decode, c, unique, m0, m, cursor, rows, us, last);
    }
  }

  lemma PageUnique(c: Collection, unique: map<Key, bool>, m: Store, us: seq<IndexUpdate>, lsn: nat)
    requires ValidCollection(c) && UniqueAll(c, unique, m) && Accepts(m, unique, us)
    requires forall i :: 0 <= i < |us| ==>
               ValidUpdate(us[i])
    ensures UniqueAll(c, unique, RedoAll(m, UpdatesOps(us), lsn))
  {
    hide IndexName, EntryKey, Accepts, UniqueIn, RedoAll, UpdatesOps, ValidCollection;
    forall f | IsUnique(c, unique, f) ensures UniqueIn(RedoAll(m, UpdatesOps(us), lsn), IndexName(c, f)) {
      NameValid(c, f);
      AcceptedKeepsUnique(m, m, unique, us, lsn, IndexName(c, f));
    }
  }

  /** The page's documents are new to the count. */
  lemma CountPage(decode: Decoder, c: Collection, m0: Store, m: Store, cursor: Option<Key>, rows: seq<Entry>, last: Key)
    requires Rebuilt(decode, c, m0, m, cursor) && Between(rows, c, m, cursor, last) && Sorted(rows) && rows != []
    ensures |ReachedDocuments(c, m0, Some(last))| == |ReachedDocuments(c, m0, cursor)| + |rows| <= |DocumentsOf(c, m0)|
  {
    hide IsDocument, Sound, FieldIs, Posting, Sorted;
    var before, after := ReachedDocuments(c, m0, cursor), ReachedDocuments(c, m0, Some(last));
    KeySetSize(rows);
    forall d ensures d in after <==> d in before || d in KeySet(rows) {
      if IsDocument(c, d) { assert Lookup(m, d) == Lookup(m0, d); }
      if d in KeySet(rows) {
        var j := IndexOf(rows, d);
        assert HoldsRow(m, rows[j]);
      }
      if d in after && d !in before {
        assert HasKey(rows, d);
      }
    }
    assert after == before + KeySet(rows);
    forall d | d in before ensures d !in KeySet(rows) {
      if d in KeySet(rows) { var j := IndexOf(rows, d); }
    }
    assert before !! KeySet(rows);
    Smaller(after, DocumentsOf(c, m0));
  }

  lemma RebuildDone(decode: Decoder, c: Collection, unique: map<Key, bool>, m0: Store, m: Store, cursor: Option<Key>)
    requires ValidCollection(c) && SmallScalars(decode) && Rebuilt(decode, c, m0, m, cursor) && UniqueAll(c, unique, m)
    requires forall d :: IsDocument(c, d) && d in m ==> Reached(d, cursor)
    ensures ExactIndexes(decode, c, m) && Rebuildable(decode, c, unique, m0)
    ensures ReachedDocuments(c, m0, cursor) == DocumentsOf(c, m0)
  {
    hide IndexName, EntryKey, IsDocument, ValidCollection, Indexable, Reached;
    forall d | IsDocument(c, d)
      ensures Lookup(m, d) == Lookup(m0, d) && (d in m0 ==> Reached(d, cursor) && Sound(decode, c, m0, d))
    {
    }
    DoneExact(decode, c, m0, m, cursor);
    forall f, v, d, e | IsUnique(c, unique, f) && IsDocument(c, d) && IsDocument(c, e) &&
        FieldIs(decode, m0, d, f, v) && FieldIs(decode, m0, e, f, v)
      ensures d == e
    {
      assert ScalarOf(FieldOf(decode(m0[d].value), f)) == Some(v);
      assert Posting(c, f, v, d) in m && Posting(c, f, v, e) in m;
    }
  }

  lemma DoneExact(decode: Decoder, c: Collection, m0: Store, m: Store, cursor: Option<Key>)
    requires Rebuilt(decode, c, m0, m, cursor)
    requires forall d :: IsDocument(c, d) && d in m0 ==> Reached(d, cursor)
    ensures ExactIndexes(decode, c, m)
  {
    hide IndexName, EntryKey, IsDocument, Indexable, Reached, Posting;
    forall d | IsDocument(c, d) ensures (d in m ==> decode(m[d].value).Some?) && ExactAt(decode, c, m, d) {
      assert Lookup(m, d) == Lookup(m0, d);
      forall f, v | f in c.indexes && ValidIndexValue(v)
        ensures Posting(c, f, v, d) in m <==> FieldIs(decode, m, d, f, v)
      {
        assert Posting(c, f, v, d) in m <==> Reached(d, cursor) && FieldIs(decode, m0, d, f, v);
      }
    }
  }

  /** ExactIndexes indexes are determined by the documents, so a second rebuild changes no entry. */
  lemma ExactDetermined(decode: Decoder, c: Collection, a: Store, b: Store, f: Key, v: Value, d: Key)
    requires ExactIndexes(decode, c, a) && ExactIndexes(decode, c, b) && f in c.indexes && ValidIndexValue(v)
    requires forall e :: IsDocument(c, e) ==> Lookup(a, e) == Lookup(b, e)
    ensures Posting(c, f, v, d) in a <==> Posting(c, f, v, d) in b
  {
    hide IndexName, EntryKey, IsDocument, Posting;
    if IsDocument(c, d) {
      assert ExactAt(decode, c, a, d) && ExactAt(decode, c, b, d) && Lookup(a, d) == Lookup(b, d);
    }
  }
}
