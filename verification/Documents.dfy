/** Document collections over secondary indexes: puts, deletes, the repair of entries that an
    unreadable document left behind, rebuilds, and exact lookups by field. */
module Documents {
  import opened Results
  import opened Keys
  import opened Bytes
  import opened Pages
  import opened Stores
  import opened Windows
  import opened Replay
  import opened Revisions
  import opened Indexes

  /** The bytes of "\0vyrn:doc-index:". */
  const INDEX_PREFIX: Key := INTERNAL_PREFIX + [100, 111, 99, 45, 105, 110, 100, 101, 120, 58]

  /** An indexed field's value: a scalar has an exact encoding, an array or object has none. */
  datatype Encoded = Scalar(bytes: Value) | Composite

  type Fields = map<Key, Encoded>

  /** How stored bytes decode; no fields means the bytes are not a document. */
  type Decoder = Value -> Option<Fields>

  datatype Collection = Collection(name: Key, indexes: map<Key, bool>)

  predicate ValidCollection(c: Collection) {
    0 < |c.name| < 0x1_0000 && forall f :: f in c.indexes ==> 0 < |f| < 0x1_0000 && ValidName(IndexName(c, f))
  }

  function Segment(s: Key): Key {
    BigEndian(|s|, 2) + s
  }

  function CollectionPrefix(c: Collection): Key {
    DOCUMENT_KEY_PREFIX + Segment(c.name)
  }

  function DocumentKey(c: Collection, id: Key): Key {
    CollectionPrefix(c) + Segment(id)
  }

  function IndexName(c: Collection, field: Key): Key {
    INDEX_PREFIX + Segment(c.name) + Segment(field)
  }

  predicate IsDocument(c: Collection, d: Key) {
    CollectionPrefix(c) <= d
  }

  lemma IndexNameInjective(c: Collection, f: Key, g: Key)
    requires |f| < 0x1_0000 && |g| < 0x1_0000 && IndexName(c, f) == IndexName(c, g)
    ensures f == g
  {
    hide BigEndian, Pow256;
    Widths();
    SplitEqual(INDEX_PREFIX + Segment(c.name), Segment(f), INDEX_PREFIX + Segment(c.name), Segment(g));
    assert BigEndian(|f|, 2) + f + [] == Segment(f) && BigEndian(|g|, 2) + g + [] == Segment(g);
    FieldUnique(f, g, 2, [], []);
  }

  /** The id a document key encodes, if the key is well formed. */
  function IdOf(c: Collection, d: Key): Option<Key> {
    var n := |CollectionPrefix(c)|;
    if IsDocument(c, d) && |d| > n + 2 && ReadAt(d, n, 2) == |d| - n - 2 then Some(d[n + 2..]) else None
  }

  predicate ValidId(id: Key) {
    0 < |id| < 0x1_0000
  }

  /** The id can name a document: its key is no longer than a key may be. */
  predicate Nameable(c: Collection, id: Key) {
    ValidId(id) && |DocumentKey(c, id)| <= MAX_KEY_SIZE
  }

  /** Document keys and ids determine each other. */
  lemma IdRoundTrip(c: Collection, d: Key, id: Key)
    ensures IdOf(c, d) == Some(id) <==> ValidId(id) && d == DocumentKey(c, id)
  {
    hide BigEndian, ReadBigEndian, Pow256, CollectionPrefix;
    Widths();
    var p := CollectionPrefix(c);
    if ValidId(id) && d == DocumentKey(c, id) {
      ReadBack(|id|, 2);
      assert d == p + (BigEndian(|id|, 2) + id);
      assert d[|p|..|p| + 2] == BigEndian(|id|, 2) && d[|p| + 2..] == id;
    }
    if IdOf(c, d) == Some(id) {
      Bytes.WriteBack(d[|p|..|p| + 2]);
      assert d == p + (d[|p|..|p| + 2] + d[|p| + 2..]);
    }
  }

  /** A document key is no index entry and no tombstone. */
  lemma DocumentPlain(c: Collection, d: Key)
    requires IsDocument(c, d)
    ensures Reserved(d) && !IsTombstone(d) && !(ENTRY_BASE <= d)
  {
    hide BigEndian;
    var p := CollectionPrefix(c);
    assert DOCUMENT_KEY_PREFIX <= p && DOCUMENT_KEY_PREFIX[6] == 100 && ENTRY_BASE[6] == 105 &&
           TOMBSTONE_PREFIX[6] == 116;
    assert p[..10] == DOCUMENT_KEY_PREFIX;
    assert d[..|p|] == p && d[..10] == d[..|p|][..10];
    assert d[6] == d[..10][6] && d[..6] == d[..10][..6];
  }

  // ----- Exactness ----------------------------------------------------------

  /** What a document's field encodes to, if it has one. */
  function FieldOf(fields: Option<Fields>, f: Key): Option<Encoded> {
    if fields.Some? && f in fields.value then Some(fields.value[f]) else None
  }

  /** The stored document under `d` holds `v` in field `f`. */
  ghost predicate FieldIs(decode: Decoder, m: Store, d: Key, f: Key, v: Value) {
    d in m && FieldOf(decode(m[d].value), f) == Some(Scalar(v))
  }

  function Posting(c: Collection, f: Key, v: Value, d: Key): Key {
    EntryKey(IndexName(c, f), v, d)
  }

  /** The entries that point at `d` are exactly its indexed fields. */
  ghost predicate ExactAt(decode: Decoder, c: Collection, m: Store, d: Key) {
    forall f, v :: f in c.indexes && ValidIndexValue(v) ==> (Posting(c, f, v, d) in m <==> FieldIs(decode, m, d, f, v))
  }

  /** Every document of the collection is readable and indexed exactly, and no entry points
      anywhere else. */
  ghost predicate ExactIndexes(decode: Decoder, c: Collection, m: Store) {
    && (forall d :: IsDocument(c, d) && d in m ==> decode(m[d].value).Some?)
    && (forall d :: IsDocument(c, d) ==> ExactAt(decode, c, m, d))
    && (forall f, v, d :: f in c.indexes && ValidIndexValue(v) && Posting(c, f, v, d) in m ==> IsDocument(c, d))
  }

  datatype DocumentError =
    | NotIndexable(field: Key)
    | InvalidId
    | LongKey
    | BadKey
    | Missing
    | Unreadable
    | Refused(error: IndexError)
    | NoSuchIndex

  // ----- Updates of one document --------------------------------------------

  function ScalarOf(e: Option<Encoded>): Option<Value> {
    if e.Some? && e.value.Scalar? then Some(e.value.bytes) else None
  }

  function UpdateFor(c: Collection, d: Key, before: Option<Fields>, after: Option<Fields>, f: Key): IndexUpdate {
    IndexUpdate(IndexName(c, f), d, ScalarOf(FieldOf(before, f)), ScalarOf(FieldOf(after, f)))
  }

  /** One update per indexed field; a field that is not a scalar is refused. */
  method IndexUpdates(c: Collection, d: Key, before: Option<Fields>, after: Option<Fields>)
      returns (r: Result<seq<IndexUpdate>, DocumentError>)
    ensures r.Ok? <==> Indexable(c, before) && Indexable(c, after)
    ensures r.Ok? ==> UpdatesOf(r.value, c, d, before, after)
  {
    hide UpdateFor, FieldOf, UpdatesOf, Indexable;
    var fields := Ordered(c.indexes.Keys);
    var us: seq<IndexUpdate> := [];
    for i := 0 to |fields|
      invariant |us| == i && forall j :: 0 <= j < i ==> us[j] == UpdateFor(c, d, before, after, fields[j])
      invariant forall j :: 0 <= j < i ==>
                  FieldOf(before, fields[j]) != Some(Composite) && FieldOf(after, fields[j]) != Some(Composite)
    {
      if FieldOf(before, fields[i]) == Some(Composite) || FieldOf(after, fields[i]) == Some(Composite) {
        assert fields[i] in fields;
        NotAllScalar(c, before, after, fields[i]);
        return Err(NotIndexable(fields[i]));
      }
      us := us + [UpdateFor(c, d, before, after, fields[i])];
    }
    UpdatesAre(c, d, before, after, fields, us);
    return Ok(us);
  }

  lemma NotAllScalar(c: Collection, before: Option<Fields>, after: Option<Fields>, f: Key)
    requires f in c.indexes && (FieldOf(before, f) == Some(Composite) || FieldOf(after, f) == Some(Composite))
    ensures !(Indexable(c, before) && Indexable(c, after))
  {
    hide FieldOf;
  }

  lemma UpdatesAre(c: Collection, d: Key, before: Option<Fields>, after: Option<Fields>, fields: seq<Key>,
                   us: seq<IndexUpdate>)
    requires |us| == |fields| && (forall k :: k in fields <==> k in c.indexes)
    requires forall j :: 0 <= j < |fields| ==>
               us[j] == UpdateFor(c, d, before, after, fields[j])
    requires forall j :: 0 <= j < |fields| ==>
               FieldOf(before, fields[j]) != Some(Composite) && FieldOf(after, fields[j]) != Some(Composite)
    ensures UpdatesOf(us, c, d, before, after) && Indexable(c, before) && Indexable(c, after)
  {
    hide UpdateFor, FieldOf;
    forall f | f in c.indexes
      ensures FieldOf(before, f) != Some(Composite) && FieldOf(after, f) != Some(Composite) &&
              UpdateFor(c, d, before, after, f) in us
    {
      assert f in fields;
      var j :| 0 <= j < |fields| && fields[j] == f;
      assert us[j] in us;
    }
    forall u | u in us ensures exists f :: f in c.indexes && u == UpdateFor(c, d, before, after, f) {
      var j :| 0 <= j < |us| && us[j] == u;
      assert fields[j] in fields;
    }
  }

  predicate Indexable(c: Collection, fields: Option<Fields>) {
    forall f :: f in c.indexes ==> FieldOf(fields, f) != Some(Composite)
  }

  ghost predicate UpdatesOf(us: seq<IndexUpdate>, c: Collection, d: Key, before: Option<Fields>,
                            after: Option<Fields>) {
    && (forall f :: f in c.indexes ==> UpdateFor(c, d, before, after, f) in us)
    && (forall u :: u in us ==> exists f :: f in c.indexes && u == UpdateFor(c, d, before, after, f))
  }

  /** What the updates of one document do to an entry: only that document's change, and
      exactly to its new fields. */
  lemma UpdatesEffect(us: seq<IndexUpdate>, c: Collection, d: Key, before: Option<Fields>, after: Option<Fields>,
                      f: Key, v: Value, e: Key)
    requires UpdatesOf(us, c, d, before, after) && ValidCollection(c) && f in c.indexes && ValidIndexValue(v)
    requires forall i :: 0 <= i < |us| ==> ValidUpdate(us[i])
    ensures var last := LastOn(UpdatesOps(us), Posting(c, f, v, e));
            var u := UpdateFor(c, d, before, after, f);
            last == if e != d || u.oldValue == u.newValue then None
                    else if u.newValue == Some(v) then Some(true)
                    else if u.oldValue == Some(v) then Some(false) else None
  {
    hide EntryKey, IndexName, UpdatesOps, UpdatesOf, ValidCollection, EntersFor, Released;
    NameValid(c, f);
    FieldUpdates(us, c, d, before, after, f, v, e);
    UpdatesOn(us, IndexName(c, f), v, e);
    var last := LastOn(UpdatesOps(us), Posting(c, f, v, e));
    Either(last);
  }

  lemma Either(o: Option<bool>)
    ensures o == None || o == Some(true) || o == Some(false)
  {
    match o
    case None =>
    case Some(b) => if b { assert o == Some(true); } else { assert o == Some(false); }
  }

  lemma NameValid(c: Collection, f: Key)
    requires ValidCollection(c) && f in c.indexes
    ensures ValidName(IndexName(c, f))
  {
  }

  /** Among one document's updates, only the field's own enters or leaves its values. */
  lemma FieldUpdates(us: seq<IndexUpdate>, c: Collection, d: Key, before: Option<Fields>, after: Option<Fields>, f: Key,
                     v: Value, e: Key)
    requires UpdatesOf(us, c, d, before, after) && ValidCollection(c) && f in c.indexes
    ensures var x, u := IndexName(c, f), UpdateFor(c, d, before, after, f);
            && (EntersFor(us, x, v, e) <==> e == d && Enters(u, x, v))
            && (Released(us, x, v, e) <==> e == d && Leaves(u, x, v, d))
  {
    hide IndexName;
    var x, u := IndexName(c, f), UpdateFor(c, d, before, after, f);
    forall i | 0 <= i < |us| && us[i].index == x ensures us[i] == u {
      assert us[i] in us;
      var g :| g in c.indexes && us[i] == UpdateFor(c, d, before, after, g);
      IndexNameInjective(c, g, f);
    }
    forall i | 0 <= i < |us| ensures us[i].primary == d {
      assert us[i] in us;
    }
    assert u in us;
    var i :| 0 <= i < |us| && us[i] == u;
    assert Enters(us[i], x, v) <==> Enters(u, x, v);
    assert Leaves(us[i], x, v, d) <==> Leaves(u, x, v, d);
  }

  // ----- Repairing a document whose bytes no longer decode ------------------

  /** Whether an entry filed under an index prefix names `d` as its document. */
  predicate PointsAt(entry: Key, prefix: Key, d: Key) {
    && prefix <= entry && |entry| >= |prefix| + 4
    && var len := ReadAt(entry, |prefix|, 4);
       |entry| >= |prefix| + 4 + len && entry[|prefix| + 4 + len..] == d
  }

  /** An entry points at `d` exactly when it is an entry of some value for `d`. */
  lemma PointsAtIs(x: Key, entry: Key, d: Key)
    ensures PointsAt(entry, EntryPrefix(x), d) ==> exists v :: ValidIndexValue(v) && entry == EntryKey(x, v, d)
    ensures forall v :: ValidIndexValue(v) && entry == EntryKey(x, v, d) ==> PointsAt(entry, EntryPrefix(x), d)
  {
    hide BigEndian, ReadBigEndian, EntryPrefix;
    var p := EntryPrefix(x);
    Widths();
    if PointsAt(entry, p, d) {
      var len := ReadAt(entry, |p|, 4);
      var v := entry[|p| + 4..|p| + 4 + len];
      Bytes.WriteBack(entry[|p|..|p| + 4]);
      assert U32(|v|) == entry[|p|..|p| + 4];
      assert entry == p + entry[|p|..|p| + 4] + v + d;
      assert ValidIndexValue(v) && entry == EntryKey(x, v, d);
    }
    forall v | ValidIndexValue(v) && entry == EntryKey(x, v, d) ensures PointsAt(entry, p, d) {
      ReadBack(|v|, 4);
      assert entry[|p|..|p| + 4] == U32(|v|);
      assert entry[|p| + 4 + |v|..] == d;
    }
  }

  /** Deletes for exactly the entries that point at `d`. */
  ghost predicate Repairs(ops: seq<Operation>, c: Collection, m: Store, d: Key, fields: set<Key>) {
    && (forall j :: 0 <= j < |ops| ==> ops[j].Delete? && PointsFrom(ops[j].key, c, d))
    && (forall f, v :: f in fields && ValidIndexValue(v) && Posting(c, f, v, d) in m ==>
           Named(ops, Posting(c, f, v, d)))
  }

  predicate Named(ops: seq<Operation>, k: Key) {
    exists j :: 0 <= j < |ops| && ops[j].key == k
  }

  ghost predicate PointsFrom(k: Key, c: Collection, d: Key) {
    exists f, v :: f in c.indexes && ValidIndexValue(v) && k == Posting(c, f, v, d)
  }

  method OrphanedDeletes(c: Collection, m: Store, d: Key) returns (ops: seq<Operation>)
    ensures Repairs(ops, c, m, d, c.indexes.Keys)
  {
    hide EntryKey, IndexName;
    var left := c.indexes.Keys;
    ops := [];
    while left != {}
      invariant left <= c.indexes.Keys && Repairs(ops, c, m, d, c.indexes.Keys - left)
      decreases |left|
    {
      var f :| f in left;
      var more := FieldDeletes(c, m, d, f);
      RepairsJoin(ops, more, c, m, d, c.indexes.Keys - left, f);
      ops, left := ops + more, left - {f};
      assert c.indexes.Keys - left == c.indexes.Keys - (left + {f}) + {f};
    }
    assert c.indexes.Keys - {} == c.indexes.Keys;
  }

  lemma RepairsJoin(a: seq<Operation>, b: seq<Operation>, c: Collection, m: Store, d: Key, fields: set<Key>, f: Key)
    requires Repairs(a, c, m, d, fields) && Repairs(b, c, m, d, {f})
    ensures Repairs(a + b, c, m, d, fields + {f})
  {
    hide Posting, PointsFrom;
    forall g, v | g in fields + {f} && ValidIndexValue(v) && Posting(c, g, v, d) in m
      ensures Named(a + b, Posting(c, g, v, d))
    {
      var k := Posting(c, g, v, d);
      if g in fields {
        var j :| 0 <= j < |a| && a[j].key == k;
        assert (a + b)[j].key == k;
      } else {
        var j :| 0 <= j < |b| && b[j].key == k;
        assert (a + b)[|a| + j].key == k;
      }
    }
  }

  method FieldDeletes(c: Collection, m: Store, d: Key, f: Key) returns (ops: seq<Operation>)
    requires f in c.indexes
    ensures Repairs(ops, c, m, d, {f})
  {
    hide EntryKey, IndexName, EntryPrefix, PointsAt, PointsFrom, FirstRows, Named;
    var x := IndexName(c, f);
    var prefix := EntryPrefix(x);
    var end := PrefixEnd(prefix);
    var rows := ScanStore(m, Some(prefix), end, |m| + 1);
    RowsFit(rows, |m| + 1, m, Some(prefix), PrefixSuccessor(prefix), None);
    ops := [];
    for i := 0 to |rows|
      invariant forall j :: 0 <= j < |ops| ==> ops[j].Delete? && PointsFrom(ops[j].key, c, d)
      invariant forall j :: 0 <= j < i && PointsAt(rows[j].key, prefix, d) ==> Named(ops, rows[j].key)
    {
      ghost var before := ops;
      if PointsAt(rows[i].key, prefix, d) {
        PointsHere(c, f, rows[i].key, d);
        ops := ops + [Operation.Delete(rows[i].key)];
        NamedLast(before, rows[i].key);
      }
      forall j | 0 <= j < i && PointsAt(rows[j].key, prefix, d) ensures Named(ops, rows[j].key) {
        NamedStill(before, ops, rows[j].key);
      }
    }
    forall v | ValidIndexValue(v) && Posting(c, f, v, d) in m ensures Named(ops, Posting(c, f, v, d)) {
      var j := PointingRow(c, m, d, f, v, rows, |m| + 1);
    }
  }

  lemma PointsHere(c: Collection, f: Key, k: Key, d: Key)
    requires f in c.indexes && PointsAt(k, EntryPrefix(IndexName(c, f)), d)
    ensures PointsFrom(k, c, d)
  {
    hide EntryKey, IndexName, EntryPrefix, PointsAt;
    PointsAtIs(IndexName(c, f), k, d);
  }

  lemma NamedLast(ops: seq<Operation>, k: Key)
    ensures Named(ops + [Operation.Delete(k)], k)
  {
    assert (ops + [Operation.Delete(k)])[|ops|].key == k;
  }

  lemma NamedStill(before: seq<Operation>, ops: seq<Operation>, k: Key)
    requires Named(before, k) && before <= ops
    ensures Named(ops, k)
  {
    var y :| 0 <= y < |before| && before[y].key == k;
    assert ops[y].key == k;
  }

  /** The entry of `d` is among the scanned rows. */
  lemma PointingRow(c: Collection, m: Store, d: Key, f: Key, v: Value, rows: seq<Entry>, limit: nat) returns (j: nat)
    requires ValidIndexValue(v) && Posting(c, f, v, d) in m && |rows| < limit
    requires var prefix := EntryPrefix(IndexName(c, f));
             FirstRows(rows, limit, m, Some(prefix), PrefixSuccessor(prefix), None)
    ensures j < |rows| && rows[j].key == Posting(c, f, v, d)
    ensures PointsAt(rows[j].key, EntryPrefix(IndexName(c, f)), d)
  {
    hide EntryKey, IndexName, EntryPrefix, PointsAt;
    var x := IndexName(c, f);
    UnderPrefix(x, v, d);
    PrefixIsInterval(EntryPrefix(x), EntryKey(x, v, d));
    PointsAtIs(x, EntryKey(x, v, d), d);
    j := IndexOf(rows, EntryKey(x, v, d));
  }

  lemma UnderPrefix(x: Key, v: Value, d: Key)
    ensures EntryPrefix(x) <= EntryKey(x, v, d)
  {
  }

  // ----- Puts and deletes ---------------------------------------------------

  /** Encoded scalars fit an index entry. */
  ghost predicate SmallScalars(decode: Decoder) {
    forall b, f :: ScalarOf(FieldOf(decode(b), f)).Some? ==> ValidIndexValue(ScalarOf(FieldOf(decode(b), f)).value)
  }

  /** The document is stored but cannot be read. */
  predicate Damaged(decode: Decoder, m: Store, d: Key) {
    d in m && decode(m[d].value).None?
  }

  /** Every document that is not damaged is indexed exactly, and no entry points elsewhere. */
  ghost predicate Tidy(decode: Decoder, c: Collection, m: Store) {
    && (forall d :: IsDocument(c, d) && !Damaged(decode, m, d) ==> ExactAt(decode, c, m, d))
    && (forall f, v, d :: f in c.indexes && ValidIndexValue(v) && Posting(c, f, v, d) in m ==> IsDocument(c, d))
  }

  lemma TidyExact(decode: Decoder, c: Collection, m: Store)
    ensures ExactIndexes(decode, c, m) <==>
              Tidy(decode, c, m) && forall d :: IsDocument(c, d) ==> !Damaged(decode, m, d)
  {
    hide IsDocument, ExactAt, Posting;
  }

  /** What the stored document was, and the deletes that retire its entries when it cannot
      be read. */
  method Previous(decode: Decoder, c: Collection, m: Store, d: Key)
      returns (before: Option<Fields>, repairs: seq<Operation>)
    ensures before == Stored(decode, m, d)
    ensures if d in m && before.None? then Repairs(repairs, c, m, d, c.indexes.Keys) else repairs == []
  {
    before, repairs := None, [];
    if d in m {
      before := decode(m[d].value);
      if before.None? {
        repairs := OrphanedDeletes(c, m, d);
      }
    }
  }

  function Stored(decode: Decoder, m: Store, d: Key): Option<Fields> {
    if d in m then decode(m[d].value) else None
  }

  function FieldsAfter(decode: Decoder, op: Operation): Option<Fields> {
    if op.Put? then decode(op.value) else None
  }

  predicate IsUnique(c: Collection, unique: map<Key, bool>, f: Key) {
    f in c.indexes && IndexName(c, f) in unique && unique[IndexName(c, f)]
  }

  /** Every unique value the write brings in is free or already the document's own. */
  ghost predicate Unrivalled(c: Collection, unique: map<Key, bool>, m: Store, d: Key, before: Option<Fields>,
                             after: Option<Fields>) {
    forall f, v, e ::
      IsUnique(c, unique, f) && ScalarOf(FieldOf(after, f)) == Some(v) != ScalarOf(FieldOf(before, f)) ==>
        Posting(c, f, v, e) in m ==> e == d
  }

  /** When a write of `d` is accepted: indexed fields are scalars before and after, and its
      unique values have no other holder. */
  ghost predicate Writable(decode: Decoder, c: Collection, unique: map<Key, bool>, m: Store, d: Key, op: Operation) {
    var before, after := Stored(decode, m, d), FieldsAfter(decode, op);
    Indexable(c, before) && Indexable(c, after) && Unrivalled(c, unique, m, d, before, after)
  }

  predicate Declared(c: Collection, unique: map<Key, bool>) {
    forall f :: f in c.indexes ==> IndexName(c, f) in unique
  }

  /** What one write of `d` leaves: its new value, every other document as it was, exact
      entries for `d` whether or not it was damaged, and unique indexes still unique. */
  ghost predicate Wrote(decode: Decoder, c: Collection, unique: map<Key, bool>, m: Store, m': Store, d: Key,
                        value: Option<Stamped>) {
    && Lookup(m', d) == value
    && (forall e :: IsDocument(c, e) && e != d ==> Lookup(m', e) == Lookup(m, e))
    && (Tidy(decode, c, m) ==> Tidy(decode, c, m'))
    && (forall f :: IsUnique(c, unique, f) && UniqueIn(m, IndexName(c, f)) ==> UniqueIn(m', IndexName(c, f)))
  }

  /** Stores a document and moves its index entries in one batch. */
  method PutDocument(decode: Decoder, c: Collection, unique: map<Key, bool>, m: Store, id: Key, bytes: Value,
                     ghost lsn: nat)
    returns (r: Result<seq<Operation>, DocumentError>)
    requires ValidCollection(c) && SmallScalars(decode) && decode(bytes).Some? && Declared(c, unique)
    ensures r.Ok? <==>
              Nameable(c, id) && Writable(decode, c, unique, m, DocumentKey(c, id),
              Operation.Put(DocumentKey(c, id), bytes))
    ensures r.Ok? ==>
              Wrote(decode, c, unique, m, RedoAll(m, r.value, lsn), DocumentKey(c, id), Some(Stamped(bytes, lsn)))
  {
    hide Wrote, Writable, ValidCollection, SmallScalars, Declared, RedoAll;
    if !ValidId(id) {
      return Err(InvalidId);
    }
    var d := DocumentKey(c, id);
    if |d| > MAX_KEY_SIZE {
      return Err(LongKey);
    }
    r := WriteDocument(decode, c, unique, m, d, Operation.Put(d, bytes), lsn);
  }

  /** Deletes a document and its entries; a missing one is reported and nothing is written. */
  method DeleteDocument(decode: Decoder, c: Collection, unique: map<Key, bool>, m: Store, id: Key, ghost lsn: nat)
    returns (r: Result<Option<seq<Operation>>, DocumentError>)
    requires ValidCollection(c) && SmallScalars(decode) && Declared(c, unique)
    ensures r.Ok? <==>
              Nameable(c, id) && (DocumentKey(c, id) in m ==> Indexable(c, Stored(decode, m, DocumentKey(c, id))))
    ensures r.Ok? ==> (r.value.Some? <==> DocumentKey(c, id) in m)
    ensures r.Ok? && r.value.Some? ==>
              Wrote(decode, c, unique, m, RedoAll(m, r.value.value, lsn), DocumentKey(c, id), None)
  {
    hide Wrote, ValidCollection, SmallScalars, Declared, RedoAll, DocumentKey;
    if !ValidId(id) {
      return Err(InvalidId);
    }
    var d := DocumentKey(c, id);
    if |d| > MAX_KEY_SIZE {
      return Err(LongKey);
    }
    if d !in m {
      return Ok(None);
    }
    assert IsDocument(c, d) by { KeyIsDocument(c, id); }
    var ops :- WriteDocument(decode, c, unique, m, d, Operation.Delete(d), lsn);
    r := Ok(Some(ops));
  }

  lemma KeyIsDocument(c: Collection, id: Key)
    ensures IsDocument(c, DocumentKey(c, id))
  {
  }

  method WriteDocument(decode: Decoder, c: Collection, unique: map<Key, bool>, m: Store, d: Key, op: Operation,
                       ghost lsn: nat)
    returns (r: Result<seq<Operation>, DocumentError>)
    requires ValidCollection(c) && SmallScalars(decode) && Declared(c, unique) && IsDocument(c, d) && op.key == d
    requires (op.Put? ==> decode(op.value).Some?)
    ensures r.Ok? <==> Writable(decode, c, unique, m, d, op)
    ensures r.Ok? ==>
              Wrote(decode, c, unique, m, RedoAll(m, r.value, lsn), d, if op.Put? then Some(Stamped(op.value, lsn))
              else None)
  {
    hide Tidy, ValidCollection, Repairs, UpdatesOf, SmallScalars, Declared, Unrivalled, RedoAll, Accepts, UpdatesOps,
         UniqueIn;
    var before, repairs := Previous(decode, c, m, d);
    var us :- IndexUpdates(c, d, before, FieldsAfter(decode, op));
    ValidUpdates(decode, c, m, d, op, before, us);
    var plan := PlanUpdates(m, unique, us);
    UnrivalledIs(m, unique, us, c, d, before, FieldsAfter(decode, op));
    if plan.Err? {
      return Err(Refused(plan.error));
    }
    RepairsDelete(repairs, c, m, d);
    WriteUnique(c, unique, m, d, op, repairs, us, lsn);
    WriteLookup(c, m, d, op, repairs, us, before, FieldsAfter(decode, op), lsn);
    if Tidy(decode, c, m) {
      WriteExact(decode, c, m, d, op, repairs, us, before, lsn);
    }
    r := Ok([op] + repairs + plan.value);
  }

  lemma RepairsDelete(repairs: seq<Operation>, c: Collection, m: Store, d: Key)
    ensures Repairs(repairs, c, m, d, c.indexes.Keys) ==> forall j :: 0 <= j < |repairs| ==> repairs[j].Delete?
  {
  }

  /** The batch check, said of one document's write. */
  lemma UnrivalledIs(m: Store, unique: map<Key, bool>, us: seq<IndexUpdate>, c: Collection, d: Key,
                     before: Option<Fields>, after: Option<Fields>)
    requires ValidCollection(c) && Declared(c, unique) && UpdatesOf(us, c, d, before, after)
    ensures Accepts(m, unique, us) <==> Unrivalled(c, unique, m, d, before, after)
  {
    hide IndexName, EntryKey, ValidCollection;
    forall i | 0 <= i < |us| ensures us[i].index in unique && us[i].primary == d {
      assert us[i] in us;
    }
    if Accepts(m, unique, us) {
      forall f, v, e | IsUnique(c, unique, f) && ScalarOf(FieldOf(after, f)) == Some(v) &&
          ScalarOf(FieldOf(before, f)) != Some(v)
                       && Posting(c, f, v, e) in m ensures e == d
      {
        assert UpdateFor(c, d, before, after, f) in us;
        var i :| 0 <= i < |us| && us[i] == UpdateFor(c, d, before, after, f);
        assert Claimable(m, us, i);
      }
    }
    if Unrivalled(c, unique, m, d, before, after) {
      forall i | 0 <= i < |us| && unique[us[i].index] ensures Claimable(m, us, i) {
        assert us[i] in us;
        var f :| f in c.indexes && us[i] == UpdateFor(c, d, before, after, f);
        if us[i].newValue.Some? {
          forall q | EntryKey(us[i].index, us[i].newValue.value, q) in m && q != d && us[i].oldValue != us[i].newValue
            ensures Released(us, us[i].index, us[i].newValue.value, q)
          {
            assert Posting(c, f, us[i].newValue.value, q) in m && IsUnique(c, unique, f);
          }
        }
      }
    }
  }

  lemma ValidUpdates(decode: Decoder, c: Collection, m: Store, d: Key, op: Operation, before: Option<Fields>,
                     us: seq<IndexUpdate>)
    requires ValidCollection(c) && SmallScalars(decode) && UpdatesOf(us, c, d, before, FieldsAfter(decode, op))
    requires before == Stored(decode, m, d)
    ensures forall i :: 0 <= i < |us| ==> ValidUpdate(us[i])
  {
    forall i | 0 <= i < |us| ensures ValidUpdate(us[i]) {
      assert us[i] in us;
      var f :| f in c.indexes && us[i] == UpdateFor(c, d, before, FieldsAfter(decode, op), f);
    }
  }

  /** What the batch does to any key outside the tombstones, by its last operation. */
  lemma BatchOn(op: Operation, repairs: seq<Operation>, us: seq<IndexUpdate>, k: Key)
    ensures var ops := [op] + repairs + UpdatesOps(us);
            LastOn(ops, k) == if LastOn(UpdatesOps(us), k).Some? then LastOn(UpdatesOps(us), k)
                              else if LastOn(repairs, k).Some? then LastOn(repairs, k)
                              else if op.key == k then Some(op.Put?) else None
  {
    hide UpdatesOps;
    LastOnConcat([op] + repairs, UpdatesOps(us), k);
    LastOnConcat([op], repairs, k);
    LastOfOne([op], k);
  }

  /** An index entry is no document key. */
  lemma EntryNotDocument(c: Collection, x: Key, v: Value, e: Key, d: Key)
    requires IsDocument(c, d)
    ensures EntryKey(x, v, e) != d
  {
    hide BigEndian;
    DocumentPlain(c, d);
    assert ENTRY_BASE <= EntryKey(x, v, e);
  }

  /** Repairs only name entries of `d`. */
  lemma RepairsOn(repairs: seq<Operation>, c: Collection, m: Store, d: Key, f: Key, v: Value, e: Key)
    requires ValidCollection(c) && Repairs(repairs, c, m, d, c.indexes.Keys) && f in c.indexes && ValidIndexValue(v)
    ensures e != d ==> LastOn(repairs, Posting(c, f, v, e)) == None
    ensures e == d && Posting(c, f, v, d) in m ==> LastOn(repairs, Posting(c, f, v, d)) == Some(false)
    ensures LastOn(repairs, Posting(c, f, v, e)) != Some(true)
  {
    hide EntryKey, IndexName;
    var k := Posting(c, f, v, e);
    if e != d {
      forall j | 0 <= j < |repairs| ensures repairs[j].key != k {
        assert PointsFrom(repairs[j].key, c, d);
        var g, w :| g in c.indexes && ValidIndexValue(w) && repairs[j].key == Posting(c, g, w, d);
        SameEntryKey(IndexName(c, g), w, d, IndexName(c, f), v, e);
      }
      NotOn(repairs, k);
    } else if Named(repairs, k) {
      DeletedOn(repairs, k);
    } else {
      NotOn(repairs, k);
    }
  }

  /** The batch's operations before the index updates only remove entries, so uniqueness
      follows from the updates' acceptance. */
  lemma WriteUnique(c: Collection, unique: map<Key, bool>, m: Store, d: Key, op: Operation, repairs: seq<Operation>,
                    us: seq<IndexUpdate>, lsn: nat)
    requires ValidCollection(c) && IsDocument(c, d) && op.key == d && Accepts(m, unique, us)
    requires (forall i :: 0 <= i < |us| ==> ValidUpdate(us[i]))
    requires (forall j :: 0 <= j < |repairs| ==> repairs[j].Delete?)
    ensures forall f :: IsUnique(c, unique, f) && UniqueIn(m, IndexName(c, f)) ==>
              UniqueIn(RedoAll(m, [op] + repairs + UpdatesOps(us), lsn), IndexName(c, f))
  {
    hide UpdatesOps, Accepts, EntryKey, IndexName, RedoAll, UniqueIn;
    var head := [op] + repairs;
    RedoAllConcat(m, head, UpdatesOps(us), lsn);
    forall f | IsUnique(c, unique, f) && UniqueIn(m, IndexName(c, f))
      ensures UniqueIn(RedoAll(m, head + UpdatesOps(us), lsn), IndexName(c, f))
    {
      HeadRemoves(c, m, d, op, repairs, lsn, IndexName(c, f));
      AcceptedKeepsUnique(m, RedoAll(m, head, lsn), unique, us, lsn, IndexName(c, f));
    }
  }

  lemma HeadRemoves(c: Collection, m: Store, d: Key, op: Operation, repairs: seq<Operation>, lsn: nat, x: Key)
    requires IsDocument(c, d) && op.key == d && forall j :: 0 <= j < |repairs| ==> repairs[j].Delete?
    ensures NoNewEntries(m, RedoAll(m, [op] + repairs, lsn), x)
  {
    hide EntryKey, RedoAll;
    forall v, p | EntryKey(x, v, p) in RedoAll(m, [op] + repairs, lsn) ensures EntryKey(x, v, p) in m {
      var k := EntryKey(x, v, p);
      EntryNotDocument(c, x, v, p, d);
      EntryKeyPlain(x, v, p);
      PresentAfter(m, [op] + repairs, lsn, k);
      LastOnConcat([op], repairs, k);
      LastOfOne([op], k);
      if Named(repairs, k) { DeletedOn(repairs, k); } else { NotOn(repairs, k); }
    }
  }

  lemma WriteLookup(c: Collection, m: Store, d: Key, op: Operation, repairs: seq<Operation>, us: seq<IndexUpdate>,
                    before: Option<Fields>, after: Option<Fields>, lsn: nat)
    requires ValidCollection(c) && IsDocument(c, d) && op.key == d && UpdatesOf(us, c, d, before, after)
    requires repairs == [] || Repairs(repairs, c, m, d, c.indexes.Keys)
    ensures var m' := RedoAll(m, [op] + repairs + UpdatesOps(us), lsn);
            && Lookup(m', d) == (if op.Put? then Some(Stamped(op.value, lsn)) else None)
            && forall e :: IsDocument(c, e) && e != d ==> Lookup(m', e) == Lookup(m, e)
  {
    hide UpdatesOps, IndexName, EntryKey;
    var tail := repairs + UpdatesOps(us);
    assert [op] + repairs + UpdatesOps(us) == [op] + tail;
    RedoAllConcat(m, [op], tail, lsn);
    assert [op][..0] == [];
    assert RedoAll(m, [op], lsn) == Redo(m, op, lsn);
    forall e | IsDocument(c, e) ensures LastOn(tail, e) == None {
      TailAvoids(c, m, d, repairs, us, before, after, e);
    }
    forall e | IsDocument(c, e) ensures Lookup(RedoAll(Redo(m, op, lsn), tail, lsn), e) == Lookup(Redo(m, op, lsn), e) {
      DocumentPlain(c, e);
      PresentAfter(Redo(m, op, lsn), tail, lsn, e);
    }
    DocumentPlain(c, d);
    TombstoneShape(d);
  }

  lemma TailAvoids(c: Collection, m: Store, d: Key, repairs: seq<Operation>, us: seq<IndexUpdate>,
                   before: Option<Fields>, after: Option<Fields>, e: Key)
    requires IsDocument(c, e) && (repairs == [] || Repairs(repairs, c, m, d, c.indexes.Keys))
    ensures LastOn(repairs + UpdatesOps(us), e) == None
  {
    hide IndexName, EntryKey;
    LastOnConcat(repairs, UpdatesOps(us), e);
    forall j | 0 <= j < |repairs| ensures repairs[j].key != e {
      assert PointsFrom(repairs[j].key, c, d);
      var g, w :| g in c.indexes && ValidIndexValue(w) && repairs[j].key == Posting(c, g, w, d);
      EntryNotDocument(c, IndexName(c, g), w, d, e);
    }
    NotOn(repairs, e);
    UpdatesAvoid(c, us, e);
  }

  lemma {:induction false} UpdatesAvoid(c: Collection, us: seq<IndexUpdate>, e: Key)
    requires IsDocument(c, e)
    ensures LastOn(UpdatesOps(us), e) == None
    decreases |us|
  {
    hide EntryKey;
    if us == [] {
    } else {
      var u := us[|us| - 1];
      UpdatesAvoid(c, us[..|us| - 1], e);
      LastOnConcat(UpdatesOps(us[..|us| - 1]), UpdateOps(u), e);
      if u.oldValue.Some? { EntryNotDocument(c, u.index, u.oldValue.value, u.primary, e); }
      if u.newValue.Some? { EntryNotDocument(c, u.index, u.newValue.value, u.primary, e); }
      NotOn(UpdateOps(u), e);
    }
  }

  /** After the batch the document's entries are exactly its new fields, and every other
      document keeps its own. */
  lemma WriteExact(decode: Decoder, c: Collection, m: Store, d: Key, op: Operation, repairs: seq<Operation>,
                   us: seq<IndexUpdate>, before: Option<Fields>, lsn: nat)
    requires ValidCollection(c) && SmallScalars(decode) && IsDocument(c, d) && op.key == d
    requires (op.Put? ==> decode(op.value).Some?)
    requires Tidy(decode, c, m) && UpdatesOf(us, c, d, before, FieldsAfter(decode, op))
    requires Indexable(c, before) && Indexable(c, FieldsAfter(decode, op))
    requires before == Stored(decode, m, d)
    requires if d in m && before.None? then Repairs(repairs, c, m, d, c.indexes.Keys) else repairs == []
    requires forall i :: 0 <= i < |us| ==> ValidUpdate(us[i])
    ensures Tidy(decode, c, RedoAll(m, [op] + repairs + UpdatesOps(us), lsn))
  {
    hide UpdatesOps, IndexName, EntryKey, RedoAll, ValidCollection, SmallScalars, UpdatesOf, Repairs, FieldIs, LastOn;
    var m' := RedoAll(m, [op] + repairs + UpdatesOps(us), lsn);
    WriteLookup(c, m, d, op, repairs, us, before, FieldsAfter(decode, op), lsn);
    forall f, v, e | f in c.indexes && ValidIndexValue(v)
      ensures e != d ==> (Posting(c, f, v, e) in m' <==> Posting(c, f, v, e) in m)
      ensures e == d ==> (Posting(c, f, v, d) in m' <==> FieldOf(FieldsAfter(decode, op), f) == Some(Scalar(v)))
    {
      EntryEffect(decode, c, m, d, op, repairs, us, before, lsn, f, v, e);
    }
    forall e | IsDocument(c, e) && !Damaged(decode, m', e) ensures ExactAt(decode, c, m', e) {
      DocumentExact(decode, c, m, m', d, op, lsn, e);
    }
  }

  lemma DocumentExact(decode: Decoder, c: Collection, m: Store, m': Store, d: Key, op: Operation, lsn: nat, e: Key)
    requires Tidy(decode, c, m) && IsDocument(c, e) && op.key == d && (op.Put? ==> decode(op.value).Some?)
    requires Lookup(m', d) == if op.Put? then Some(Stamped(op.value, lsn)) else None
    requires e != d ==> Lookup(m', e) == Lookup(m, e)
    requires forall f, v :: f in c.indexes && ValidIndexValue(v) && e != d ==>
               (Posting(c, f, v, e) in m' <==> Posting(c, f, v, e) in m)
    requires forall f, v :: f in c.indexes && ValidIndexValue(v) && e == d ==>
               (Posting(c, f, v, d) in m' <==> FieldOf(FieldsAfter(decode, op), f) == Some(Scalar(v)))
    ensures !Damaged(decode, m', e) ==> ExactAt(decode, c, m', e)
  {
    hide Posting;
    if e != d && !Damaged(decode, m', e) {
      assert ExactAt(decode, c, m, e);
    }
  }

  lemma EntryEffect(decode: Decoder, c: Collection, m: Store, d: Key, op: Operation, repairs: seq<Operation>,
                    us: seq<IndexUpdate>, before: Option<Fields>,
                    lsn: nat, f: Key, v: Value, e: Key)
    requires ValidCollection(c) && IsDocument(c, d) && op.key == d && f in c.indexes && ValidIndexValue(v)
    requires Tidy(decode, c, m) && UpdatesOf(us, c, d, before, FieldsAfter(decode, op))
    requires Indexable(c, before) && Indexable(c, FieldsAfter(decode, op))
    requires before == Stored(decode, m, d)
    requires if d in m && before.None? then Repairs(repairs, c, m, d, c.indexes.Keys) else repairs == []
    requires forall i :: 0 <= i < |us| ==> ValidUpdate(us[i])
    ensures var m' := RedoAll(m, [op] + repairs + UpdatesOps(us), lsn);
            if e != d then (Posting(c, f, v, e) in m' <==> Posting(c, f, v, e) in m)
            else (Posting(c, f, v, d) in m' <==> FieldOf(FieldsAfter(decode, op), f) == Some(Scalar(v)))
  {
    hide UpdatesOps, IndexName, EntryKey, RedoAll, ValidCollection, UpdatesOf, Repairs;
    var k, u := Posting(c, f, v, e), UpdateFor(c, d, before, FieldsAfter(decode, op), f);
    EntryNotDocument(c, IndexName(c, f), v, e, d);
    EntryKeyPlain(IndexName(c, f), v, e);
    PresentAfter(m, [op] + repairs + UpdatesOps(us), lsn, k);
    BatchOn(op, repairs, us, k);
    UpdatesEffect(us, c, d, before, FieldsAfter(decode, op), f, v, e);
    if d in m && before.None? {
      RepairsOn(repairs, c, m, d, f, v, e);
    } else {
      NoneOn(k);
      if e == d {
        assert ExactAt(decode, c, m, d);
        assert Posting(c, f, v, d) in m <==> FieldIs(decode, m, d, f, v);
      }
    }
    assert FieldOf(before, f) != Some(Composite) && FieldOf(FieldsAfter(decode, op), f) != Some(Composite);
  }

  // ----- Lookups ------------------------------------------------------------

  datatype Document = Document(key: Key, id: Key, fields: Fields)

  /** Every stored document key is well formed. */
  ghost predicate WellKeyed(c: Collection, m: Store) {
    forall d :: IsDocument(c, d) && d in m ==> IdOf(c, d).Some?
  }

  /** The documents whose field holds `v`, in key order: all of them, or the first `limit`. */
  ghost predicate Finds(docs: seq<Document>, limit: nat, decode: Decoder, c: Collection, m: Store, f: Key, v: Value) {
    && |docs| <= limit
    && (forall i, j :: 0 <= i < j < |docs| ==> Less(docs[i].key, docs[j].key))
    && (forall x :: x in docs ==>
           FieldIs(decode, m, x.key, f, v) && decode(m[x.key].value) == Some(x.fields) && IdOf(c, x.key) == Some(x.id))
    && (forall d :: IsDocument(c, d) && FieldIs(decode, m, d, f, v) ==>
          InDocuments(docs, d) || (|docs| == limit && forall x :: x in docs ==> Less(x.key, d)))
  }

  predicate InDocuments(docs: seq<Document>, d: Key) {
    exists i :: 0 <= i < |docs| && docs[i].key == d
  }

  method Find(decode: Decoder, c: Collection, m: Store, f: Key, value: Encoded, limit: nat)
      returns (r: Result<seq<Document>, DocumentError>)
    requires ValidCollection(c) && (value.Scalar? ==> ValidIndexValue(value.bytes))
    ensures limit > 0 && f !in c.indexes ==> r == Err(NoSuchIndex)
    ensures limit > 0 && f in c.indexes && value.Composite? ==> r == Err(NotIndexable(f))
    ensures limit > 0 && f in c.indexes && value.Scalar? && ExactIndexes(decode, c, m) && WellKeyed(c, m) ==> r.Ok?
    ensures limit == 0 ==> r == Ok([])
    ensures r.Ok? && f in c.indexes && value.Scalar? && ExactIndexes(decode, c, m) ==>
              Finds(r.value, limit, decode, c, m, f, value.bytes)
  {
    hide ValidCollection, EntryKey, IndexName, IdOf, DocumentKey, CollectionPrefix, ExactIndexes, WellKeyed;
    if limit == 0 {
      return Ok([]);
    }
    if f !in c.indexes {
      return Err(NoSuchIndex);
    }
    if value.Composite? {
      return Err(NotIndexable(f));
    }
    var keys := LookupIndex(m, IndexName(c, f), value.bytes, limit);
    var docs: seq<Document> := [];
    for i := 0 to |keys|
      invariant |docs| == i && forall j :: 0 <= j < i ==> Read(docs[j], decode, c, m, keys[j])
    {
      if ExactIndexes(decode, c, m) {
        EntryPointsAt(decode, c, m, f, value.bytes, keys[i]);
      }
      if IdOf(c, keys[i]).None? {
        return Err(BadKey);
      }
      if keys[i] !in m {
        return Err(Missing);
      }
      if decode(m[keys[i]].value).None? {
        return Err(Unreadable);
      }
      docs := docs + [Document(keys[i], IdOf(c, keys[i]).value, decode(m[keys[i]].value).value)];
    }
    if ExactIndexes(decode, c, m) {
      FoundExactly(decode, c, m, f, value.bytes, limit, keys, docs);
    }
    return Ok(docs);
  }

  ghost predicate Read(x: Document, decode: Decoder, c: Collection, m: Store, k: Key) {
    x.key == k && k in m && decode(m[k].value) == Some(x.fields) && IdOf(c, k) == Some(x.id)
  }

  /** Under exact indexes an entry points at a readable document that holds the value. */
  lemma EntryPointsAt(decode: Decoder, c: Collection, m: Store, f: Key, v: Value, d: Key)
    requires ExactIndexes(decode, c, m) && f in c.indexes && ValidIndexValue(v) && EntryKey(IndexName(c, f), v, d) in m
    ensures IsDocument(c, d) && FieldIs(decode, m, d, f, v) && decode(m[d].value).Some?
    ensures WellKeyed(c, m) ==> IdOf(c, d).Some?
  {
    hide EntryKey, IndexName, IdOf;
    assert Posting(c, f, v, d) in m;
    assert ExactAt(decode, c, m, d);
  }

  lemma FoundExactly(decode: Decoder, c: Collection, m: Store, f: Key, v: Value, limit: nat, keys: seq<Key>,
                     docs: seq<Document>)
    requires ExactIndexes(decode, c, m) && f in c.indexes && ValidIndexValue(v)
    requires |docs| == |keys| <= limit && forall j :: 0 <= j < |keys| ==> Read(docs[j], decode, c, m, keys[j])
    requires forall i, j :: 0 <= i < j < |keys| ==> Less(keys[i], keys[j])
    requires forall p :: p in keys ==> EntryKey(IndexName(c, f), v, p) in m
    requires |keys| < limit ==> forall p :: EntryKey(IndexName(c, f), v, p) in m ==> p in keys
    requires forall p :: EntryKey(IndexName(c, f), v, p) in m && p !in keys ==> forall q :: q in keys ==> Less(q, p)
    ensures Finds(docs, limit, decode, c, m, f, v)
  {
    hide EntryKey, IndexName, IdOf, ExactIndexes, IsDocument;
    forall x | x in docs ensures FieldIs(decode, m, x.key, f, v) {
      var j :| 0 <= j < |docs| && docs[j] == x;
      assert Read(docs[j], decode, c, m, keys[j]) && keys[j] in keys;
      EntryPointsAt(decode, c, m, f, v, x.key);
    }
    forall d | IsDocument(c, d) && FieldIs(decode, m, d, f, v)
      ensures InDocuments(docs, d) || (|docs| == limit && forall x :: x in docs ==> Less(x.key, d))
    {
      DocumentHasEntry(decode, c, m, f, v, d);
      if d in keys {
        var j :| 0 <= j < |keys| && keys[j] == d;
        assert docs[j].key == d;
      } else {
        forall x | x in docs ensures Less(x.key, d) {
          var j :| 0 <= j < |docs| && docs[j] == x;
          assert Read(docs[j], decode, c, m, keys[j]) && keys[j] in keys;
        }
      }
    }
  }

  lemma DocumentHasEntry(decode: Decoder, c: Collection, m: Store, f: Key, v: Value, d: Key)
    requires ExactIndexes(decode, c, m) && f in c.indexes && ValidIndexValue(v) && IsDocument(c, d)
    requires FieldIs(decode, m, d, f, v)
    ensures EntryKey(IndexName(c, f), v, d) in m
  {
    hide EntryKey, IndexName, IsDocument;
    assert ExactAt(decode, c, m, d);
    assert Posting(c, f, v, d) in m;
  }
}
