/** A collection over whole runs of puts, deletes, rebuilds and damage: it stays a map from ids
    to documents, and a lookup by an indexed field filters that map exactly. */
module DocumentRuns {
  import opened Results
  import opened Keys
  import opened Stores
  import opened Replay
  import opened Indexes
  import opened Documents
  import opened Rebuilds

  /** The ids under which a collection holds documents. */
  function HeldIds(c: Collection, m: Store): set<Key> {
    set d | d in m && IdOf(c, d).Some? :: IdOf(c, d).value
  }

  /** The collection as a map from ids to stored bytes. */
  function Held(c: Collection, m: Store): (held: map<Key, Value>) {
    map id | id in HeldIds(c, m) && DocumentKey(c, id) in m :: m[DocumentKey(c, id)].value
  }

  lemma HeldIs(c: Collection, m: Store, id: Key)
    ensures id in Held(c, m) <==> ValidId(id) && DocumentKey(c, id) in m
    ensures id in Held(c, m) ==> Held(c, m)[id] == m[DocumentKey(c, id)].value
  {
    hide IdOf, DocumentKey, ValidId;
    var d := DocumentKey(c, id);
    IdRoundTrip(c, d, id);
    if id in HeldIds(c, m) {
      var e :| e in m && IdOf(c, e).Some? && IdOf(c, e).value == id;
      IdRoundTrip(c, e, id);
    }
  }

  /** Ids name documents one to one. */
  lemma SameDocument(c: Collection, a: Key, b: Key)
    requires ValidId(a) && ValidId(b) && DocumentKey(c, a) == DocumentKey(c, b)
    ensures a == b
  {
    IdRoundTrip(c, DocumentKey(c, a), a);
    IdRoundTrip(c, DocumentKey(c, a), b);
  }

  /** A change of one document and of nothing else. */
  lemma HeldAfter(c: Collection, m: Store, m': Store, id: Key, value: Option<Stamped>)
    requires ValidId(id) && Lookup(m', DocumentKey(c, id)) == value
    requires forall e :: IsDocument(c, e) && e != DocumentKey(c, id) ==> Lookup(m', e) == Lookup(m, e)
    ensures Held(c, m') == if value.Some? then Held(c, m)[id := value.value.value] else Held(c, m) - {id}
    ensures WellKeyed(c, m) ==> WellKeyed(c, m')
  {
    hide IdOf, DocumentKey, ValidId, IsDocument, Held;
    var after := if value.Some? then Held(c, m)[id := value.value.value] else Held(c, m) - {id};
    forall x ensures x in Held(c, m') <==> x in after
             ensures x in after ==> Held(c, m')[x] == after[x]
    {
      HeldIs(c, m, x);
      HeldIs(c, m', x);
      KeyIsDocument(c, x);
      if ValidId(x) && DocumentKey(c, x) == DocumentKey(c, id) { SameDocument(c, x, id); }
      assert DocumentKey(c, x) != DocumentKey(c, id) ==> Lookup(m', DocumentKey(c, x)) == Lookup(m, DocumentKey(c, x));
    }
    if WellKeyed(c, m) {
      forall d | IsDocument(c, d) && d in m' ensures IdOf(c, d).Some? {
        if d == DocumentKey(c, id) {
          IdRoundTrip(c, d, id);
        } else {
          assert Lookup(m', d) == Lookup(m, d);
        }
      }
    }
  }

  /** Indexed fields of stored documents are scalars. */
  ghost predicate AllIndexable(decode: Decoder, c: Collection, m: Store) {
    forall d :: IsDocument(c, d) && d in m ==> Indexable(c, decode(m[d].value))
  }

  ghost predicate NoneDamaged(decode: Decoder, c: Collection, m: Store) {
    forall d :: IsDocument(c, d) ==> !Damaged(decode, m, d)
  }

  ghost predicate AllRead(decode: Decoder, held: map<Key, Value>) {
    forall id :: id in held ==> decode(held[id]).Some?
  }

  /** No document is damaged exactly when everything the map holds can be read. */
  lemma ReadableUndamaged(decode: Decoder, c: Collection, m: Store)
    requires WellKeyed(c, m)
    ensures NoneDamaged(decode, c, m) <==> AllRead(decode, Held(c, m))
  {
    hide IdOf, DocumentKey, ValidId, IsDocument, Held;
    forall id ensures id in Held(c, m) && decode(Held(c, m)[id]).None? ==> Damaged(decode, m, DocumentKey(c, id))
              ensures IsDocument(c, DocumentKey(c, id))
    {
      HeldIs(c, m, id);
      KeyIsDocument(c, id);
    }
    forall d | IsDocument(c, d) && Damaged(decode, m, d)
      ensures IdOf(c, d).Some? && IdOf(c, d).value in Held(c, m) && decode(Held(c, m)[IdOf(c, d).value]).None?
    {
      var id := IdOf(c, d).value;
      IdRoundTrip(c, d, id);
      HeldIs(c, m, id);
    }
  }

  lemma IndexableAfter(decode: Decoder, c: Collection, m: Store, m': Store, d: Key, value: Option<Stamped>)
    requires AllIndexable(decode, c, m) && Lookup(m', d) == value
    requires (value.Some? ==> Indexable(c, decode(value.value.value)))
    requires forall e :: IsDocument(c, e) && e != d ==> Lookup(m', e) == Lookup(m, e)
    ensures AllIndexable(decode, c, m')
    ensures NoneDamaged(decode, c, m) && (value.Some? ==> decode(value.value.value).Some?) ==>
              NoneDamaged(decode, c, m')
  {
    hide IsDocument, Indexable;
    forall e | IsDocument(c, e)
      ensures e in m' ==> Indexable(c, decode(m'[e].value))
      ensures e != d ==> (Damaged(decode, m', e) <==> Damaged(decode, m, e))
    {
      if e != d { assert Lookup(m', e) == Lookup(m, e); }
    }
  }

  /** ExactIndexes, unique indexes over readable scalar documents can always be rebuilt. */
  lemma CleanRebuilds(decode: Decoder, c: Collection, unique: map<Key, bool>, m: Store)
    requires ValidCollection(c) && SmallScalars(decode) && Tidy(decode, c, m) && UniqueAll(c, unique, m)
    requires AllIndexable(decode, c, m)
    ensures Rebuildable(decode, c, unique, m) <==> NoneDamaged(decode, c, m)
  {
    hide IsDocument, Indexable, IndexName, EntryKey, ValidCollection;
    if NoneDamaged(decode, c, m) {
      forall f, v, d, e | IsUnique(c, unique, f) && IsDocument(c, d) && IsDocument(c, e) &&
          FieldIs(decode, m, d, f, v) && FieldIs(decode, m, e, f, v)
        ensures d == e
      {
        assert ExactAt(decode, c, m, d) && ExactAt(decode, c, m, e);
        assert ScalarOf(FieldOf(decode(m[d].value), f)) == Some(v);
        assert Posting(c, f, v, d) in m && Posting(c, f, v, e) in m;
      }
    }
  }

  /** The found documents are the ones of the map whose field holds `v`, each once, cut at `limit`
      in key order. */
  ghost predicate Filters(docs: seq<Document>, limit: nat, decode: Decoder, c: Collection, held: map<Key, Value>,
                          f: Key, v: Value) {
    && |docs| <= limit
    && (forall i, j :: 0 <= i < j < |docs| ==> docs[i].id != docs[j].id)
    && (forall x :: x in docs ==>
           x.id in held && decode(held[x.id]) == Some(x.fields) && FieldOf(Some(x.fields), f) == Some(Scalar(v)))
    && (forall id :: id in held && FieldOf(decode(held[id]), f) == Some(Scalar(v)) ==>
          (exists i :: 0 <= i < |docs| && docs[i].id == id) ||
            (|docs| == limit && forall x :: x in docs ==> Less(x.key, DocumentKey(c, id))))
  }

  lemma FindsFilters(docs: seq<Document>, limit: nat, decode: Decoder, c: Collection, m: Store, f: Key, v: Value)
    requires Finds(docs, limit, decode, c, m, f, v)
    ensures Filters(docs, limit, decode, c, Held(c, m), f, v)
  {
    hide IdOf, DocumentKey, ValidId, IsDocument, Held, Less;
    var held := Held(c, m);
    forall x | x in docs ensures x.id in held && held[x.id] == m[x.key].value && x.key == DocumentKey(c, x.id) {
      IdRoundTrip(c, x.key, x.id);
      HeldIs(c, m, x.id);
    }
    forall i, j | 0 <= i < j < |docs| ensures docs[i].id != docs[j].id {
      assert docs[i] in docs && docs[j] in docs;
      NotSelf(docs[i].key);
    }
    forall id | id in held && FieldOf(decode(held[id]), f) == Some(Scalar(v))
      ensures (exists i :: 0 <= i < |docs| && docs[i].id == id) ||
              (|docs| == limit && forall x :: x in docs ==> Less(x.key, DocumentKey(c, id)))
    {
      HeldIs(c, m, id);
      KeyIsDocument(c, id);
      var d := DocumentKey(c, id);
      assert FieldIs(decode, m, d, f, v);
      if InDocuments(docs, d) {
        var i :| 0 <= i < |docs| && docs[i].key == d;
        assert docs[i] in docs;
        IdRoundTrip(c, d, docs[i].id);
        IdRoundTrip(c, d, id);
      }
    }
  }

  lemma NotSelf(k: Key)
    ensures !Less(k, k)
  {
    KeyOrder();
  }

  /** In a clean collection a put is accepted exactly when the id can name a document, every indexed
      field is a scalar or absent, and no other document holds one of its unique values. */
  lemma PutAccepted(decode: Decoder, c: Collection, unique: map<Key, bool>, m: Store, id: Key, bytes: Value)
    requires ValidCollection(c) && SmallScalars(decode) && WellKeyed(c, m) && AllIndexable(decode, c, m)
    requires Tidy(decode, c, m) && NoneDamaged(decode, c, m) && UniqueAll(c, unique, m) && decode(bytes).Some?
    ensures var d, held := DocumentKey(c, id), Held(c, m);
            Nameable(c, id) && Writable(decode, c, unique, m, d, Operation.Put(d, bytes)) <==>
            && 1 <= |id| <= 65535 && |d| <= 65536
            && (forall f :: f in c.indexes ==> FieldOf(decode(bytes), f) != Some(Composite))
            && forall f, v, other |
                 && IsUnique(c, unique, f) && FieldOf(decode(bytes), f) == Some(Scalar(v))
                 && other in held && other != id ::
                 FieldOf(decode(held[other]), f) != Some(Scalar(v))
  {
    hide ValidCollection, WellKeyed, UniqueAll, Tidy, NoneDamaged, Held, DocumentKey, IsDocument, Unrivalled;
    var d, held := DocumentKey(c, id), Held(c, m);
    var after := decode(bytes);
    KeyIsDocument(c, id);
    assert Indexable(c, Stored(decode, m, d));
    if Nameable(c, id) {
      UnrivalledMeans(decode, c, unique, m, id, Stored(decode, m, d), after);
    }
  }

  /** Another document that holds a unique value is posted under it, and the document itself is not. */
  lemma RivalPosted(decode: Decoder, c: Collection, unique: map<Key, bool>, m: Store, id: Key, other: Key, f: Key,
                    v: Value)
    requires ValidId(id) && IsUnique(c, unique, f) && ValidIndexValue(v) && other in Held(c, m) && other != id
    requires FieldOf(decode(Held(c, m)[other]), f) == Some(Scalar(v))
    requires Tidy(decode, c, m) && NoneDamaged(decode, c, m) && UniqueAll(c, unique, m)
    ensures Posting(c, f, v, DocumentKey(c, other)) in m && DocumentKey(c, other) != DocumentKey(c, id)
    ensures ScalarOf(FieldOf(Stored(decode, m, DocumentKey(c, id)), f)) != Some(v)
  {
    hide Held, DocumentKey, IsDocument, IndexName, EntryKey, ValidId;
    var d, e := DocumentKey(c, id), DocumentKey(c, other);
    HeldIs(c, m, other);
    KeyIsDocument(c, id);
    KeyIsDocument(c, other);
    if d == e { SameDocument(c, id, other); }
    assert ExactAt(decode, c, m, e) && FieldIs(decode, m, e, f, v);
    assert ExactAt(decode, c, m, d);
    assert FieldIs(decode, m, d, f, v) <==> ScalarOf(FieldOf(Stored(decode, m, d), f)) == Some(v);
  }

  /** What is posted under a value is a document that holds it. */
  lemma PostingHolder(decode: Decoder, c: Collection, m: Store, f: Key, v: Value, e: Key)
    requires f in c.indexes && ValidIndexValue(v) && Posting(c, f, v, e) in m
    requires Tidy(decode, c, m) && NoneDamaged(decode, c, m) && WellKeyed(c, m)
    ensures IdOf(c, e).Some? && IdOf(c, e).value in Held(c, m) && e == DocumentKey(c, IdOf(c, e).value)
    ensures FieldOf(decode(Held(c, m)[IdOf(c, e).value]), f) == Some(Scalar(v))
  {
    hide Held, DocumentKey, IsDocument, Posting, IdOf;
    assert IsDocument(c, e) && ExactAt(decode, c, m, e);
    assert FieldIs(decode, m, e, f, v);
    IdRoundTrip(c, e, IdOf(c, e).value);
    HeldIs(c, m, IdOf(c, e).value);
  }

  /** Its unique values are unrivalled exactly when no other document holds one. */
  lemma UnrivalledMeans(decode: Decoder, c: Collection, unique: map<Key, bool>, m: Store, id: Key,
                        before: Option<Fields>, after: Option<Fields>)
    requires ValidCollection(c) && SmallScalars(decode) && WellKeyed(c, m) && ValidId(id)
    requires Tidy(decode, c, m) && NoneDamaged(decode, c, m) && UniqueAll(c, unique, m)
    requires before == Stored(decode, m, DocumentKey(c, id))
    requires forall f :: ScalarOf(FieldOf(after, f)).Some? ==> ValidIndexValue(ScalarOf(FieldOf(after, f)).value)
    ensures Unrivalled(c, unique, m, DocumentKey(c, id), before, after) <==>
            forall f, v, other |
              IsUnique(c, unique, f) && FieldOf(after, f) == Some(Scalar(v)) && other in Held(c, m) && other != id ::
              FieldOf(decode(Held(c, m)[other]), f) != Some(Scalar(v))
  {
    hide ValidCollection, Held, DocumentKey, IsDocument, Posting;
    var d, held := DocumentKey(c, id), Held(c, m);
    if Unrivalled(c, unique, m, d, before, after) {
      forall f, v, other |
        IsUnique(c, unique, f) && FieldOf(after, f) == Some(Scalar(v)) && other in held && other != id
        ensures FieldOf(decode(held[other]), f) != Some(Scalar(v))
      {
        if FieldOf(decode(held[other]), f) == Some(Scalar(v)) { RivalPosted(decode, c, unique, m, id, other, f, v); }
      }
    }
    if forall f, v, other |
      IsUnique(c, unique, f) && FieldOf(after, f) == Some(Scalar(v)) && other in held && other != id ::
      FieldOf(decode(held[other]), f) != Some(Scalar(v))
    {
      forall f, v, e | IsUnique(c, unique, f) && ScalarOf(FieldOf(after, f)) == Some(v) && Posting(c, f, v, e) in m
        ensures e == d
      {
        PostingHolder(decode, c, m, f, v, e);
      }
    }
  }

  datatype DocStep =
    | PutStep(id: Key, bytes: Value)
    | DeleteStep(id: Key)
    | RebuildStep
    | DamageStep(id: Key, bytes: Value)

  /** What a step that succeeded does to the map. */
  function Effect(held: map<Key, Value>, step: DocStep): map<Key, Value> {
    match step
    case PutStep(id, bytes) => held[id := bytes]
    case DeleteStep(id) => held - {id}
    case RebuildStep => held
    case DamageStep(id, bytes) => if id in held then held[id := bytes] else held
  }

  function Effects(held: map<Key, Value>, steps: seq<DocStep>, done: seq<bool>): map<Key, Value>
    requires |done| == |steps|
  {
    if steps == [] then held
    else
      var n := |steps| - 1;
      var before := Effects(held, steps[..n], done[..n]);
      if done[n] then Effect(before, steps[n]) else before
  }

  class DocumentStore {
    const decode: Decoder
    const c: Collection
    const unique: map<Key, bool>
    var store: Store
    var lsn: nat
    /** The last rebuild failed part-way. */
    var partial: bool

    ghost predicate Valid()
      reads this
    {
      && ValidCollection(c) && SmallScalars(decode) && Declared(c, unique)
      && WellKeyed(c, store) && AllIndexable(decode, c, store) && UniqueAll(c, unique, store)
      && (!partial ==> Tidy(decode, c, store))
    }

    /** No document is damaged and no rebuild was left part-way. */
    ghost predicate Clean()
      reads this
    {
      !partial && NoneDamaged(decode, c, store)
    }

    ghost function Contents(): map<Key, Value>
      reads this
    {
      Held(c, store)
    }

    constructor (decode: Decoder, c: Collection, unique: map<Key, bool>)
      requires ValidCollection(c) && SmallScalars(decode) && Declared(c, unique)
      ensures Valid() && Clean() && Contents() == map[] && this.decode == decode && this.c == c && this.unique == unique
    {
      this.decode, this.c, this.unique := decode, c, unique;
      store, lsn, partial := map[], 0, false;
    }

    method Put(id: Key, bytes: Value) returns (r: Result<(), DocumentError>)
      requires Valid() && decode(bytes).Some?
      modifies this`store, this`lsn
      ensures Valid() && (old(Clean()) ==> Clean())
      ensures r.Ok? <==>
                Nameable(c, id) && Writable(decode, c, unique, old(store), DocumentKey(c, id),
                Operation.Put(DocumentKey(c, id), bytes))
      ensures Contents() == if r.Ok? then old(Contents())[id := bytes] else old(Contents())
    {
      hide ValidCollection, SmallScalars, Declared, WellKeyed, AllIndexable, UniqueAll, Tidy, NoneDamaged, RedoAll,
           Held, DocumentKey, ValidId, IsDocument, Indexable, Unrivalled;
      var ops := PutDocument(decode, c, unique, store, id, bytes, lsn + 1);
      if ops.Err? {
        return Err(ops.error);
      }
      ghost var d, value := DocumentKey(c, id), Some(Stamped(bytes, lsn + 1));
      ghost var after := RedoAll(store, ops.value, lsn + 1);
      HeldAfter(c, store, after, id, value);
      IndexableAfter(decode, c, store, after, d, value);
      WroteUnique(decode, c, unique, store, after, d, value);
      store, lsn := RedoAll(store, ops.value, lsn + 1), lsn + 1;
      r := Ok(());
    }

    method Delete(id: Key) returns (r: Result<bool, DocumentError>)
      requires Valid()
      modifies this`store, this`lsn
      ensures Valid() && (old(Clean()) ==> Clean())
      ensures r.Ok? <==> Nameable(c, id)
      ensures r.Ok? ==> (r.value <==> id in old(Contents()))
      ensures Contents() == if r.Ok? then old(Contents()) - {id} else old(Contents())
    {
      hide ValidCollection, SmallScalars, Declared, WellKeyed, UniqueAll, Tidy, NoneDamaged, RedoAll, Held, DocumentKey,
           ValidId, IsDocument, Indexable;
      ghost var d := DocumentKey(c, id);
      HeldIs(c, store, id);
      KeyIsDocument(c, id);
      var ops := DeleteDocument(decode, c, unique, store, id, lsn + 1);
      if ops.Err? {
        return Err(ops.error);
      }
      if ops.value.None? {
        return Ok(false);
      }
      ghost var after := RedoAll(store, ops.value.value, lsn + 1);
      HeldAfter(c, store, after, id, None);
      IndexableAfter(decode, c, store, after, d, None);
      WroteUnique(decode, c, unique, store, after, d, None);
      store, lsn := RedoAll(store, ops.value.value, lsn + 1), lsn + 1;
      r := Ok(true);
    }

    /** Rebuilds every index. From indexes no failed rebuild left behind it succeeds exactly when
        no document is damaged, and then changes no entry; success always leaves exact indexes. */
    method Rebuild() returns (r: Result<nat, DocumentError>)
      requires Valid()
      modifies this`store, this`lsn, this`partial
      ensures Valid() && Contents() == old(Contents()) && (old(Clean()) ==> Clean())
      ensures r.Ok? <==> c.indexes == map[] || Rebuildable(decode, c, unique, old(store))
      ensures c.indexes != map[] && !old(partial) ==> (r.Ok? <==> old(NoneDamaged(decode, c, store)))
      ensures partial <==> r.Err?
      ensures r.Ok? && old(Clean()) ==>
                forall f, v, d :: f in c.indexes && ValidIndexValue(v) ==>
                      (Posting(c, f, v, d) in store <==> Posting(c, f, v, d) in old(store))
    {
      hide ValidCollection, SmallScalars, Declared, WellKeyed, UniqueAll, Tidy, Held, IsDocument, Indexable,
           Rebuildable, ExactIndexes, Posting;
      if !partial { CleanRebuilds(decode, c, unique, store); }
      var m;
      r, m, lsn := RebuildIndexes(decode, c, unique, store, lsn);
      SameHeld(c, store, m);
      SameDocs(decode, c, store, m);
      if c.indexes == map[] {
        NoIndexes(decode, c, unique, m);
      } else if r.Ok? {
        TidyExact(decode, c, m);
        TidyExact(decode, c, store);
        if Clean() {
          forall f, v, d | f in c.indexes && ValidIndexValue(v)
            ensures Posting(c, f, v, d) in m <==> Posting(c, f, v, d) in store
          {
            ExactDetermined(decode, c, m, store, f, v, d);
          }
        }
      }
      store, partial := m, r.Err?;
    }

    /** The stored bytes of a document go bad under the engine. */
    method Damage(id: Key, bytes: Value)
      requires Valid() && decode(bytes).None?
      modifies this`store
      ensures Valid()
      ensures Contents() == if id in old(Contents()) then old(Contents())[id := bytes] else old(Contents())
    {
      hide ValidCollection, SmallScalars, Declared, WellKeyed, UniqueAll, Tidy, Held, DocumentKey, ValidId, IsDocument,
           AllIndexable, NoneDamaged;
      var d := DocumentKey(c, id);
      HeldIs(c, store, id);
      if ValidId(id) && d in store {
        var value := Stamped(bytes, store[d].revision);
        ghost var after := store[d := value];
        KeyIsDocument(c, id);
        HeldAfter(c, store, after, id, Some(value));
        DamagedTidy(decode, c, unique, store, d, value);
        NothingIndexable(decode, c, bytes);
        IndexableAfter(decode, c, store, after, d, Some(value));
        store := store[d := value];
      }
    }

    /** The documents whose field holds a value, by index: from a clean store exactly a filter of
        the map. */
    method Query(f: Key, value: Encoded, limit: nat) returns (r: Result<seq<Document>, DocumentError>)
      requires Valid() && (value.Scalar? ==> ValidIndexValue(value.bytes))
      ensures Clean() ==> (r.Ok? <==> limit == 0 || (f in c.indexes && value.Scalar?))
      ensures Clean() && r.Ok? && f in c.indexes && value.Scalar? ==>
                Filters(r.value, limit, decode, c, Contents(), f, value.bytes)
    {
      hide ValidCollection, SmallScalars, Declared, WellKeyed, UniqueAll, Tidy, Held, IsDocument, AllIndexable,
           ExactIndexes, Finds, Filters;
      TidyExact(decode, c, store);
      r := Find(decode, c, store, f, value, limit);
      if Clean() && r.Ok? && f in c.indexes && value.Scalar? {
        FindsFilters(r.value, limit, decode, c, store, f, value.bytes);
      }
    }

    /** Takes one step and says whether it succeeded. */
    method Take(step: DocStep) returns (done: bool)
      requires Valid() && Allowed(decode, step)
      modifies this
      ensures Valid() && Contents() == if done then Effect(old(Contents()), step) else old(Contents())
      ensures partial == if step.RebuildStep? then !done else old(partial)
      ensures done <==> Succeeds(decode, c, unique, old(store), step)
    {
      hide ValidCollection, SmallScalars, Declared, WellKeyed, UniqueAll, Tidy, Held, AllIndexable, NoneDamaged,
           Writable, Rebuildable;
      match step {
        case PutStep(id, bytes) =>
          var r := Put(id, bytes);
          done := r.Ok?;
        case DeleteStep(id) =>
          var r := Delete(id);
          done := r.Ok?;
        case RebuildStep =>
          var r := Rebuild();
          done := r.Ok?;
        case DamageStep(id, bytes) =>
          Damage(id, bytes);
          done := true;
      }
    }

    /** Any run, with the store before each step and at the end: the collection is the fold of the
        steps that succeeded, and a step succeeds exactly when the store it meets lets it. A query at
        the end filters that map exactly when every document in it can be read and the last rebuild,
        if there was one, succeeded, whatever was damaged on the way. */
    method Run(steps: seq<DocStep>) returns (done: seq<bool>, ghost stores: seq<Store>)
      requires Valid() && forall i :: 0 <= i < |steps| ==> Allowed(decode, steps[i])
      modifies this
      ensures Valid() && |done| == |steps| && Contents() == Effects(old(Contents()), steps, done)
      ensures |stores| == |steps| + 1 && stores[0] == old(store) && stores[|steps|] == store
      ensures forall i :: 0 <= i < |steps| ==> (done[i] <==> Succeeds(decode, c, unique, stores[i], steps[i]))
      ensures Clean() <==> !partial && AllRead(decode, Contents())
      ensures partial <==> if NoRebuild(steps, 0) then old(partial) else exists i :: FailedLast(steps, done, i)
    {
      hide ValidCollection, SmallScalars, Declared, WellKeyed, UniqueAll, Tidy, Held, AllIndexable, NoneDamaged, Effect,
           AllRead, Succeeds, Effects, NoRebuild, FailedLast;
      NoEffects(Contents());
      done, stores := [], [store];
      ghost var last := -1;
      for i := 0 to |steps|
        invariant Valid() && |done| == i && Contents() == Effects(old(Contents()), steps[..i], done)
        invariant |stores| == i + 1 && stores[0] == old(store) && stores[i] == store
        invariant forall j :: 0 <= j < i ==> (done[j] <==> Succeeds(decode, c, unique, stores[j], steps[j]))
        invariant -1 <= last < i && forall j :: last < j < i ==> !steps[j].RebuildStep?
        invariant if last < 0 then partial == old(partial) else steps[last].RebuildStep? && partial == !done[last]
      {
        var ok := Take(steps[i]);
        EffectsNext(old(Contents()), steps, done, i, ok);
        done, stores := done + [ok], stores + [store];
        if steps[i].RebuildStep? { last := i; }
      }
      assert steps[..|steps|] == steps;
      ReadableUndamaged(decode, c, store);
      LastRebuild(steps, done, last);
    }
  }

  lemma NoEffects(held: map<Key, Value>)
    ensures Effects(held, [], []) == held
  {
  }

  lemma EffectsNext(held: map<Key, Value>, steps: seq<DocStep>, done: seq<bool>, i: nat, ok: bool)
    requires i < |steps| && |done| == i
    ensures var before := Effects(held, steps[..i], done);
            Effects(held, steps[..i + 1], done + [ok]) == if ok then Effect(before, steps[i]) else before
  {
    hide Effect;
    assert steps[..i + 1][..i] == steps[..i] && (done + [ok])[..i] == done;
  }

  lemma LastRebuild(steps: seq<DocStep>, done: seq<bool>, last: int)
    requires |done| == |steps| && -1 <= last < |steps| && forall j :: last < j < |steps| ==> !steps[j].RebuildStep?
    requires last >= 0 ==> steps[last].RebuildStep?
    ensures NoRebuild(steps, 0) <==> last < 0
    ensures last >= 0 ==> ((exists i :: FailedLast(steps, done, i)) <==> !done[last])
  {
    if last >= 0 && !done[last] { assert FailedLast(steps, done, last); }
  }

  /** The store lets the step succeed. */
  ghost predicate Succeeds(decode: Decoder, c: Collection, unique: map<Key, bool>, m: Store, step: DocStep) {
    match step
    case PutStep(id, bytes) =>
      Nameable(c, id) && Writable(decode, c, unique, m, DocumentKey(c, id), Operation.Put(DocumentKey(c, id), bytes))
    case DeleteStep(id) => Nameable(c, id)
    case RebuildStep => c.indexes == map[] || Rebuildable(decode, c, unique, m)
    case DamageStep(_, _) => true
  }

  predicate NoRebuild(steps: seq<DocStep>, from: nat) {
    forall j :: from <= j < |steps| ==> !steps[j].RebuildStep?
  }

  /** Step `i` is the last rebuild, and failed. */
  predicate FailedLast(steps: seq<DocStep>, done: seq<bool>, i: int) {
    0 <= i < |steps| == |done| && steps[i].RebuildStep? && !done[i] && NoRebuild(steps, i + 1)
  }

  /** Puts bring readable documents; damage leaves unreadable bytes. */
  predicate Allowed(decode: Decoder, step: DocStep) {
    (step.PutStep? ==> decode(step.bytes).Some?) && (step.DamageStep? ==> decode(step.bytes).None?)
  }

  lemma SameHeld(c: Collection, m: Store, m': Store)
    requires forall d :: IsDocument(c, d) ==> Lookup(m', d) == Lookup(m, d)
    ensures Held(c, m') == Held(c, m) && (WellKeyed(c, m) ==> WellKeyed(c, m'))
  {
    hide IdOf, DocumentKey, ValidId, IsDocument, Held;
    forall x ensures x in Held(c, m') <==> x in Held(c, m)
             ensures x in Held(c, m) ==> Held(c, m')[x] == Held(c, m)[x]
    {
      HeldIs(c, m, x);
      HeldIs(c, m', x);
      KeyIsDocument(c, x);
      assert Lookup(m', DocumentKey(c, x)) == Lookup(m, DocumentKey(c, x));
    }
    if WellKeyed(c, m) {
      forall d | IsDocument(c, d) && d in m' ensures IdOf(c, d).Some? {
        assert Lookup(m', d) == Lookup(m, d);
      }
    }
  }

  lemma SameDocs(decode: Decoder, c: Collection, m: Store, m': Store)
    requires forall d :: IsDocument(c, d) ==> Lookup(m', d) == Lookup(m, d)
    ensures (AllIndexable(decode, c, m) ==> AllIndexable(decode, c, m'))
    ensures (NoneDamaged(decode, c, m) ==> NoneDamaged(decode, c, m'))
  {
    hide IsDocument, Indexable;
    forall d | IsDocument(c, d) ensures d in m' <==> d in m ensures d in m ==> m'[d] == m[d] {
      assert Lookup(m', d) == Lookup(m, d);
    }
  }

  lemma NothingIndexable(decode: Decoder, c: Collection, bytes: Value)
    requires decode(bytes).None?
    ensures Indexable(c, decode(bytes))
  {
  }

  lemma DamagedTidy(decode: Decoder, c: Collection, unique: map<Key, bool>, m: Store, d: Key, value: Stamped)
    requires ValidCollection(c) && IsDocument(c, d) && d in m && decode(value.value).None? && UniqueAll(c, unique, m)
    ensures UniqueAll(c, unique, m[d := value]) && (Tidy(decode, c, m) ==> Tidy(decode, c, m[d := value]))
  {
    hide IsDocument, IndexName, EntryKey, ValidCollection;
    var m' := m[d := value];
    if Tidy(decode, c, m) {
      forall e | IsDocument(c, e) && !Damaged(decode, m', e) ensures ExactAt(decode, c, m', e) {
        assert e != d && ExactAt(decode, c, m, e);
      }
    }
  }

  lemma WroteUnique(decode: Decoder, c: Collection, unique: map<Key, bool>, m: Store, m': Store, d: Key,
                    value: Option<Stamped>)
    requires Wrote(decode, c, unique, m, m', d, value) && UniqueAll(c, unique, m)
    ensures UniqueAll(c, unique, m')
  {
    hide UniqueIn, IsUnique;
  }
}
