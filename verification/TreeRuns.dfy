/** Runs of the tree: batches, puts and deletes are prepared and published one after another.
    The contents are the fold of every write that succeeded, and every root ever published
    still reads the map it was published with. */
module TreeRuns {
  import opened Results
  import opened Keys
  import opened Pages
  import opened Mutations
  import opened Stores
  import opened Windows
  import opened PageTree
  import opened PutPath
  import opened TreeReads
  import opened Overlays
  import opened WriteBack

  /** One write; `io` says whether its pages reach the file. */
  datatype Write =
    | Batch(edits: seq<Edit>, io: bool)
    | PutOne(key: Key, value: Value, revision: nat, io: bool)
    | DeleteOne(key: Key, io: bool)

  function EditsOf(w: Write): seq<Edit> {
    match w
    case Batch(edits, _) => edits
    case PutOne(key, value, revision, _) => [Edit(key, Mutation.Put(value, revision))]
    case DeleteOne(key, _) => [Edit(key, Mutation.Delete)]
  }

  /** The edits of the writes that succeeded, in order. */
  function Landed(writes: seq<Write>, done: seq<bool>): seq<Edit>
    requires |done| == |writes|
  {
    if writes == [] then []
    else
      var n := |writes| - 1;
      Landed(writes[..n], done[..n]) + (if done[n] then EditsOf(writes[n]) else [])
  }

  /** A root as it was published. */
  datatype Version = Version(root: nat, len: nat, height: nat)

  ghost predicate Reads(pages: seq<Page>, v: Version, m: Store) {
    Holds(pages, v.root, v.len, v.height) && StoreAt(pages, v.root, v.height) == m
  }

  lemma ReadsKept(pages: seq<Page>, more: seq<Page>, v: Version, m: Store)
    requires Reads(pages, v, m) && pages <= more
    ensures Reads(more, v, m)
  {
    HoldsKept(pages, more, v.root, v.len, v.height);
  }

  lemma OneEdit(m: Store, e: Edit)
    ensures ApplyEdits(m, [e]) == Apply(m, e.key, e.change)
  {
    assert [e][..0] == [];
  }

  /** Prepares one write and publishes its root if it succeeds. */
  method WriteOne(t: PageTree, w: Write) returns (done: bool)
    requires t.Valid()
    modifies t
    ensures t.Valid() && old(t.pages) <= t.pages
    ensures t.Contents() == if done then ApplyEdits(old(t.Contents()), EditsOf(w)) else old(t.Contents())
    ensures w.io && (old(t.root) == 0 || old(t.height) < MAX_TREE_DEPTH) ==> done
    ensures !done ==> t.pages == old(t.pages) && t.root == old(t.root)
  {
    hide Holds, StoreAt, ApplyEdits;
    match w
    case Batch(edits, io) =>
      var r, h := t.PrepareBatch(edits, io);
      done := r.Ok?;
      if done {
        t.Publish(r.value.0, r.value.1, h);
      }
    case PutOne(key, value, revision, io) =>
      var r, h := PreparePut(t, key, value, revision, io);
      OneEdit(t.Contents(), Edit(key, Mutation.Put(value, revision)));
      done := r.Ok?;
      if done {
        t.Publish(r.value.0, r.value.1, h);
      }
    case DeleteOne(key, io) =>
      var r, h := PrepareDelete(t, key, io);
      OneEdit(t.Contents(), Edit(key, Mutation.Delete));
      done := r.Ok?;
      if r.Ok? && r.value.Some? {
        t.Publish(r.value.value.0, r.value.value.1, h);
      }
  }

  /** Any run of writes: after each, the contents are the fold of the writes that landed, and
      at the end every version published on the way still reads its own map. */
  method Run(t: PageTree, writes: seq<Write>) returns (done: seq<bool>, ghost versions: seq<Version>)
    requires t.Valid()
    modifies t
    ensures t.Valid() && |done| == |writes| && |versions| == |writes| + 1
    ensures t.Contents() == ApplyEdits(old(t.Contents()), Landed(writes, done))
    ensures AllRead(t.pages, versions, old(t.Contents()), writes, done)
    ensures forall i :: 0 <= i < |writes| && writes[i].io ==>
              versions[i].root == 0 || versions[i].height < MAX_TREE_DEPTH ==> done[i]
  {
    hide Reads, ApplyEdits, Landed, AllRead, Holds, StoreAt, EditsOf;
    ghost var start := t.Contents();
    done, versions := [], [Version(t.root, t.len, t.height)];
    assert writes[..0] == [];
    Published(t);
    NoneLanded(t.pages, versions[0], start, writes);
    for i := 0 to |writes|
      invariant t.Valid() && |done| == i && |versions| == i + 1 && versions[i] == Version(t.root, t.len, t.height)
      invariant t.Contents() == ApplyEdits(start, Landed(writes[..i], done))
      invariant AllRead(t.pages, versions, start, writes, done)
      invariant forall j :: 0 <= j < i && writes[j].io ==>
                  versions[j].root == 0 || versions[j].height < MAX_TREE_DEPTH ==> done[j]
    {
      ghost var before := t.pages;
      var ok := WriteOne(t, writes[i]);
      LandsNext(start, writes, done, i, ok);
      Published(t);
      VersionsKept(before, t.pages, versions, Version(t.root, t.len, t.height), start, writes, done, ok);
      done, versions := done + [ok], versions + [Version(t.root, t.len, t.height)];
    }
    assert writes[..|writes|] == writes;
  }

  /** Version `i` reads what the first `i` writes left. */
  ghost predicate AllRead(pages: seq<Page>, versions: seq<Version>, start: Store, writes: seq<Write>, done: seq<bool>) {
    && |versions| == |done| + 1 && |done| <= |writes|
    && forall i :: 0 <= i <= |done| ==>
         Reads(pages, versions[i], ApplyEdits(start, Landed(writes[..i], done[..i])))
  }

  lemma NoneLanded(pages: seq<Page>, v: Version, start: Store, writes: seq<Write>)
    requires Reads(pages, v, start)
    ensures ApplyEdits(start, Landed([], [])) == start && AllRead(pages, [v], start, writes, [])
  {
    assert writes[..0] == [];
  }

  lemma VersionsKept(before: seq<Page>, pages: seq<Page>, versions: seq<Version>, v: Version, start: Store,
                     writes: seq<Write>, done: seq<bool>, ok: bool)
    requires AllRead(before, versions, start, writes, done) && before <= pages && |done| < |writes|
    requires Reads(pages, v, ApplyEdits(start, Landed(writes[..|done| + 1], done + [ok])))
    ensures AllRead(pages, versions + [v], start, writes, done + [ok])
  {
    hide Reads, ApplyEdits, Landed;
    var more, all := done + [ok], versions + [v];
    forall i | 0 <= i <= |more| ensures Reads(pages, all[i], ApplyEdits(start, Landed(writes[..i], more[..i]))) {
      if i <= |done| {
        assert more[..i] == done[..i] && all[i] == versions[i];
        ReadsKept(before, pages, versions[i], ApplyEdits(start, Landed(writes[..i], done[..i])));
      } else {
        assert more[..i] == more;
      }
    }
  }

  lemma Published(t: PageTree)
    requires t.Valid()
    ensures Reads(t.pages, Version(t.root, t.len, t.height), t.Contents())
  {
  }

  lemma LandsNext(start: Store, writes: seq<Write>, done: seq<bool>, i: nat, ok: bool)
    requires i < |writes| && |done| == i
    ensures ApplyEdits(start, Landed(writes[..i + 1], done + [ok])) ==
            var before := ApplyEdits(start, Landed(writes[..i], done)); if ok then ApplyEdits(before,
                EditsOf(writes[i])) else before
  {
    hide ApplyEdits;
    assert writes[..i + 1][..i] == writes[..i] && (done + [ok])[..i] == done;
    if ok {
      ApplyEditsConcat(start, Landed(writes[..i], done), EditsOf(writes[i]));
    } else {
      assert Landed(writes[..i], done) + [] == Landed(writes[..i], done);
    }
  }

  /** Writes a write-back buffer through the tree in one batch. Afterwards a plain scan answers, row
      for row, what the merged scan answered before. */
  method FlushBuffer(t: PageTree, buffer: Buffer, io: bool, start: Option<Key>, end: Option<Key>, limit: nat,
                     excluded: Option<Key>)
    returns (flushed: bool, before: Result<seq<Entry>, TreeError>, after: Result<seq<Entry>, TreeError>)
    requires t.Valid()
    modifies t
    ensures t.Valid() && t.Contents() == if flushed then Merge(old(t.Contents()), buffer) else old(t.Contents())
    ensures io && (old(t.root) == 0 || old(t.height) < MAX_TREE_DEPTH) ==> flushed
    ensures flushed && before.Ok? && after.Ok? ==> before == after
  {
    hide Holds, StoreAt, ApplyEdits, FirstRows, Merge;
    before := MergedScan(t, buffer, start, end, limit, excluded);
    var edits := FlushEdits(buffer, t.Contents());
    var r, h := t.PrepareBatch(edits, io);
    flushed := r.Ok?;
    if flushed {
      t.Publish(r.value.0, r.value.1, h);
    }
    after := Scan(t, start, end, limit, excluded);
    if flushed && before.Ok? && after.Ok? {
      FirstRowsUnique(before.value, after.value, limit, t.Contents(), start, end, excluded);
    }
  }
}
