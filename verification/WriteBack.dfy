/** The write-back buffer against the log: what each buffered entry stands for, how a
    commit, an eviction and a flush move it, and the read handles that keep a copy. */
module WriteBack {
  import opened Results
  import opened Keys
  import opened Mutations
  import opened Stores
  import opened Windows
  import opened Overlays
  import opened Replay
  import opened Planning
  import opened Revisions

  /** A buffer that covers the commits after LSN `from`: an entry holds its key's state
      ever since its own revision, and a key without an entry has not changed since
      `from`. */
  ghost predicate ExactBuffer(log: seq<Record>, from: nat, buffer: Buffer) {
    && from <= |log|
    && (forall k :: k in buffer ==>
           from < buffer[k].revision <= |log| && Steady(log, k, buffer[k].revision, Overridden(buffer[k])))
    && (forall k :: k !in buffer ==> Steady(log, k, from, Lookup(StateAt(log, |log|), k)))
  }

  /** `k` holds `s` at every LSN from `since` on. */
  ghost predicate Steady(log: seq<Record>, k: Key, since: nat, s: Option<Stamped>) {
    forall l :: since <= l <= |log| ==> HeldAt(log, l, k) == s
  }

  ghost function HeldAt(log: seq<Record>, l: nat, k: Key): Option<Stamped>
    requires l <= |log|
  {
    Lookup(StateAt(log, l), k)
  }

  /** Laying an exact buffer over any tree state it covers gives the state now. */
  lemma ExactMerges(log: seq<Record>, from: nat, at: nat, buffer: Buffer)
    requires ExactBuffer(log, from, buffer) && from <= at <= |log|
    ensures Merge(StateAt(log, at), buffer) == StateAt(log, |log|)
  {
    var m, now := Merge(StateAt(log, at), buffer), StateAt(log, |log|);
    forall k ensures Lookup(m, k) == Lookup(now, k) {
      MergeLookup(StateAt(log, at), buffer, k);
      if k in buffer {
        assert HeldAt(log, |log|, k) == Overridden(buffer[k]);
      } else {
        assert HeldAt(log, at, k) == Lookup(now, k);
      }
    }
    SameLookups(m, now);
  }

  // ----- A commit -----------------------------------------------------------

  function BufferedEdit(e: Edit, revision: nat): Buffered {
    match e.change
    case Put(value, stamp) => Buffered(Some(value), stamp)
    case Delete => Buffered(None, revision)
  }

  function RecordEdits(buffer: Buffer, edits: seq<Edit>, revision: nat): Buffer {
    if edits == [] then buffer
    else
      var e := edits[|edits| - 1];
      RecordEdits(buffer, edits[..|edits| - 1], revision)[e.key := BufferedEdit(e, revision)]
  }

  predicate Edits(edits: seq<Edit>, k: Key) {
    exists i :: 0 <= i < |edits| && edits[i].key == k
  }

  /** Recording a commit's mutations stores, for each key they write, the state the
      commit leaves it in, and keeps the other entries. */
  lemma {:induction false} RecordedState(buffer: Buffer, edits: seq<Edit>, revision: nat, m: Store, k: Key)
    requires forall i :: 0 <= i < |edits| && edits[i].change.Put? ==> edits[i].change.revision == revision
    ensures var b := RecordEdits(buffer, edits, revision);
            if Edits(edits, k)
            then k in b && b[k].revision == revision && Overridden(b[k]) == Lookup(ApplyEdits(m, edits), k)
            else && Lookup(ApplyEdits(m, edits), k) == Lookup(m, k)
                 && (k in b <==> k in buffer) && (k in b ==> b[k] == buffer[k])
    decreases |edits|
  {
    if edits == [] {
    } else {
      var n := |edits| - 1;
      RecordedState(buffer, edits[..n], revision, m, k);
      if Edits(edits[..n], k) {
        var i :| 0 <= i < n && edits[..n][i].key == k;
        assert edits[i].key == k;
      }
      if Edits(edits, k) && edits[n].key != k {
        var i :| 0 <= i < |edits| && edits[i].key == k;
        assert edits[..n][i].key == k;
      }
    }
  }

  lemma SteadyLonger(log: seq<Record>, longer: seq<Record>, k: Key, since: nat, s: Option<Stamped>)
    requires log <= longer && |longer| == |log| + 1 && Steady(log, k, since, s) && since <= |log|
    requires Lookup(StateAt(longer, |longer|), k) == Lookup(StateAt(log, |log|), k)
    ensures Steady(longer, k, since, s)
  {
    assert HeldAt(log, |log|, k) == s;
    forall l | since <= l <= |longer| ensures HeldAt(longer, l, k) == s {
      if l <= |log| {
        StateAtKept(log, longer, l);
        assert HeldAt(log, l, k) == s;
      }
    }
  }

  /** A committed record's mutations take the state before it to the state after it,
      and carry its LSN. */
  ghost predicate Committed(log: seq<Record>, l: nat, edits: seq<Edit>) {
    && 0 < l <= |log|
    && ApplyEdits(StateAt(log, l - 1), edits) == StateAt(log, l)
    && (forall i :: 0 <= i < |edits| && edits[i].change.Put? ==> edits[i].change.revision == l)
  }

  lemma ExactCommit(log: seq<Record>, rec: Record, from: nat, buffer: Buffer, edits: seq<Edit>)
    requires ExactBuffer(log, from, buffer) && Committed(log + [rec], |log| + 1, edits)
    ensures ExactBuffer(log + [rec], from, RecordEdits(buffer, edits, |log| + 1))
  {
    var longer, rev := log + [rec], |log| + 1;
    var b, before, after := RecordEdits(buffer, edits, rev), StateAt(log, |log|), StateAt(longer, rev);
    StateAtKept(log, longer, |log|);
    forall k ensures RecordedKey(buffer, edits, rev, before, after, k) {
      RecordedState(buffer, edits, rev, before, k);
    }
    forall k | k in b ensures from < b[k].revision <= |longer| && Steady(longer, k, b[k].revision, Overridden(b[k])) {
      assert RecordedKey(buffer, edits, rev, before, after, k);
      if !Edits(edits, k) { SteadyLonger(log, longer, k, buffer[k].revision, Overridden(buffer[k])); }
    }
    forall k | k !in b ensures Steady(longer, k, from, Lookup(after, k)) {
      assert RecordedKey(buffer, edits, rev, before, after, k);
      SteadyLonger(log, longer, k, from, Lookup(before, k));
    }
  }

  ghost predicate RecordedKey(buffer: Buffer, edits: seq<Edit>, revision: nat, before: Store, after: Store, k: Key) {
    var b := RecordEdits(buffer, edits, revision);
    if Edits(edits, k) then k in b && b[k].revision == revision && Overridden(b[k]) == Lookup(after, k)
    else Lookup(after, k) == Lookup(before, k) && (k in b <==> k in buffer) && (k in b ==> b[k] == buffer[k])
  }

  lemma TouchedLonger(log: seq<Record>, rec: Record, from: nat, buffer: Buffer, edits: seq<Edit>)
    requires BufferTouched(log, buffer) && Addressable(rec.ops) && OwnedBy(edits, rec.ops, |log| + 1)
    ensures BufferTouched(log + [rec], RecordEdits(buffer, edits, |log| + 1))
  {
    var longer, b := log + [rec], RecordEdits(buffer, edits, |log| + 1);
    forall x | x in b ensures OwnerTouched(longer, x, b[x].revision) {
      RecordedState(buffer, edits, |log| + 1, map[], x);
      if Edits(edits, x) {
        var i :| 0 <= i < |edits| && edits[i].key == x;
        assert OwnedEdit(edits[i], rec.ops, |log| + 1);
        var op :| op in rec.ops && (x == op.key || (!Reserved(op.key) && x == TombstoneKey(op.key)));
        var j :| 0 <= j < |rec.ops| && rec.ops[j] == op;
        assert Touches(longer[|log|].ops, op.key);
        TombstoneShape(op.key);
      } else {
        assert OwnerTouched(log, x, buffer[x].revision);
      }
    }
  }

  // ----- Eviction -----------------------------------------------------------

  function Evict(buffer: Buffer, through: nat): Buffer {
    map k | k in buffer && buffer[k].revision > through :: buffer[k]
  }

  /** Once the tree contains the commits through `to`, entries at or below it may go. */
  lemma ExactEvict(log: seq<Record>, from: nat, to: nat, buffer: Buffer)
    requires ExactBuffer(log, from, buffer) && from <= to <= |log|
    ensures ExactBuffer(log, to, Evict(buffer, to))
  {
    var b := Evict(buffer, to);
    forall k | k !in b ensures Steady(log, k, to, Lookup(StateAt(log, |log|), k)) {
      if k in buffer {
        assert HeldAt(log, |log|, k) == Overridden(buffer[k]);
      }
    }
  }

  // ----- Flushing -----------------------------------------------------------

  function EditOf(row: BufferedRow): Edit {
    Edit(row.key, if row.value.Some? then Mutation.Put(row.value.value, row.revision) else Mutation.Delete)
  }

  /** The whole buffer as one batch, in key order. */
  method FlushEdits(buffer: Buffer, ghost tree: Store) returns (edits: seq<Edit>)
    ensures ApplyEdits(tree, edits) == Merge(tree, buffer)
  {
    var rows := InOrder(buffer, None, None, None);
    edits := seq(|rows|, i requires 0 <= i < |rows| => EditOf(rows[i]));
    forall k ensures Lookup(ApplyEdits(tree, edits), k) == Lookup(Merge(tree, buffer), k) {
      FlushedKey(buffer, tree, rows, edits, |rows|, k);
      MergeLookup(tree, buffer, k);
      assert edits[..|rows|] == edits;
      assert k in buffer ==> Selected(k, None, None, None) && Listed(rows, 0, k);
    }
    SameLookups(ApplyEdits(tree, edits), Merge(tree, buffer));
  }

  lemma {:induction false} FlushedKey(buffer: Buffer, tree: Store, rows: seq<BufferedRow>, edits: seq<Edit>, n: nat,
                                      k: Key)
    requires n <= |rows| == |edits|
    requires forall i :: 0 <= i < |rows| ==>
               edits[i] == EditOf(rows[i]) && IsBuffered(buffer, rows[i])
    ensures (exists x :: 0 <= x < n && rows[x].key == k) ==>
              k in buffer && Lookup(ApplyEdits(tree, edits[..n]), k) == Overridden(buffer[k])
    ensures !(exists x :: 0 <= x < n && rows[x].key == k) ==> Lookup(ApplyEdits(tree, edits[..n]), k) == Lookup(tree, k)
    decreases n
  {
    if n == 0 {
    } else {
      assert edits[..n][..n - 1] == edits[..n - 1];
      FlushedKey(buffer, tree, rows, edits, n - 1, k);
    }
  }

  // ----- Read handles -------------------------------------------------------

  /** A server's read handle: a tree root the writer published and an overlay copy fed
      the writer's mutations. */
  class ReadEngine {
    var generation: nat
    var tree: Store
    var overlay: Buffer
    var evictedThrough: nat

    /** The handle has been fed the first `published` commits of `log`. */
    ghost predicate Serves(log: seq<Record>, published: nat, at: nat)
      reads this
    {
      && at <= published <= |log| && evictedThrough <= at
      && tree == StateAt(log, at)
      && ExactBuffer(log[..published], evictedThrough, overlay)
    }

    function View(): Store
      reads this
    {
      Merge(tree, overlay)
    }

    /** A handle answers exactly as the writer did at the last commit it was fed. */
    lemma ViewIsState(log: seq<Record>, published: nat, at: nat)
      requires Serves(log, published, at)
      ensures View() == StateAt(log, published)
    {
      var l := log[..published];
      StateAtKept(l, log, at);
      StateAtKept(l, log, published);
      ExactMerges(l, evictedThrough, at, overlay);
    }

    constructor (log: seq<Record>, gen: nat, root: Store)
      requires root == StateAt(log, |log|)
      ensures Serves(log, |log|, |log|) && generation == gen
    {
      generation, tree, overlay, evictedThrough := gen, root, map[], |log|;
      new;
      assert log[..|log|] == log;
    }

    /** Moves to a newer root; a root of an older generation is ignored. */
    method Refresh(gen: nat, root: Store)
      modifies this`generation, this`tree
      ensures gen < old(generation) ==> generation == old(generation) && tree == old(tree)
      ensures gen >= old(generation) ==> generation == gen && tree == root
    {
      if gen >= generation {
        generation, tree := gen, root;
      }
    }

    /** Records one commit's mutations, then drops what the watermark licenses. */
    method PublishWriteBack(mutations: seq<Edit>, revision: nat, absorbed: nat)
      modifies this`overlay, this`evictedThrough
      ensures absorbed > old(evictedThrough) ==>
                overlay == Evict(RecordEdits(old(overlay), mutations, revision), absorbed) && evictedThrough == absorbed
      ensures absorbed <= old(evictedThrough) ==>
                overlay == RecordEdits(old(overlay), mutations, revision) && evictedThrough == old(evictedThrough)
    {
      for i := 0 to |mutations|
        invariant overlay == RecordEdits(old(overlay), mutations[..i], revision)
        invariant evictedThrough == old(evictedThrough)
      {
        assert mutations[..i + 1][..i] == mutations[..i];
        overlay := overlay[mutations[i].key := BufferedEdit(mutations[i], revision)];
      }
      assert mutations[..|mutations|] == mutations;
      if absorbed > evictedThrough {
        overlay := Evict(overlay, absorbed);
        evictedThrough := absorbed;
      }
    }

    /** Feeding the next commit, root first and watermark after, keeps the handle exact:
        `root` is the writer's tree at its absorb watermark `absorbed`. */
    method Feed(gen: nat, root: Store, mutations: seq<Edit>, revision: nat, absorbed: nat, ghost log: seq<Record>,
                ghost published: nat, ghost at: nat)
      requires Serves(log, published, at) && published < |log| && gen >= generation
      requires revision == published + 1 && Committed(log, revision, mutations)
      requires evictedThrough <= absorbed <= published + 1 && root == StateAt(log, absorbed)
      modifies this
      ensures Serves(log, published + 1, absorbed) && View() == StateAt(log, published + 1)
      ensures evictedThrough == absorbed && forall k :: k in overlay ==> overlay[k].revision > absorbed
    {
      Refresh(gen, root);
      PublishWriteBack(mutations, revision, absorbed);
      ghost var before, after := log[..published], log[..published + 1];
      assert after == before + [log[published]];
      CommittedPrefix(log, after, published + 1, mutations);
      ExactCommit(before, log[published], old(evictedThrough), old(overlay), mutations);
      ExactEvict(after, old(evictedThrough), absorbed, RecordEdits(old(overlay), mutations, published + 1));
      if absorbed == old(evictedThrough) {
        NothingToEvict(after, absorbed, overlay);
      }
      ViewIsState(log, published + 1, absorbed);
    }

    /** A checkpoint's republish carries a root and a watermark but no mutations. */
    method Republish(gen: nat, root: Store, absorbed: nat, ghost log: seq<Record>, ghost published: nat, ghost at: nat)
      requires Serves(log, published, at) && gen >= generation
      requires evictedThrough <= absorbed <= published && root == StateAt(log, absorbed)
      modifies this
      ensures Serves(log, published, absorbed) && View() == StateAt(log, published)
      ensures evictedThrough == absorbed && forall k :: k in overlay ==> overlay[k].revision > absorbed
    {
      Refresh(gen, root);
      ExactEvict(log[..published], evictedThrough, absorbed, overlay);
      if absorbed > evictedThrough {
        overlay := Evict(overlay, absorbed);
        evictedThrough := absorbed;
      }
      ViewIsState(log, published, absorbed);
    }
  }

  lemma CommittedPrefix(log: seq<Record>, prefix: seq<Record>, l: nat, edits: seq<Edit>)
    requires prefix <= log && l <= |prefix| && Committed(log, l, edits)
    ensures Committed(prefix, l, edits)
  {
    StateAtKept(prefix, log, l - 1);
    StateAtKept(prefix, log, l);
  }

  lemma NothingToEvict(log: seq<Record>, from: nat, buffer: Buffer)
    requires ExactBuffer(log, from, buffer)
    ensures Evict(buffer, from) == buffer
  {
  }
}
