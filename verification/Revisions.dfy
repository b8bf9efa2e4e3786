/** Conflict detection: what a key's revision says about the log that produced it,
    and the two checks a transaction's validation rests on. */
module Revisions {
  import opened Results
  import opened Keys
  import opened Pages
  import opened Stores
  import opened Windows
  import opened PageTree
  import opened TreeReads
  import opened Overlays
  import opened Replay

  predicate Touches(ops: seq<Operation>, k: Key) {
    exists i :: 0 <= i < |ops| && ops[i].key == k
  }

  /** A logged operation after `r` addressed `k`. */
  ghost predicate TouchedAfter(log: seq<Record>, k: Key, r: nat) {
    exists i: nat :: TouchedAt(log, k, i) && i > r
  }

  /** The record at LSN `l` addressed `k`. */
  predicate TouchedAt(log: seq<Record>, k: Key, l: nat) {
    0 < l <= |log| && Touches(log[l - 1].ops, k)
  }

  /** A key's revision: its live entry's, or its tombstone's. */
  function RevisionOf(m: Store, k: Key): Option<nat> {
    if k in m then Some(m[k].revision)
    else if TombstoneKey(k) in m then Some(m[TombstoneKey(k)].revision)
    else None
  }

  lemma CellRevision(m: Store, k: Key)
    requires !Reserved(k)
    ensures var c := CellOf(m, k);
            RevisionOf(m, k) == if c.live.Some? then Some(c.live.value.revision)
                                else if c.tomb.Some? then Some(c.tomb.value.revision) else None
  {
    TombstoneShape(k);
  }

  /** A record stamps every user key it addresses with its own LSN and leaves the rest. */
  lemma {:induction false} RedoAllStamps(m: Store, ops: seq<Operation>, lsn: nat, k: Key)
    requires Addressable(ops) && Hits(m, ops, lsn) && !Reserved(k)
    ensures RevisionOf(RedoAll(m, ops, lsn), k) == if Touches(ops, k) then Some(lsn) else RevisionOf(m, k)
    decreases |ops|
  {
    if ops == [] {
    } else {
      var n := |ops| - 1;
      var before := RedoAll(m, ops[..n], lsn);
      HitsPrefix(m, ops, n, lsn);
      assert HitsAt(m, ops, lsn, n);
      RedoAllStamps(m, ops[..n], lsn, k);
      TouchesSnoc(ops, k);
      RedoStamps(before, ops[n], lsn, k);
    }
  }

  lemma TouchesSnoc(ops: seq<Operation>, k: Key)
    requires ops != []
    ensures Touches(ops, k) <==> Touches(ops[..|ops| - 1], k) || ops[|ops| - 1].key == k
  {
    var n := |ops| - 1;
    if Touches(ops[..n], k) {
      var i :| 0 <= i < n && ops[..n][i].key == k;
      assert ops[i].key == k;
    }
    if Touches(ops, k) && ops[n].key != k {
      var i :| 0 <= i < |ops| && ops[i].key == k;
      assert ops[..n][i].key == k;
    }
  }

  lemma RedoStamps(m: Store, op: Operation, lsn: nat, k: Key)
    requires !IsTombstone(op.key) && !Reserved(k) && (op.Delete? ==> op.key in m)
    ensures RevisionOf(Redo(m, op, lsn), k) == if op.key == k then Some(lsn) else RevisionOf(m, k)
  {
    TombstoneShape(k);
    RedoCell(m, op, lsn, k);
    CellRevision(m, k);
    CellRevision(Redo(m, op, lsn), k);
  }

  /** A user key's revision past `r` is exactly a logged operation past `r`. */
  lemma {:induction false} RevisionIsTouch(log: seq<Record>, n: nat, k: Key, r: nat)
    requires Faithful(log) && n <= |log| && !Reserved(k)
    ensures var rev := RevisionOf(StateAt(log, n), k);
            && (rev.Some? ==> TouchedAt(log[..n], k, rev.value))
            && (rev.Some? && rev.value > r <==> TouchedAfter(log[..n], k, r))
    decreases n
  {
    if n == 0 {
    } else {
      RevisionIsTouch(log, n - 1, k, r);
      assert FaithfulAt(log, n - 1);
      StateAtNext(log, n - 1);
      RedoAllStamps(StateAt(log, n - 1), log[n - 1].ops, log[n - 1].lsn, k);
      forall i: nat
        ensures TouchedAt(log[..n], k, i) <==> TouchedAt(log[..n - 1], k, i) || (i == n && Touches(log[n - 1].ops, k))
      {
      }
      assert TouchedAt(log[..n], k, n) <==> Touches(log[n - 1].ops, k);
    }
  }

  // ----- What the buffer says about the log ---------------------------------

  /** Every buffered entry carries the LSN of a record that addressed its key. */
  ghost predicate BufferTouched(log: seq<Record>, buffer: Buffer) {
    forall x :: x in buffer ==> OwnerTouched(log, x, buffer[x].revision)
  }

  ghost predicate OwnerTouched(log: seq<Record>, x: Key, l: nat) {
    if IsTombstone(x) then
      !Reserved(x[|TOMBSTONE_PREFIX|..]) && TouchedAt(log, x[|TOMBSTONE_PREFIX|..], l)
    else TouchedAt(log, x, l)
  }

  /** The engine's two layers against its log: the tree is the state at some LSN, the
      buffer laid over it is the state now. */
  ghost predicate Layers(log: seq<Record>, at: nat, tree: Store, buffer: Buffer) {
    && Faithful(log) && at <= |log| && tree == StateAt(log, at)
    && Merge(tree, buffer) == StateAt(log, |log|)
    && BufferTouched(log, buffer)
  }

  /** Whether the merged change probe reports a change in a window. */
  ghost predicate MergedChanged(tree: Store, buffer: Buffer, start: Option<Key>, end: Option<Key>,
                                excluded: Option<Key>, r: nat) {
    || (exists k :: k in buffer && Selected(k, start, end, excluded) && buffer[k].revision > r)
    || StoreChanged(tree, start, end, excluded, r)
  }

  datatype ProbeError = InvertedRange | ProbeFailed(error: TreeError)

  /** A range that ends before it starts; a search of the buffer for one panics. */
  predicate Inverted(start: Option<Key>, end: Option<Key>) {
    start.Some? && end.Some? && Less(end.value, start.value)
  }

  function BufferOf(writeBack: Option<Buffer>): Buffer {
    if writeBack.Some? then writeBack.value else map[]
  }

  method MergedChangedSince(t: PageTree, writeBack: Option<Buffer>, start: Option<Key>, end: Option<Key>, revision: nat,
                            excluded: Option<Key>)
    returns (r: Result<bool, ProbeError>)
    requires t.Valid()
    ensures r == Err(InvertedRange) <==> writeBack.Some? && start.Some? && end.Some? && Less(end.value, start.value)
    ensures t.root == 0 || t.height < MAX_TREE_DEPTH ==> r.Ok? || r.error.InvertedRange?
    ensures r.Ok? ==> (r.value <==> MergedChanged(t.Contents(), BufferOf(writeBack), start, end, excluded, revision))
  {
    if writeBack.Some? {
      var buffer := writeBack.value;
      if Inverted(start, end) {
        return Err(InvertedRange);
      }
      var changed := exists k | k in buffer :: Selected(k, start, end, excluded) && buffer[k].revision > revision;
      if changed {
        return Ok(true);
      }
    }
    var found := ChangedSince(t, start, end, revision, excluded);
    r := if found.Ok? then Ok(found.value) else Err(ProbeFailed(found.error));
  }

  /** Whether a logged operation after `r` addressed a user key in `[start, end)`. */
  ghost predicate RangeTouched(log: seq<Record>, start: Option<Key>, end: Option<Key>, r: nat) {
    exists k :: !Reserved(k) && From(k, start) && Below(k, end) && TouchedAfter(log, k, r)
  }

  function TombstoneStart(start: Option<Key>): Key {
    if start.Some? then TombstoneKey(start.value) else TOMBSTONE_PREFIX
  }

  function TombstoneEnd(end: Option<Key>): Option<Key> {
    if end.Some? then Some(TombstoneKey(end.value)) else PrefixSuccessor(TOMBSTONE_PREFIX)
  }

  /** The tombstone window holds the tombstones of the user window, and nothing else. */
  lemma TombstoneWindow(start: Option<Key>, end: Option<Key>, x: Key)
    ensures Selected(x, Some(TombstoneStart(start)), TombstoneEnd(end), None) <==>
            IsTombstone(x) && From(x[|TOMBSTONE_PREFIX|..], start) && Below(x[|TOMBSTONE_PREFIX|..], end)
  {
    TombstoneShape(x);
    PrefixIsInterval(TOMBSTONE_PREFIX, x);
    if start.Some? { TombstoneBound(start.value, x); }
    if end.Some? { TombstoneBound(end.value, x); }
  }

  lemma TombstoneBound(b: Key, x: Key)
    ensures IsTombstone(x) ==> (Less(x, TombstoneKey(b)) <==> Less(x[|TOMBSTONE_PREFIX|..], b))
    ensures AtMost(TombstoneKey(b), x) ==> AtMost(TOMBSTONE_PREFIX, x)
    ensures Less(x, TombstoneKey(b)) ==> Below(x, PrefixSuccessor(TOMBSTONE_PREFIX))
  {
    TombstoneShape(x);
    TombstoneShape(b);
    if IsTombstone(x) {
      assert x == TOMBSTONE_PREFIX + x[|TOMBSTONE_PREFIX|..];
      LessUnderPrefix(TOMBSTONE_PREFIX, x[|TOMBSTONE_PREFIX|..], b);
    }
    PrefixIsInterval(TOMBSTONE_PREFIX, TombstoneKey(b));
    KeyOrder();
  }

  /** Two windows, one over live user keys and one over their tombstones, see exactly
      the user keys a later record addressed. */
  lemma RangeChangedIsTouched(log: seq<Record>, at: nat, tree: Store, buffer: Buffer, start: Option<Key>,
                              end: Option<Key>, r: nat)
    requires Layers(log, at, tree, buffer)
    ensures MergedChanged(tree, buffer, start, end, Some(INTERNAL_PREFIX), r) ||
            MergedChanged(tree, buffer, Some(TombstoneStart(start)), TombstoneEnd(end), None, r)
            <==> RangeTouched(log, start, end, r)
  {
    if MergedChanged(tree, buffer, start, end, Some(INTERNAL_PREFIX), r) {
      var x := ChangedKey(tree, buffer, start, end, Some(INTERNAL_PREFIX), r);
      LayerTouched(log, at, tree, buffer, x, x, r);
    }
    if MergedChanged(tree, buffer, Some(TombstoneStart(start)), TombstoneEnd(end), None, r) {
      var x := ChangedKey(tree, buffer, Some(TombstoneStart(start)), TombstoneEnd(end), None, r);
      TombstoneWindow(start, end, x);
      TombstoneOwner(log, at, tree, buffer, x);
      LayerTouched(log, at, tree, buffer, x, x[|TOMBSTONE_PREFIX|..], r);
    }
    if RangeTouched(log, start, end, r) {
      var k :| !Reserved(k) && From(k, start) && Below(k, end) && TouchedAfter(log, k, r);
      TouchSeen(log, at, tree, buffer, k, start, end, r);
    }
  }

  lemma ChangedKey(tree: Store, buffer: Buffer, start: Option<Key>, end: Option<Key>, excluded: Option<Key>, r: nat)
      returns (x: Key)
    requires MergedChanged(tree, buffer, start, end, excluded, r)
    ensures Selected(x, start, end, excluded)
    ensures ((x in buffer && buffer[x].revision > r) || (x in tree && tree[x].revision > r))
  {
    if StoreChanged(tree, start, end, excluded, r) {
      x :| x in tree && Selected(x, start, end, excluded) && tree[x].revision > r;
    } else {
      x :| x in buffer && Selected(x, start, end, excluded) && buffer[x].revision > r;
    }
  }

  /** A tombstone in either layer belongs to a user key. */
  lemma TombstoneOwner(log: seq<Record>, at: nat, tree: Store, buffer: Buffer, x: Key)
    requires Layers(log, at, tree, buffer) && IsTombstone(x) && (x in buffer || x in tree)
    ensures !Reserved(x[|TOMBSTONE_PREFIX|..])
  {
    TombstoneShape(x);
    if x in buffer {
      assert OwnerTouched(log, x, buffer[x].revision);
    } else {
      StateOrderly(log, at);
      assert OrderlyCell(x[|TOMBSTONE_PREFIX|..], CellOf(tree, x[|TOMBSTONE_PREFIX|..]));
    }
  }

  lemma LayerTouched(log: seq<Record>, at: nat, tree: Store, buffer: Buffer, x: Key, k: Key, r: nat)
    requires Layers(log, at, tree, buffer) && !Reserved(k) && (x == k || x == TombstoneKey(k))
    requires (x in buffer && buffer[x].revision > r) || (x in tree && tree[x].revision > r)
    ensures TouchedAfter(log, k, r)
  {
    TombstoneShape(k);
    TombstoneShape(x);
    if x in buffer && buffer[x].revision > r {
      assert OwnerTouched(log, x, buffer[x].revision);
      assert TouchedAt(log, k, buffer[x].revision);
    } else {
      StateOrderly(log, at);
      assert OrderlyCell(k, CellOf(tree, k));
      RevisionIsTouch(log, at, k, r);
      var i: nat :| TouchedAt(log[..at], k, i) && i > r;
      assert TouchedAt(log, k, i);
    }
  }

  lemma TouchSeen(log: seq<Record>, at: nat, tree: Store, buffer: Buffer, k: Key, start: Option<Key>, end: Option<Key>,
                  r: nat)
    requires Layers(log, at, tree, buffer) && !Reserved(k) && From(k, start) && Below(k, end) && TouchedAfter(log, k, r)
    ensures MergedChanged(tree, buffer, start, end, Some(INTERNAL_PREFIX), r) ||
            MergedChanged(tree, buffer, Some(TombstoneStart(start)), TombstoneEnd(end), None, r)
  {
    assert log[..|log|] == log;
    RevisionIsTouch(log, |log|, k, r);
    TombstoneShape(k);
    TombstoneWindow(start, end, TombstoneKey(k));
    var m := Merge(tree, buffer);
    var x := if k in m then k else TombstoneKey(k);
    assert x in m && m[x].revision > r;
    assert x in buffer || x in tree;
  }

  /** The tombstone window ends before it starts only if the user window does. */
  lemma TombstonesUpright(start: Option<Key>, end: Option<Key>)
    requires !Inverted(start, end)
    ensures !Inverted(Some(TombstoneStart(start)), TombstoneEnd(end))
  {
    KeyOrder();
    var first := TombstoneStart(start);
    TombstoneShape(if start.Some? then start.value else []);
    PrefixIsInterval(TOMBSTONE_PREFIX, first);
    if end.Some? {
      var last := TombstoneKey(end.value);
      TombstoneShape(end.value);
      PrefixIsInterval(TOMBSTONE_PREFIX, last);
      if start.Some? { TombstoneBound(start.value, last); }
    }
  }

  /** Whether a key of a range was written after a revision. In write-back mode a range that ends
      before it starts panics; without a buffer it holds no key. */
  method RangeChangedSince(t: PageTree, writeBack: Option<Buffer>, start: Option<Key>, end: Option<Key>, revision: nat,
                           ghost log: seq<Record>, ghost at: nat)
    returns (r: Result<bool, ProbeError>)
    requires t.Valid() && Layers(log, at, t.Contents(), BufferOf(writeBack))
    ensures r == Err(InvertedRange) <==> writeBack.Some? && start.Some? && end.Some? && Less(end.value, start.value)
    ensures t.root == 0 || t.height < MAX_TREE_DEPTH ==> r.Ok? || r.error.InvertedRange?
    ensures r.Ok? ==> (r.value <==> RangeTouched(log, start, end, revision))
  {
    hide TombstoneStart, TombstoneEnd, Layers, RangeTouched, MergedChanged;
    RangeChangedIsTouched(log, at, t.Contents(), BufferOf(writeBack), start, end, revision);
    if !Inverted(start, end) { TombstonesUpright(start, end); }
    var live :- MergedChangedSince(t, writeBack, start, end, revision, Some(INTERNAL_PREFIX));
    if live {
      return Ok(true);
    }
    r := MergedChangedSince(t, writeBack, Some(TombstoneStart(start)), TombstoneEnd(end), revision, None);
  }

  // ----- Validation of the keys a transaction read --------------------------


  datatype ReadError = EmptyKey | KeyTooLarge | ReservedKey | TreeFailed(error: TreeError)

  function CheckUserKey(k: Key): Option<ReadError> {
    if k == [] then Some(EmptyKey)
    else if |k| > MAX_KEY_SIZE then Some(KeyTooLarge)
    else if Reserved(k) then Some(ReservedKey)
    else None
  }

  method Ordered(keys: set<Key>) returns (s: seq<Key>)
    ensures Ascending(s) && forall k :: k in s <==> k in keys
  {
    var left := keys;
    s := [];
    while left != {}
      invariant left <= keys && Ascending(s)
      invariant forall k :: k in keys <==> k in s || k in left
      invariant forall i, k :: 0 <= i < |s| && k in left ==> Less(s[i], k)
      decreases |left|
    {
      var k := Smallest(left);
      s, left := s + [k], left - {k};
    }
  }

  ghost predicate AnyTouched(log: seq<Record>, keys: seq<Key>, r: nat) {
    exists k :: k in keys && TouchedAfter(log, k, r)
  }

  /** The newest retained version of a key names a record that addressed it: a lower
      bound of the key's revision, never the whole answer. */
  ghost predicate RetainedTouched(log: seq<Record>, retained: map<Key, nat>) {
    forall k :: k in retained && !Reserved(k) ==> TouchedAt(log, k, retained[k])
  }

  /** Whether any of the keys a transaction read changed after its snapshot. */
  method AnyChangedSince(t: PageTree, buffer: Buffer, retained: map<Key, nat>, keys: seq<Key>, revision: nat,
                         ghost log: seq<Record>, ghost at: nat)
    returns (r: Result<bool, ReadError>)
    requires t.Valid() && Layers(log, at, t.Contents(), buffer) && RetainedTouched(log, retained)
    ensures (t.root == 0 || t.height < MAX_TREE_DEPTH) ==>
              (forall i :: 0 <= i < |keys| ==> 1 <= |keys[i]| <= 65536 && !(INTERNAL_PREFIX <= keys[i])) ==> r.Ok?
    ensures r.Ok? ==> (r.value <==> AnyTouched(log, keys, revision))
  {
    var checked :- CheckKeys(retained, keys, revision, log);
    if checked.None? {
      return Ok(true);
    }
    var live := Ordered(checked.value);
    SameTouched(log, live, keys, revision);
    r := SweptSince(t, buffer, live, revision, log, at);
  }

  lemma SameTouched(log: seq<Record>, a: seq<Key>, b: seq<Key>, r: nat)
    requires forall k :: k in a <==> k in b
    ensures AnyTouched(log, a, r) <==> AnyTouched(log, b, r)
  {
  }

  /** The distinct keys left to look up, or none when a retained version already proves
      a change. */
  method CheckKeys(retained: map<Key, nat>, keys: seq<Key>, revision: nat, ghost log: seq<Record>)
    returns (r: Result<Option<set<Key>>, ReadError>)
    requires RetainedTouched(log, retained)
    ensures (forall i :: 0 <= i < |keys| ==> 1 <= |keys[i]| <= 65536 && !(INTERNAL_PREFIX <= keys[i])) ==> r.Ok?
    ensures r.Ok? && r.value.None? ==> AnyTouched(log, keys, revision)
    ensures r.Ok? && r.value.Some? ==> forall k :: k in r.value.value <==> k in keys
    ensures r.Ok? && r.value.Some? ==> forall k :: k in keys ==> !Reserved(k)
  {
    var pending: set<Key> := {};
    for i := 0 to |keys|
      invariant forall k :: k in pending <==> k in keys[..i]
      invariant forall k :: k in pending ==> !Reserved(k)
    {
      var bad := CheckUserKey(keys[i]);
      if bad.Some? {
        return Err(bad.value);
      }
      if keys[i] in retained && retained[keys[i]] > revision {
        assert keys[i] in keys && TouchedAt(log, keys[i], retained[keys[i]]) && TouchedAfter(log, keys[i], revision);
        return Ok(None);
      }
      pending := pending + {keys[i]};
    }
    assert keys[..|keys|] == keys;
    return Ok(Some(pending));
  }

  /** Two ordered sweeps: the live entries, then the tombstones of the absent keys. */
  method SweptSince(t: PageTree, buffer: Buffer, live: seq<Key>, revision: nat, ghost log: seq<Record>, ghost at: nat)
    returns (r: Result<bool, ReadError>)
    requires t.Valid() && Layers(log, at, t.Contents(), buffer)
    requires Ascending(live) && forall k :: k in live ==> !Reserved(k)
    ensures t.root == 0 || t.height < MAX_TREE_DEPTH ==> r.Ok?
    ensures r.Ok? ==> (r.value <==> AnyTouched(log, live, revision))
  {
    LiveRevisions(log, live, revision);
    r := Sweeps(t, buffer, live, revision);
  }

  ghost predicate AnyNewer(m: Store, keys: seq<Key>, r: nat) {
    exists k :: k in keys && NewerThan(RevisionOf(m, k), r)
  }

  predicate NewerThan(rev: Option<nat>, r: nat) {
    rev.Some? && rev.value > r
  }

  method Sweeps(t: PageTree, buffer: Buffer, live: seq<Key>, revision: nat) returns (r: Result<bool, ReadError>)
    requires t.Valid() && Ascending(live)
    ensures t.root == 0 || t.height < MAX_TREE_DEPTH ==> r.Ok?
    ensures r.Ok? ==> (r.value <==> AnyNewer(Merge(t.Contents(), buffer), live, revision))
  {
    var entries := MergedGetMany(t, buffer, live);
    if entries.Err? { return Err(TreeFailed(entries.error)); }
    var changed, unresolved := LiveSweep(entries.value, live, revision, Merge(t.Contents(), buffer));
    if changed {
      return Ok(true);
    }
    var dead := MergedGetMany(t, buffer, unresolved);
    if dead.Err? { return Err(TreeFailed(dead.error)); }
    changed := DeadSweep(dead.value, unresolved, revision, live, Merge(t.Contents(), buffer));
    return Ok(changed);
  }

  method LiveSweep(entries: seq<Option<Stamped>>, live: seq<Key>, revision: nat, ghost m: Store)
      returns (changed: bool, unresolved: seq<Key>)
    requires Ascending(live) && |entries| == |live| && forall i :: 0 <= i < |live| ==> entries[i] == Lookup(m, live[i])
    ensures changed ==> AnyNewer(m, live, revision)
    ensures !changed ==> TombstonesOf(unresolved, live, m)
    ensures !changed ==> forall j :: 0 <= j < |live| ==> !(live[j] in m && m[live[j]].revision > revision)
  {
    unresolved := [];
    for i := 0 to |live|
      invariant forall j :: 0 <= j < i ==> !(live[j] in m && m[live[j]].revision > revision)
      invariant TombstonesOf(unresolved, live[..i], m)
    {
      assert live[..i + 1] == live[..i] + [live[i]];
      if entries[i].Some? {
        if entries[i].value.revision > revision {
          assert live[i] in live && NewerThan(RevisionOf(m, live[i]), revision);
          return true, unresolved;
        }
      } else {
        AddTombstone(unresolved, live, i, m);
        unresolved := unresolved + [TombstoneKey(live[i])];
      }
    }
    assert live[..|live|] == live;
    changed := false;
  }

  method DeadSweep(dead: seq<Option<Stamped>>, unresolved: seq<Key>, revision: nat, ghost live: seq<Key>,
                   ghost m: Store) returns (changed: bool)
    requires TombstonesOf(unresolved, live, m)
    requires forall j :: 0 <= j < |live| ==> !(live[j] in m && m[live[j]].revision > revision)
    requires |dead| == |unresolved| && forall i :: 0 <= i < |unresolved| ==> dead[i] == Lookup(m, unresolved[i])
    ensures changed <==> AnyNewer(m, live, revision)
  {
    changed := exists i | 0 <= i < |unresolved| :: dead[i].Some? && dead[i].value.revision > revision;
    if changed {
      var i :| 0 <= i < |unresolved| && dead[i].Some? && dead[i].value.revision > revision;
      assert unresolved[i] in unresolved;
      ghost var j :| 0 <= j < |live| && live[j] !in m && unresolved[i] == TombstoneKey(live[j]);
      assert live[j] in live && NewerThan(RevisionOf(m, live[j]), revision);
    } else {
      forall k | k in live ensures !NewerThan(RevisionOf(m, k), revision) {
        var j :| 0 <= j < |live| && live[j] == k;
        assert k !in m ==> TombstoneKey(k) in unresolved;
      }
    }
  }

  lemma LiveRevisions(log: seq<Record>, live: seq<Key>, r: nat)
    requires Faithful(log) && forall k :: k in live ==> !Reserved(k)
    ensures AnyTouched(log, live, r) <==> AnyNewer(StateAt(log, |log|), live, r)
  {
    assert log[..|log|] == log;
    forall k | k in live ensures NewerThan(RevisionOf(StateAt(log, |log|), k), r) <==> TouchedAfter(log, k, r) {
      RevisionIsTouch(log, |log|, k, r);
    }
  }

  /** The tombstone keys of the absent keys, in order. */
  ghost predicate TombstonesOf(unresolved: seq<Key>, live: seq<Key>, m: Store) {
    && Ascending(unresolved)
    && (forall x :: x in unresolved ==> exists j :: 0 <= j < |live| && live[j] !in m && x == TombstoneKey(live[j]))
    && (forall j :: 0 <= j < |live| && live[j] !in m ==> TombstoneKey(live[j]) in unresolved)
  }

  lemma AddTombstone(unresolved: seq<Key>, live: seq<Key>, i: nat, m: Store)
    requires i < |live| && Ascending(live) && live[i] !in m && TombstonesOf(unresolved, live[..i], m)
    ensures TombstonesOf(unresolved + [TombstoneKey(live[i])], live[..i + 1], m)
  {
    var next, now := unresolved + [TombstoneKey(live[i])], live[..i + 1];
    forall x | 0 <= x < |unresolved| ensures Less(unresolved[x], TombstoneKey(live[i])) {
      assert unresolved[x] in unresolved;
      var j :| 0 <= j < i && live[..i][j] !in m && unresolved[x] == TombstoneKey(live[..i][j]);
      LessUnderPrefix(TOMBSTONE_PREFIX, live[j], live[i]);
    }
    forall x | x in next ensures exists j :: 0 <= j < |now| && now[j] !in m && x == TombstoneKey(now[j]) {
      if x in unresolved {
        var j :| 0 <= j < i && live[..i][j] !in m && x == TombstoneKey(live[..i][j]);
        assert now[j] == live[..i][j];
      } else {
        assert now[i] == live[i];
      }
    }
    forall j | 0 <= j < |now| && now[j] !in m ensures TombstoneKey(now[j]) in next {
      if j < i { assert now[j] == live[..i][j]; }
    }
  }
}
