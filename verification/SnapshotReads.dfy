/** Reads at a snapshot: one key, and a limited scan. */
module SnapshotReads {
  import opened Results
  import opened Keys
  import opened Pages
  import opened Mutations
  import opened Stores
  import opened Windows
  import opened PageTree
  import opened TreeReads
  import opened Overlays
  import opened Replay
  import opened Revisions
  import opened Mvcc

  datatype SnapshotError = BadKey(error: ReadError) | SnapshotTooOld(requested: nat,
      oldest: nat) | InvalidRange | Unreadable(cause: TreeError)

  /** The revision a request stands for: one past the last commit means now. */
  function Resolved(r: nat, last: nat): nat {
    if r <= last then r else last
  }

  /** The newest revision known of a key: its live entry's or tombstone's, or a newer
      retained one. */
  method Revision(s: Snapshots, t: PageTree, buffer: Buffer, key: Key) returns (r: Result<Option<nat>, TreeError>)
    requires t.Valid()
    ensures t.root == 0 || t.height < MAX_TREE_DEPTH ==> r.Ok?
    ensures r.Ok? ==> r.value == Newer(VersionsOf(s.histories, key), RevisionOf(Merge(t.Contents(), buffer), key))
  {
    var vs := if key in s.histories then s.histories[key] else [];
    var live :- MergedGet(t, buffer, key);
    var dead :- MergedGet(t, buffer, TombstoneKey(key));
    var current := if live.Some? then Some(live.value.revision) else if dead.Some? then Some(dead.value.revision)
        else None;
    return Ok(Newer(vs, current));
  }

  function Newer(vs: seq<Version>, current: Option<nat>): Option<nat> {
    if vs == [] then current
    else if current.None? then Some(vs[|vs| - 1].revision)
    else if vs[|vs| - 1].revision > current.value then Some(vs[|vs| - 1].revision)
    else current
  }

  /** A key is newer than `r` exactly when a record after `r` addressed it. */
  lemma NewerIsTouch(log: seq<Record>, k: Key, vs: seq<Version>, r: nat)
    requires Faithful(log) && !Reserved(k) && Retained(log, k, vs)
    ensures NewerThan(Newer(vs, RevisionOf(StateAt(log, |log|), k)), r) <==> TouchedAfter(log, k, r)
  {
    assert log[..|log|] == log;
    RevisionIsTouch(log, |log|, k, r);
    if vs != [] {
      assert IsState(log, k, vs[|vs| - 1]);
    }
  }

  /** What the code answers for a key at a revision, given the two layers it consults. */
  lemma AnswerIs(log: seq<Record>, k: Key, vs: seq<Version>, covered: nat, r: nat)
    requires Faithful(log) && !Reserved(k) && KeyOk(log, k, vs, covered) && covered <= Resolved(r, |log|)
    ensures NewerThan(Newer(vs, RevisionOf(StateAt(log, |log|), k)), r) ==>
              AtVersion(vs, r) == ValueAt(log, Resolved(r, |log|), k)
    ensures !NewerThan(Newer(vs, RevisionOf(StateAt(log, |log|), k)), r) ==>
              ValueAt(log, |log|, k) == ValueAt(log, Resolved(r, |log|), k)
  {
    NewerIsTouch(log, k, vs, r);
    if r <= |log| {
      if TouchedAfter(log, k, r) {
        assert AnswersAt(log, k, vs, r);
      } else {
        Unchanged(log, k, r, |log|);
      }
    }
  }

  /** What a read answers for a key at a revision, from its versions and the live view. */
  function Answer(vs: seq<Version>, view: Store, k: Key, r: nat): Option<Value> {
    if NewerThan(Newer(vs, RevisionOf(view, k)), r) then AtVersion(vs, r) else ValueIn(view, k)
  }

  /** From an exact registry, a read at a covered revision is the value the key had at that
      commit; a revision below the watermark is refused. */
  method GetAt(s: Snapshots, t: PageTree, buffer: Buffer, key: Key, r: nat, ghost at: nat)
      returns (res: Result<Option<Value>, SnapshotError>)
    requires s.Tracked() && t.Valid() && Layers(s.log, at, t.Contents(), buffer)
    ensures 1 <= |key| <= 65536 && !(INTERNAL_PREFIX <= key) && r >= s.covered ==>
              t.root == 0 || t.height < MAX_TREE_DEPTH ==> res.Ok?
    ensures res.Ok? ==>
              r >= s.covered && !Reserved(key) &&
              res.value == Answer(VersionsOf(s.histories, key), StateAt(s.log, |s.log|), key, r)
    ensures res.Ok? && s.Valid() ==> res.value == ValueAt(s.log, Resolved(r, |s.log|), key)
  {
    hide AllOk, NoneStale, Faithful, AllRetained, StateAt, Layers, AtVersion;
    var bad := CheckUserKey(key);
    if bad.Some? {
      return Err(BadKey(bad.value));
    }
    if r < s.covered {
      return Err(SnapshotTooOld(r, s.covered));
    }
    LayersMerge(s.log, at, t.Contents(), buffer);
    if s.Valid() { Exactly(s, key, r); }
    var current := Revision(s, t, buffer, key);
    if current.Err? {
      return Err(Unreadable(current.error));
    }
    if NewerThan(current.value, r) {
      return Ok(AtVersion(VersionsOf(s.histories, key), r));
    }
    var live := MergedGet(t, buffer, key);
    if live.Err? {
      return Err(Unreadable(live.error));
    }
    return Ok(if live.value.Some? then Some(live.value.value.value) else None);
  }

  lemma LayersMerge(log: seq<Record>, at: nat, tree: Store, buffer: Buffer)
    requires Layers(log, at, tree, buffer)
    ensures Merge(tree, buffer) == StateAt(log, |log|)
  {
  }

  /** An exact registry answers every covered revision with the value at that commit. */
  lemma Exactly(s: Snapshots, k: Key, r: nat)
    requires s.Valid() && !Reserved(k) && s.covered <= r
    ensures Answer(VersionsOf(s.histories, k), StateAt(s.log, |s.log|), k, r) == ValueAt(s.log, Resolved(r, |s.log|), k)
  {
    hide AllOk, NoneStale, Faithful, AllRetained, StateAt;
    KeyOf(s.log, s.histories, s.covered, k);
    AnswerIs(s.log, k, VersionsOf(s.histories, k), s.covered, r);
  }

  lemma KeyOf(log: seq<Record>, h: Histories, covered: nat, k: Key)
    requires AllOk(log, h, covered) && !Reserved(k)
    ensures KeyOk(log, k, VersionsOf(h, k), covered)
  {
  }

  // ----- Scans --------------------------------------------------------------

  datatype Pair = Pair(key: Key, value: Value)

  predicate HasPair(rows: seq<Pair>, k: Key) {
    exists i :: 0 <= i < |rows| && rows[i].key == k
  }

  predicate Seen(k: Key, lo: Option<Key>, hi: Option<Key>) {
    Selected(k, lo, hi, Some(INTERNAL_PREFIX))
  }

  /** `rows` are the first `limit` user keys of `m` in range, with their values. */
  ghost predicate FirstPairs(rows: seq<Pair>, limit: nat, m: Store, lo: Option<Key>, hi: Option<Key>) {
    && |rows| <= limit && Rising(rows)
    && (forall i :: 0 <= i < |rows| ==> Seen(rows[i].key, lo, hi) && ValueIn(m, rows[i].key) == Some(rows[i].value))
    && (forall k :: k in m && Seen(k, lo, hi) ==>
           HasPair(rows, k) || (|rows| == limit && (limit == 0 || Less(rows[limit - 1].key, k))))
  }

  predicate Rising(rows: seq<Pair>) {
    forall i, j :: 0 <= i < j < |rows| ==> Less(rows[i].key, rows[j].key)
  }

  /** A user key without retained versions has not changed since any covered revision. */
  lemma NoHistoryNoChange(log: seq<Record>, h: Histories, covered: nat, r: nat, k: Key)
    requires Faithful(log) && AllOk(log, h, covered) && covered <= r <= |log| && !Reserved(k) && k !in h
    ensures Lookup(StateAt(log, r), k) == Lookup(StateAt(log, |log|), k)
  {
    assert KeyOk(log, k, VersionsOf(h, k), covered);
    assert TouchedAfter(log, k, r) ==> TouchedAfter(log, k, covered);
    Unchanged(log, k, r, |log|);
  }

  /** Asking the tree for `limit` rows plus one per retained history is enough: when it
      has more, at least `limit` of those it gave are visible at the snapshot. */
  lemma EnoughCandidates(log: seq<Record>, h: Histories, covered: nat, r: nat, rows: seq<Entry>, limit: nat,
                         lo: Option<Key>, hi: Option<Key>)
    requires Faithful(log) && AllOk(log, h, covered) && covered <= r <= |log|
    requires FirstRows(rows, limit + |h|, StateAt(log, |log|), lo, hi, Some(INTERNAL_PREFIX)) && |rows| == limit + |h|
    ensures var visible := KeySet(rows) - h.Keys;
            |visible| >= limit && forall k :: k in visible ==> k in StateAt(log, r) && Seen(k, lo, hi)
  {
    var all, visible := KeySet(rows), KeySet(rows) - h.Keys;
    KeySetSize(rows);
    Smaller(all * h.Keys, h.Keys);
    assert all == visible + all * h.Keys;
    forall k | k in visible ensures k in StateAt(log, r) && Seen(k, lo, hi) {
      NoHistoryNoChange(log, h, covered, r, k);
    }
  }

  /** The keys a scan at a snapshot must look at. */
  function Candidates(fromTree: seq<Entry>, h: Histories, lo: Option<Key>, hi: Option<Key>): set<Key> {
    KeySet(fromTree) + set k | k in h && Seen(k, lo, hi)
  }

  /** Every visible key is a candidate, or lies past the tree rows that were read. */
  lemma CandidatesCover(log: seq<Record>, h: Histories, covered: nat, r: nat, rows: seq<Entry>, asked: nat,
                        lo: Option<Key>, hi: Option<Key>, k: Key)
    requires Faithful(log) && AllOk(log, h, covered) && covered <= r <= |log|
    requires FirstRows(rows, asked, StateAt(log, |log|), lo, hi, Some(INTERNAL_PREFIX))
    requires k in StateAt(log, r) && Seen(k, lo, hi)
    ensures k in Candidates(rows, h, lo, hi) || PastEnd(rows, asked, k)
  {
    if k !in h {
      NoHistoryNoChange(log, h, covered, r, k);
      if HasKey(rows, k) {
        var e :| e in rows && e.key == k;
        assert e.key in KeySet(rows);
      }
    }
  }

  /** The scan's answer is exactly the first `limit` rows of the map as of the snapshot. */
  method ScanAt(s: Snapshots, t: PageTree, buffer: Buffer, start: Option<Key>, end: Option<Key>, limit: nat, r: nat,
                ghost at: nat)
    returns (res: Result<seq<Pair>, SnapshotError>)
    requires s.Valid() && t.Valid() && Layers(s.log, at, t.Contents(), buffer)
    ensures res.Ok? ==> r >= s.covered && FirstPairs(res.value, limit, StateAt(s.log, Resolved(r, |s.log|)), start, end)
    ensures r < s.covered ==> res.Err?
    ensures && r >= s.covered && CleanKeys(s.log, s.histories)
            && (start.Some? ==> 1 <= |start.value| <= 65536 && !(INTERNAL_PREFIX <= start.value))
            && (end.Some? ==> 1 <= |end.value| <= 65536 && !(INTERNAL_PREFIX <= end.value))
            && (start.Some? && end.Some? ==> !Less(end.value, start.value)) ==>
              t.root == 0 || t.height < MAX_TREE_DEPTH ==> res.Ok?
  {
    hide AllOk, NoneStale, Faithful, FirstPairs, StateAt, Layers, AllRetained;
    if start.Some? && CheckUserKey(start.value).Some? {
      return Err(BadKey(CheckUserKey(start.value).value));
    }
    if end.Some? && CheckUserKey(end.value).Some? {
      return Err(BadKey(CheckUserKey(end.value).value));
    }
    if start.Some? && end.Some? && Less(end.value, start.value) {
      return Err(InvalidRange);
    }
    if r < s.covered {
      return Err(SnapshotTooOld(r, s.covered));
    }
    if limit == 0 {
      NoPairs(StateAt(s.log, Resolved(r, |s.log|)), start, end);
      return Ok([]);
    }
    res := ScanCovered(s, t, buffer, start, end, limit, r, at);
  }

  method ScanCovered(s: Snapshots, t: PageTree, buffer: Buffer, start: Option<Key>, end: Option<Key>, limit: nat,
                     r: nat, ghost at: nat)
    returns (res: Result<seq<Pair>, SnapshotError>)
    requires s.Valid() && t.Valid() && Layers(s.log, at, t.Contents(), buffer) && r >= s.covered && limit > 0
    ensures res.Ok? ==> FirstPairs(res.value, limit, StateAt(s.log, Resolved(r, |s.log|)), start, end)
    ensures CleanKeys(s.log, s.histories) && (t.root == 0 || t.height < MAX_TREE_DEPTH) ==> res.Ok?
  {
    hide AllOk, NoneStale, Faithful, FirstPairs, FirstRows, StateAt, AllRetained, Layers, Merge, CutVisible, CleanKeys,
         Candidates;
    LayersMerge(s.log, at, t.Contents(), buffer);
    var fromTree := MergedScan(t, buffer, start, end, limit + |s.histories|, Some(INTERNAL_PREFIX));
    if fromTree.Err? {
      return Err(Unreadable(fromTree.error));
    }
    var keys := Ordered(Candidates(fromTree.value, s.histories, start, end));
    if CleanKeys(s.log, s.histories) {
      CandidatesClean(s.log, s.histories, fromTree.value, limit + |s.histories|, start, end);
    }
    res := ReadCandidates(s, t, buffer, keys, limit, r, at);
    if res.Ok? {
      CandidatesSuffice(s.log, s.histories, s.covered, Resolved(r, |s.log|), fromTree.value, limit, start, end, keys,
        res.value);
    }
  }

  /** Every user key the engine holds passed validation when it was written. */
  ghost predicate CleanKeys(log: seq<Record>, h: Histories) {
    forall k :: (k in StateAt(log, |log|) || k in h) && !Reserved(k) ==> CheckUserKey(k).None?
  }

  lemma CandidatesClean(log: seq<Record>, h: Histories, fromTree: seq<Entry>, asked: nat, lo: Option<Key>,
                        hi: Option<Key>)
    requires CleanKeys(log, h) && FirstRows(fromTree, asked, StateAt(log, |log|), lo, hi, Some(INTERNAL_PREFIX))
    ensures forall k :: k in Candidates(fromTree, h, lo, hi) ==> CheckUserKey(k).None?
  {
  }

  lemma NoPairs(m: Store, lo: Option<Key>, hi: Option<Key>)
    ensures FirstPairs([], 0, m, lo, hi)
  {
  }

  /** The visible keys of an ascending list, in order, cut to the limit. */
  ghost predicate Visible(rows: seq<Pair>, keys: seq<Key>, i: nat, m: Store) {
    && i <= |keys| && Rising(rows)
    && (forall x :: 0 <= x < |rows| ==> rows[x].key in keys[..i] && ValueIn(m, rows[x].key) == Some(rows[x].value))
    && (forall j :: 0 <= j < i && keys[j] in m ==> HasPair(rows, keys[j]))
  }

  method ReadCandidates(s: Snapshots, t: PageTree, buffer: Buffer, keys: seq<Key>, limit: nat, r: nat, ghost at: nat)
    returns (res: Result<seq<Pair>, SnapshotError>)
    requires s.Valid() && t.Valid() && Layers(s.log, at, t.Contents(), buffer) && Ascending(keys) && limit > 0
    ensures res.Ok? ==> |res.value| <= limit && CutVisible(res.value, keys, limit, StateAt(s.log, Resolved(r, |s.log|)))
    ensures r >= s.covered && (t.root == 0 || t.height < MAX_TREE_DEPTH) ==>
              (forall k :: k in keys ==> CheckUserKey(k).None?) ==> res.Ok?
  {
    hide AllOk, NoneStale, Faithful, AllRetained, Layers;
    var rows: seq<Pair> := [];
    ghost var m := StateAt(s.log, Resolved(r, |s.log|));
    for i := 0 to |keys|
      invariant |rows| < limit && Visible(rows, keys, i, m)
    {
      assert keys[i] in keys;
      var value :- GetAt(s, t, buffer, keys[i], r, at);
      ghost var before := rows;
      if value.Some? {
        rows := rows + [Pair(keys[i], value.value)];
      }
      NextVisible(before, rows, keys, i, m);
      if |rows| == limit {
        return Ok(rows);
      }
    }
    return Ok(rows);
  }

  ghost predicate CutVisible(rows: seq<Pair>, keys: seq<Key>, limit: nat, m: Store) {
    exists i :: 0 <= i <= |keys| && Visible(rows, keys, i, m) && (i == |keys| || |rows| == limit)
  }

  lemma NextVisible(before: seq<Pair>, rows: seq<Pair>, keys: seq<Key>, i: nat, m: Store)
    requires i < |keys| && Ascending(keys) && Visible(before, keys, i, m)
    requires rows == if keys[i] in m then before + [Pair(keys[i], m[keys[i]].value)] else before
    ensures Visible(rows, keys, i + 1, m)
  {
    hide Less;
    assert keys[..i + 1] == keys[..i] + [keys[i]];
    BelowNext(before, keys, i, m);
    forall x | 0 <= x < |rows| ensures rows[x].key in keys[..i + 1] && ValueIn(m, rows[x].key) == Some(rows[x].value) {
      assert x < |before| ==> rows[x] == before[x];
    }
    forall j | 0 <= j <= i && keys[j] in m ensures HasPair(rows, keys[j]) {
      StillPaired(before, rows, keys, i, j, m);
    }
  }

  lemma StillPaired(before: seq<Pair>, rows: seq<Pair>, keys: seq<Key>, i: nat, j: nat, m: Store)
    requires j <= i < |keys| && keys[j] in m && (j < i ==> HasPair(before, keys[j]))
    requires rows == if keys[i] in m then before + [Pair(keys[i], m[keys[i]].value)] else before
    ensures HasPair(rows, keys[j])
  {
    if j < i {
      var x :| 0 <= x < |before| && before[x].key == keys[j];
      assert rows[x].key == keys[j];
    } else {
      assert rows[|before|].key == keys[i];
    }
  }

  lemma BelowNext(before: seq<Pair>, keys: seq<Key>, i: nat, m: Store)
    requires i < |keys| && Ascending(keys) && Visible(before, keys, i, m)
    ensures forall x :: 0 <= x < |before| ==> Less(before[x].key, keys[i])
  {
    forall x | 0 <= x < |before| ensures Less(before[x].key, keys[i]) {
      assert before[x].key in keys[..i];
      var j :| 0 <= j < i && keys[..i][j] == before[x].key;
      assert keys[j] == before[x].key;
    }
  }

  /** The first visible candidates are the first visible keys. */
  lemma {:induction false} CandidatesSuffice(log: seq<Record>, h: Histories, covered: nat, r: nat, fromTree: seq<Entry>,
                                             limit: nat,
                          lo: Option<Key>, hi: Option<Key>, keys: seq<Key>, rows: seq<Pair>)
    requires Faithful(log) && AllOk(log, h, covered) && covered <= r <= |log| && limit > 0
    requires FirstRows(fromTree, limit + |h|, StateAt(log, |log|), lo, hi, Some(INTERNAL_PREFIX))
    requires Ascending(keys) && (forall k :: k in keys <==> k in Candidates(fromTree, h, lo, hi))
    requires |rows| <= limit && CutVisible(rows, keys, limit, StateAt(log, r))
    ensures FirstPairs(rows, limit, StateAt(log, r), lo, hi)
  {
    hide Faithful, AllOk, StateAt, KeySet, Seen;
    var m := StateAt(log, r);
    var i :| 0 <= i <= |keys| && Visible(rows, keys, i, m) && (i == |keys| || |rows| == limit);
    CandidatesSeen(fromTree, h, StateAt(log, |log|), limit + |h|, lo, hi);
    assert forall x :: 0 <= x < |rows| ==> rows[x].key in keys;
    forall k | k in m && Seen(k, lo, hi) && !HasPair(rows, k) ensures |rows| == limit && Less(rows[limit - 1].key, k) {
      LaterKey(log, h, covered, r, fromTree, limit, lo, hi, keys, rows, i, k);
    }
  }

  lemma {:induction false} LaterKey(log: seq<Record>, h: Histories, covered: nat, r: nat, fromTree: seq<Entry>,
                                    limit: nat,
                                    lo: Option<Key>, hi: Option<Key>, keys: seq<Key>, rows: seq<Pair>, i: nat, k: Key)
    requires Faithful(log) && AllOk(log, h, covered) && covered <= r <= |log| && limit > 0
    requires FirstRows(fromTree, limit + |h|, StateAt(log, |log|), lo, hi, Some(INTERNAL_PREFIX))
    requires Ascending(keys) && (forall q :: q in keys <==> q in Candidates(fromTree, h, lo, hi))
    requires Visible(rows, keys, i, StateAt(log, r)) && |rows| <= limit && (i == |keys| || |rows| == limit)
    requires k in StateAt(log, r) && Seen(k, lo, hi) && !HasPair(rows, k)
    ensures |rows| == limit && Less(rows[limit - 1].key, k)
  {
    hide Faithful, AllOk, StateAt, KeySet, Seen, FirstRows, Candidates;
    if k in keys {
      MissedCandidate(rows, keys, i, StateAt(log, r), k);
    } else {
      CandidatesCover(log, h, covered, r, fromTree, limit + |h|, lo, hi, k);
      EnoughCandidates(log, h, covered, r, fromTree, limit, lo, hi);
      ReadInOrder(fromTree, limit + |h|, StateAt(log, |log|), h, lo, hi);
      BeyondCandidates(rows, keys, i, StateAt(log, r), limit, KeySet(fromTree) - h.Keys, fromTree[limit + |h| - 1].key,
        k);
    }
  }

  lemma ReadInOrder(fromTree: seq<Entry>, asked: nat, view: Store, h: Histories, lo: Option<Key>, hi: Option<Key>)
    requires FirstRows(fromTree, asked, view, lo, hi, Some(INTERNAL_PREFIX)) && |fromTree| == asked > 0
    ensures forall q :: q in KeySet(fromTree) - h.Keys ==>
              q in Candidates(fromTree, h, lo, hi) && AtMost(q, fromTree[asked - 1].key)
  {
    KeyOrder();
  }

  lemma CandidatesSeen(fromTree: seq<Entry>, h: Histories, view: Store, asked: nat, lo: Option<Key>, hi: Option<Key>)
    requires FirstRows(fromTree, asked, view, lo, hi, Some(INTERNAL_PREFIX))
    ensures forall k :: k in Candidates(fromTree, h, lo, hi) ==> Seen(k, lo, hi)
  {
  }

  lemma MissedCandidate(rows: seq<Pair>, keys: seq<Key>, i: nat, m: Store, k: Key)
    requires Ascending(keys) && Visible(rows, keys, i, m) && k in keys && k in m && !HasPair(rows, k)
    ensures i < |keys| && (rows != [] ==> Less(rows[|rows| - 1].key, k))
  {
    var j :| 0 <= j < |keys| && keys[j] == k;
    if rows != [] {
      assert rows[|rows| - 1].key in keys[..i];
      var x :| 0 <= x < i && keys[..i][x] == rows[|rows| - 1].key;
      assert keys[x] == rows[|rows| - 1].key;
    }
  }

  /** A visible key past everything read comes after `limit` visible ones. */
  lemma BeyondCandidates(rows: seq<Pair>, keys: seq<Key>, i: nat, m: Store, limit: nat, visible: set<Key>, last: Key,
                         k: Key)
    requires Ascending(keys) && Visible(rows, keys, i, m) && |rows| <= limit && (i == |keys| || |rows| == limit)
    requires |visible| >= limit > 0 && (forall q :: q in visible ==> q in keys && q in m && AtMost(q, last))
    requires Less(last, k)
    ensures |rows| == limit && Less(rows[limit - 1].key, k)
  {
    var shown := set x | 0 <= x < |rows| :: rows[x].key;
    ShownSize(rows);
    if |rows| < limit || !Less(rows[limit - 1].key, k) {
      var top := if |rows| == limit then rows[limit - 1].key else k;
      forall q | q in visible ensures q in shown && (|rows| == limit ==> q != top) {
        KeyOrder();
        if !HasPair(rows, q) { MissedCandidate(rows, keys, i, m, q); }
      }
      Smaller(visible, if |rows| == limit then shown - {top} else shown);
    }
  }

  lemma {:induction false} ShownSize(rows: seq<Pair>)
    requires Rising(rows)
    ensures |set x | 0 <= x < |rows| :: rows[x].key| == |rows|
    decreases |rows|
  {
    if rows == [] {
    } else {
      var n := |rows| - 1;
      ShownSize(rows[..n]);
      LessIrreflexive(rows[n].key);
      assert (set x | 0 <= x < |rows| :: rows[x].key) == (set x | 0 <= x < n :: rows[..n][x].key) + {rows[n].key};
    }
  }
}
