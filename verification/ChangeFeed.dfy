/** The change feed: what each commit publishes, how a subscriber pages through it, how it is
    trimmed, and why replaying it rebuilds the keyspace. Write-back buffering is off here. */
module ChangeFeed {
  import opened Results
  import opened Keys
  import opened Pages
  import opened Mutations
  import opened Stores
  import opened Windows
  import opened PageTree
  import opened TreeReads
  import opened Replay
  import opened Planning
  import opened ChangeRecords
  import Documents

  /** One change as a subscriber sees it. */
  datatype Change = Change(at: Cursor, key: Key, value: Option<Value>)

  predicate Published(k: Key) {
    !Reserved(k) || DOCUMENT_KEY_PREFIX <= k
  }

  /** Bookkeeping keys are never published. */
  lemma NotPublished(k: Key)
    ensures !Published(TombstoneKey(k))
    ensures CHANGE_LOG_PREFIX <= k ==> !Published(k)
    ensures !Published(CHANGE_LOG_START_KEY) && !(CHANGE_LOG_PREFIX <= CHANGE_LOG_START_KEY)
  {
    var t := TombstoneKey(k);
    TombstoneShape(k);
    assert TOMBSTONE_PREFIX[6] == 116 && CHANGE_LOG_PREFIX[6] == 99 && DOCUMENT_KEY_PREFIX[6] == 100 &&
           CHANGE_LOG_START_KEY[6] == 99;
    assert t[6] == TOMBSTONE_PREFIX[6];
    assert CHANGE_LOG_PREFIX[..6] == INTERNAL_PREFIX && CHANGE_LOG_START_KEY[..6] == INTERNAL_PREFIX;
    if CHANGE_LOG_PREFIX <= k {
      assert k[6] == k[..|CHANGE_LOG_PREFIX|][6] && k[..6] == k[..|CHANGE_LOG_PREFIX|][..6];
    }
    assert CHANGE_LOG_PREFIX[15] == 58 && CHANGE_LOG_START_KEY[15] == 45;
  }

  /** User keys and the documents of every collection are published. */
  lemma PublishedKeys(c: Documents.Collection, k: Key)
    ensures !(INTERNAL_PREFIX <= k) || Documents.IsDocument(c, k) ==> Published(k)
  {
    var p := Documents.CollectionPrefix(c);
    assert p[..|DOCUMENT_KEY_PREFIX|] == DOCUMENT_KEY_PREFIX;
    if Documents.IsDocument(c, k) {
      assert k[..|DOCUMENT_KEY_PREFIX|] == k[..|p|][..|DOCUMENT_KEY_PREFIX|];
    }
  }

  function MutatedBy(op: Operation): seq<Mutated> {
    if Published(op.key) then [Mutated(op.key, if op.Put? then Some(op.value) else None)] else []
  }

  /** The published mutations of a logged commit, in order. */
  function PublishedOf(ops: seq<Operation>): seq<Mutated> {
    if ops == [] then [] else PublishedOf(ops[..|ops| - 1]) + MutatedBy(ops[|ops| - 1])
  }

  /** The changes of commit `s` that lie past `c`. */
  function Due(ms: seq<Mutated>, s: nat, c: Cursor): seq<Change> {
    if s < c.sequence || ms == [] then []
    else DueFrom(ms, s, if s == c.sequence then c.index + 1 else 0)
  }

  function DueFrom(ms: seq<Mutated>, s: nat, from: nat): seq<Change> {
    if from >= |ms| then []
    else
      seq(|ms| - from,
          i requires 0 <= i < |ms| - from => Change(Cursor(s, from + i), ms[from + i].key, ms[from + i].value))
  }

  /** Every change past `c` of the first `s` commits: the published history. */
  function Feed(log: seq<Record>, c: Cursor, s: nat): seq<Change>
    requires s <= |log|
  {
    if s == 0 then [] else Feed(log, c, s - 1) + DueAt(log, s, c)
  }

  function DueAt(log: seq<Record>, s: nat, c: Cursor): seq<Change>
    requires 0 < s <= |log|
  {
    Due(PublishedOf(log[s - 1].ops), s, c)
  }

  // ----- Paging -------------------------------------------------------------

  lemma {:induction false} FeedNone(log: seq<Record>, c: Cursor, s: nat)
    requires s <= |log| && s < c.sequence
    ensures Feed(log, c, s) == []
    decreases s
  {
    if s == 0 {
    } else {
      FeedNone(log, c, s - 1);
    }
  }

  /** `rest` is what remains of `all` past `d`: exactly the first `m` changes lie at or
      before it. */
  ghost predicate Splits(all: seq<Change>, rest: seq<Change>, d: Cursor, m: nat) {
    && m <= |all| && rest == all[m..]
    && (forall i :: 0 <= i < m ==> NotAfter(all[i].at, d))
    && (forall i :: m <= i < |all| ==> Before(d, all[i].at))
  }

  lemma SplitsLeft(a: seq<Change>, b: seq<Change>, rest: seq<Change>, d: Cursor, k: nat)
    requires Splits(a, [], d, |a|) && Splits(b, rest, d, k)
    ensures Splits(a + b, rest, d, |a| + k)
  {
    assert (a + b)[|a| + k..] == b[k..];
  }

  lemma SplitsRight(a: seq<Change>, b: seq<Change>, rest: seq<Change>, d: Cursor, m: nat)
    requires Splits(a, rest, d, m) && Splits(b, b, d, 0)
    ensures Splits(a + b, rest + b, d, m)
  {
    assert (a + b)[m..] == a[m..] + b;
  }

  /** A later position sees a suffix of what an earlier one sees, and the two differ by
      exactly the changes up to it. */
  lemma {:induction false} FeedSplit(log: seq<Record>, c: Cursor, d: Cursor, s: nat) returns (m: nat)
    requires s <= |log| && NotAfter(c, d)
    ensures Splits(Feed(log, c, s), Feed(log, d, s), d, m)
    decreases s
  {
    hide Splits, Due, PublishedOf;
    if s == 0 {
      SplitsNothing(d);
      return 0;
    }
    var ms := PublishedOf(log[s - 1].ops);
    m := FeedSplit(log, c, d, s - 1);
    var k := DueSplit(ms, s, c, d);
    if s <= d.sequence {
      FeedNone(log, d, s - 1);
      SplitsAll(Feed(log, c, s - 1), d, m);
      SplitsLeft(Feed(log, c, s - 1), Due(ms, s, c), Due(ms, s, d), d, k);
      assert [] + Due(ms, s, d) == Due(ms, s, d);
      m := |Feed(log, c, s - 1)| + k;
    } else {
      SplitsRight(Feed(log, c, s - 1), Due(ms, s, c), Feed(log, d, s - 1), d, m);
    }
  }

  lemma SplitsNothing(d: Cursor)
    ensures Splits([], [], d, 0)
  {
  }

  lemma SplitsAll(a: seq<Change>, d: Cursor, m: nat)
    requires Splits(a, [], d, m)
    ensures m == |a|
  {
  }

  lemma DueSplit(ms: seq<Mutated>, s: nat, c: Cursor, d: Cursor) returns (k: nat)
    requires NotAfter(c, d)
    ensures Splits(Due(ms, s, c), Due(ms, s, d), d, k)
    ensures s > d.sequence ==> k == 0 && Due(ms, s, c) == Due(ms, s, d)
  {
    k := |Due(ms, s, c)| - |Due(ms, s, d)|;
  }

  lemma {:induction false} FeedAscends(log: seq<Record>, c: Cursor, s: nat)
    requires s <= |log|
    ensures forall i :: 0 <= i < |Feed(log, c, s)| ==>
              Feed(log, c, s)[i].at.sequence <= s && Before(c, Feed(log, c, s)[i].at)
    ensures forall i, j :: 0 <= i < j < |Feed(log, c, s)| ==> Before(Feed(log, c, s)[i].at, Feed(log, c, s)[j].at)
    decreases s
  {
    if s == 0 {
    } else {
      FeedAscends(log, c, s - 1);
    }
  }

  /** Resuming from the last change of a page continues exactly where it stopped: pages have
      no gap and no repeat. */
  lemma PagesMeet(log: seq<Record>, c: Cursor, limit: nat)
    requires var page := Take(Feed(log, c, |log|), limit); page != []
    ensures var all := Feed(log, c, |log|);
            var page := Take(all, limit);
            Feed(log, page[|page| - 1].at, |log|) == all[|page|..]
  {
    hide Feed;
    var all := Feed(log, c, |log|);
    var page := Take(all, limit);
    var d := all[|page| - 1].at;
    FeedAscends(log, c, |log|);
    assert Before(c, d);
    var m := FeedSplit(log, c, d, |log|);
    assert m >= |page| by { assert !Before(d, d); }
    assert |page| < |all| ==> Before(all[|page| - 1].at, all[|page|].at);
  }

  // ----- Folding the feed ---------------------------------------------------

  type Snapshot = map<Key, Value>

  function Patch(f: Snapshot, key: Key, value: Option<Value>): Snapshot {
    if value.Some? then f[key := value.value] else f - {key}
  }

  function Fold(f: Snapshot, cs: seq<Change>): Snapshot {
    if cs == [] then f else Patch(Fold(f, cs[..|cs| - 1]), cs[|cs| - 1].key, cs[|cs| - 1].value)
  }

  function FoldMutated(f: Snapshot, ms: seq<Mutated>): Snapshot {
    if ms == [] then f else Patch(FoldMutated(f, ms[..|ms| - 1]), ms[|ms| - 1].key, ms[|ms| - 1].value)
  }

  /** The published part of a store, values only. */
  ghost predicate Mirrors(f: Snapshot, m: Store) {
    && (forall k :: k in f ==> Published(k))
    && (forall k :: Published(k) ==> (k in f <==> k in m) && (k in f ==> f[k] == m[k].value))
  }

  lemma {:induction false} MirrorsOps(f: Snapshot, m: Store, ops: seq<Operation>, lsn: nat)
    requires Mirrors(f, m)
    ensures Mirrors(FoldMutated(f, PublishedOf(ops)), RedoAll(m, ops, lsn))
    decreases |ops|
  {
    if ops == [] {
    } else {
      var n := |ops| - 1;
      MirrorsOps(f, m, ops[..n], lsn);
      MirrorsOp(FoldMutated(f, PublishedOf(ops[..n])), RedoAll(m, ops[..n], lsn), ops[n], lsn);
      var head := PublishedOf(ops[..n]);
      if Published(ops[n].key) {
        assert (head + MutatedBy(ops[n]))[..|head|] == head;
      } else {
        assert head + [] == head;
      }
    }
  }

  lemma MirrorsOp(f: Snapshot, m: Store, op: Operation, lsn: nat)
    requires Mirrors(f, m)
    ensures Mirrors(if Published(op.key) then Patch(f, op.key, if op.Put? then Some(op.value) else None)
            else f, Redo(m, op, lsn))
  {
    NotPublished(op.key);
  }

  lemma {:induction false} FoldDue(f: Snapshot, ms: seq<Mutated>, s: nat, c: Cursor)
    requires s > c.sequence
    ensures Fold(f, Due(ms, s, c)) == FoldMutated(f, ms)
    decreases |ms|
  {
    if ms == [] {
    } else {
      var n := |ms| - 1;
      var due := Due(ms, s, c);
      assert due[..n] == Due(ms[..n], s, c);
      FoldDue(f, ms[..n], s, c);
    }
  }

  lemma {:induction false} FoldConcat(f: Snapshot, a: seq<Change>, b: seq<Change>)
    ensures Fold(f, a + b) == Fold(Fold(f, a), b)
    decreases |b|
  {
    if b == [] {
      assert a + b == a;
    } else {
      assert (a + b)[..|a + b| - 1] == a + b[..|b| - 1];
      FoldConcat(f, a, b[..|b| - 1]);
    }
  }

  lemma MirrorsNothing(log: seq<Record>)
    ensures Mirrors(map[], StateAt(log, 0))
  {
  }

  /** A copy that mirrors a state holds its user keys and its documents, and nothing else. */
  lemma MirrorsKeyspace(f: Snapshot, m: Store)
    requires Mirrors(f, m)
    ensures forall k :: !(INTERNAL_PREFIX <= k) ==> (k in f <==> k in m) && (k in f ==> f[k] == m[k].value)
    ensures forall c, k :: Documents.IsDocument(c, k) ==> (k in f <==> k in m) && (k in f ==> f[k] == m[k].value)
    ensures forall k :: k in f ==> !(INTERNAL_PREFIX <= k) || DOCUMENT_KEY_PREFIX <= k
  {
    forall c, k | Documents.IsDocument(c, k) ensures Published(k) { PublishedKeys(c, k); }
  }

  /** Folding the whole history rebuilds the user and document keyspace. */
  lemma FoldRebuilds(log: seq<Record>, s: nat)
    requires s <= |log|
    ensures var copy, m := Fold(map[], Feed(log, START, s)), StateAt(log, s);
            && Mirrors(copy, m)
            && (forall k :: !(INTERNAL_PREFIX <= k) ==>
                  (k in copy <==> k in m) && (k in copy ==> copy[k] == m[k].value))
            && (forall c, k :: Documents.IsDocument(c, k) ==>
                  (k in copy <==> k in m) && (k in copy ==> copy[k] == m[k].value))
            && forall k :: k in copy ==> !(INTERNAL_PREFIX <= k) || DOCUMENT_KEY_PREFIX <= k
  {
    hide Mirrors, Feed, Fold, StateAt;
    FoldMirrors(log, s);
    MirrorsKeyspace(Fold(map[], Feed(log, START, s)), StateAt(log, s));
  }

  lemma {:induction false} FoldMirrors(log: seq<Record>, s: nat)
    requires s <= |log|
    ensures Mirrors(Fold(map[], Feed(log, START, s)), StateAt(log, s))
    decreases s
  {
    hide Mirrors, Due, PublishedOf, StateAt, RedoAll, FoldMutated;
    if s == 0 {
      MirrorsNothing(log);
    } else {
      var before := Fold(map[], Feed(log, START, s - 1));
      var ms := PublishedOf(log[s - 1].ops);
      FoldMirrors(log, s - 1);
      StateAtNext(log, s - 1);
      MirrorsOps(before, StateAt(log, s - 1), log[s - 1].ops, log[s - 1].lsn);
      FoldConcat(map[], Feed(log, START, s - 1), Due(ms, s, START));
      FoldDue(before, ms, s, START);
    }
  }

  /** Published operations keep their place. */
  lemma {:induction false} PublishedHas(ops: seq<Operation>, i: nat)
    requires i < |ops| && Published(ops[i].key)
    ensures Mutated(ops[i].key, if ops[i].Put? then Some(ops[i].value) else None) in PublishedOf(ops)
    decreases |ops|
  {
    var n := |ops| - 1;
    if i < n {
      PublishedHas(ops[..n], i);
    }
  }

  lemma {:induction false} PublishedFrom(ops: seq<Operation>, e: Mutated)
    requires e in PublishedOf(ops)
    ensures exists i :: 0 <= i < |ops| && Published(ops[i].key) &&
                        e == Mutated(ops[i].key, if ops[i].Put? then Some(ops[i].value) else None)
    decreases |ops|
  {
    var n := |ops| - 1;
    if e in PublishedOf(ops[..n]) {
      PublishedFrom(ops[..n], e);
      var i :| 0 <= i < n && Published(ops[..n][i].key) &&
               e == Mutated(ops[..n][i].key, if ops[..n][i].Put? then Some(ops[..n][i].value) else None);
      assert ops[i] == ops[..n][i];
    } else {
      assert e == Mutated(ops[n].key, if ops[n].Put? then Some(ops[n].value) else None);
    }
  }

  /** A logged write of a user key or of a document is in the feed, under the LSN of its record. */
  lemma WriteAppears(log: seq<Record>, s: nat, i: nat, c: Documents.Collection)
    requires 0 < s <= |log| && i < |log[s - 1].ops|
    requires var k := log[s - 1].ops[i].key; !(INTERNAL_PREFIX <= k) || Documents.IsDocument(c, k)
    ensures var op := log[s - 1].ops[i];
            exists x :: x in Feed(log, START, |log|) && x.at.sequence == s && x.key == op.key &&
                        x.value == if op.Put? then Some(op.value) else None
  {
    hide PublishedOf, Feed, Documents.IsDocument;
    var op, ms := log[s - 1].ops[i], PublishedOf(log[s - 1].ops);
    PublishedKeys(c, op.key);
    PublishedHas(log[s - 1].ops, i);
    var j :| 0 <= j < |ms| && ms[j] == Mutated(op.key, if op.Put? then Some(op.value) else None);
    var x := Change(Cursor(s, j), op.key, ms[j].value);
    assert DueAt(log, s, START)[j] == x;
    FeedHas(log, s, |log|, x);
  }

  lemma {:induction false} FeedHas(log: seq<Record>, s: nat, n: nat, x: Change)
    requires 0 < s <= n <= |log| && x in DueAt(log, s, START)
    ensures x in Feed(log, START, n)
    decreases n
  {
    hide DueAt;
    if n > s {
      FeedHas(log, s, n - 1, x);
    }
  }

  /** Every change of the feed is a logged write of a user key or of a document key. */
  lemma {:induction false} ChangesAreWrites(log: seq<Record>, n: nat, x: Change)
    requires n <= |log| && x in Feed(log, START, n)
    ensures var s := x.at.sequence;
            0 < s <= n && exists op :: op in log[s - 1].ops && op.key == x.key &&
                                       x.value == (if op.Put? then Some(op.value) else None)
    ensures !(INTERNAL_PREFIX <= x.key) || DOCUMENT_KEY_PREFIX <= x.key
    decreases n
  {
    hide PublishedOf;
    if x in Feed(log, START, n - 1) {
      ChangesAreWrites(log, n - 1, x);
    } else {
      var ms := PublishedOf(log[n - 1].ops);
      assert x in DueAt(log, n, START);
      assert Mutated(x.key, x.value) in ms;
      PublishedFrom(log[n - 1].ops, Mutated(x.key, x.value));
    }
  }

  // ----- The feed in the keyspace -------------------------------------------

  const MAX_SEQUENCE := 0x1_0000_0000_0000_0000

  /** A commit number in 64 bits and an index in 32. */
  predicate InRange(c: Cursor) {
    c.sequence < MAX_SEQUENCE && c.index < 0x1_0000_0000
  }

  /** The record of commit `s`, as the change log stores it. */
  ghost predicate RecordedAt(log: seq<Record>, m: Store, s: nat)
    requires 0 < s <= |log|
  {
    var ms := PublishedOf(log[s - 1].ops);
    ms != [] ==> ChangeKey(s) in m && m[ChangeKey(s)].value == EncodeBatch(ms)
  }

  ghost predicate Encodable(log: seq<Record>, s: nat)
    requires 0 < s <= |log|
  {
    var ms := PublishedOf(log[s - 1].ops);
    |ms| < 0x1_0000_0000 && forall i :: 0 <= i < |ms| ==> ValidMutated(ms[i])
  }

  /** A change key in the store is the record of a publishing commit past `trimmed`. */
  ghost predicate IsRecord(log: seq<Record>, trimmed: nat, x: Key) {
    exists s: nat :: RecordKey(log, trimmed, x, s)
  }

  ghost predicate RecordKey(log: seq<Record>, trimmed: nat, x: Key, s: nat) {
    trimmed < s <= |log| && x == ChangeKey(s) && PublishedOf(log[s - 1].ops) != []
  }

  /** Everything commit `s` published lies at or before `c`. */
  ghost predicate Consumed(log: seq<Record>, s: nat, c: Cursor)
    requires 0 < s <= |log|
  {
    var ms := PublishedOf(log[s - 1].ops);
    ms != [] ==> NotAfter(Cursor(s, |ms| - 1), c)
  }

  /** A cursor has consumed a commit exactly when nothing the commit published is left to read. */
  lemma ConsumedExactly(log: seq<Record>, s: nat, c: Cursor)
    requires 0 < s <= |log|
    ensures Consumed(log, s, c) <==> DueAt(log, s, c) == []
  {
    hide PublishedOf;
  }

  function FloorOf(m: Store): Option<Cursor> {
    if CHANGE_LOG_START_KEY in m then FromSuffix(m[CHANGE_LOG_START_KEY].value) else Some(START)
  }

  /** The store retains exactly the commits past `trimmed`, and nothing trimmed lies past
      the floor. */
  ghost predicate Fed(log: seq<Record>, m: Store, trimmed: nat, floor: Cursor) {
    && trimmed <= |log| < MAX_SEQUENCE && FloorOf(m) == Some(floor)
    && (forall s :: 0 < s <= |log| ==> Encodable(log, s))
    && (forall s :: trimmed < s <= |log| ==> RecordedAt(log, m, s))
    && (forall x :: x in m && CHANGE_LOG_PREFIX <= x ==> IsRecord(log, trimmed, x))
    && (forall s :: 0 < s <= trimmed ==> Consumed(log, s, floor))
  }

  lemma ConsumedNothingDue(log: seq<Record>, s: nat, floor: Cursor, c: Cursor)
    requires 0 < s <= |log| && Consumed(log, s, floor) && NotAfter(floor, c)
    ensures DueAt(log, s, c) == []
  {
  }

  lemma {:induction false} FeedSkips(log: seq<Record>, c: Cursor, a: nat, b: nat)
    requires a <= b <= |log| && forall s :: a < s <= b ==> DueAt(log, s, c) == []
    ensures Feed(log, c, b) == Feed(log, c, a)
    decreases b
  {
    if a < b { FeedSkips(log, c, a, b - 1); }
  }

  // ----- Reading ------------------------------------------------------------

  /** The rows of a scan from `c`'s commit on: consecutive retained commits. */
  ghost predicate Rows(rows: seq<Entry>, limit: nat, log: seq<Record>, m: Store, trimmed: nat, c: Cursor) {
    FirstRows(rows, limit, m, Some(ChangeKey(c.sequence)), PrefixSuccessor(CHANGE_LOG_PREFIX), None)
  }

  ghost predicate RowAt(log: seq<Record>, trimmed: nat, c: Cursor, row: Entry, s: nat) {
    && trimmed < s <= |log| && c.sequence <= s && row.key == ChangeKey(s)
    && PublishedOf(log[s - 1].ops) != [] && row.value == EncodeBatch(PublishedOf(log[s - 1].ops))
  }

  lemma RowIsCommit(rows: seq<Entry>, limit: nat, log: seq<Record>, m: Store, trimmed: nat, floor: Cursor, c: Cursor,
                    i: nat) returns (s: nat)
    requires Fed(log, m, trimmed, floor) && Rows(rows, limit, log, m, trimmed, c) && i < |rows|
    requires c.sequence < MAX_SEQUENCE
    ensures RowAt(log, trimmed, c, rows[i], s)
  {
    var x := rows[i].key;
    assert rows[i] in rows;
    PrefixIsInterval(CHANGE_LOG_PREFIX, x);
    PrefixIsInterval(CHANGE_LOG_PREFIX, ChangeKey(c.sequence));
    ChangeKeys(c.sequence, c.sequence);
    PrefixBetween(x, c.sequence);
    assert IsRecord(log, trimmed, x);
    s :| RecordKey(log, trimmed, x, s);
    ChangeKeys(s, c.sequence);
    assert RecordedAt(log, m, s);
  }

  /** Keys between a change key and the end of the prefix carry the prefix. */
  lemma PrefixBetween(x: Key, s: nat)
    requires AtMost(ChangeKey(s), x) && Below(x, PrefixSuccessor(CHANGE_LOG_PREFIX))
    ensures CHANGE_LOG_PREFIX <= x
  {
    PrefixIsInterval(CHANGE_LOG_PREFIX, x);
    PrefixIsInterval(CHANGE_LOG_PREFIX, ChangeKey(s));
    LessTotal(CHANGE_LOG_PREFIX, ChangeKey(s));
    if Less(x, CHANGE_LOG_PREFIX) {
      LessTotal(x, ChangeKey(s));
      KeyOrder();
    }
  }

  /** A retained commit from `c`'s on has its row, or the scan was cut before it. */
  lemma CommitHasRow(rows: seq<Entry>, limit: nat, log: seq<Record>, m: Store, trimmed: nat, floor: Cursor, c: Cursor,
                     s: nat)
    requires Fed(log, m, trimmed, floor) && Rows(rows, limit, log, m, trimmed, c)
    requires trimmed < s <= |log| && c.sequence <= s && PublishedOf(log[s - 1].ops) != []
    ensures HasKey(rows, ChangeKey(s)) || PastEnd(rows, limit, ChangeKey(s))
  {
    assert RecordedAt(log, m, s);
    ChangeKeys(s, c.sequence);
    ChangeKeys(c.sequence, s);
    PrefixIsInterval(CHANGE_LOG_PREFIX, ChangeKey(s));
  }

  /** What has been read once the rows before `i` are behind: the feed through the last of
      them, with at least one change per row but the cursor's own. */
  ghost predicate ReadTo(log: seq<Record>, c: Cursor, rows: seq<Entry>, i: nat, records: seq<Change>, through: nat) {
    && through <= |log| && i <= |rows| && records == Feed(log, c, through) && i <= |records| + 1
    && (i > 0 ==> rows[i - 1].key == ChangeKey(through) && c.sequence <= through && (through > c.sequence || i == 1))
    && (i == 0 ==> through < c.sequence || through == 0)
  }

  /** Commits between two neighbouring rows published nothing that is still due. */
  lemma NothingBetween(rows: seq<Entry>, limit: nat, log: seq<Record>, m: Store, trimmed: nat, floor: Cursor, c: Cursor,
                       i: nat, from: nat, next: nat)
    requires Fed(log, m, trimmed, floor) && Rows(rows, limit, log, m, trimmed, c) && NotAfter(floor, c)
    requires c.sequence < MAX_SEQUENCE
    requires i <= |rows| && from <= |log| && (i > 0 ==> rows[i - 1].key == ChangeKey(from))
    requires (i == 0 ==> from < c.sequence || from == 0)
    requires if i < |rows| then next <= |log| && rows[i].key == ChangeKey(next) && from < next
             else next == |log| + 1 && |rows| < limit
    ensures Feed(log, c, next - 1) == Feed(log, c, from)
  {
    forall s | from < s <= next - 1 ensures DueAt(log, s, c) == [] {
      if s <= trimmed {
        assert Consumed(log, s, floor);
        ConsumedNothingDue(log, s, floor, c);
      } else if s >= c.sequence && PublishedOf(log[s - 1].ops) != [] {
        CommitHasRow(rows, limit, log, m, trimmed, floor, c, s);
        RowOutside(rows, i, from, s, next, limit);
      }
    }
    FeedSkips(log, c, from, next - 1);
  }

  lemma RowOutside(rows: seq<Entry>, i: nat, from: nat, s: nat, next: nat, limit: nat)
    requires Sorted(rows) && i <= |rows| && from < s < next <= MAX_SEQUENCE
    requires i > 0 ==> rows[i - 1].key == ChangeKey(from)
    requires if i < |rows| then rows[i].key == ChangeKey(next) && next < MAX_SEQUENCE else |rows| < limit
    requires |rows| <= limit
    ensures !HasKey(rows, ChangeKey(s)) && !PastEnd(rows, limit, ChangeKey(s))
  {
    hide ChangeKey;
    ChangeKeys(from, s);
    ChangeKeys(s, from);
    if i < |rows| { ChangeKeys(s, next); ChangeKeys(next, s); }
    forall j | 0 <= j < |rows| ensures rows[j].key != ChangeKey(s) {
      assert j < i - 1 ==> Less(rows[j].key, rows[i - 1].key);
      assert i < j ==> Less(rows[i].key, rows[j].key);
    }
    if i < |rows| - 1 && Less(rows[|rows| - 1].key, ChangeKey(s)) {
      LessTransitive(rows[i].key, rows[|rows| - 1].key, ChangeKey(s));
    }
  }

  datatype FeedError = CursorTooOld(requested: Cursor, oldest: Cursor) | CorruptFeed | FeedUnreadable(cause: TreeError)

  /** Up to `limit` changes strictly after `c`: refused when `c` lies below the floor, and
      otherwise exactly the first changes of the published history past it. */
  method ReadChanges(t: PageTree, c: Cursor, limit: nat, ghost log: seq<Record>, ghost trimmed: nat,
                     ghost floor: Cursor)
    returns (r: Result<seq<Change>, FeedError>)
    requires t.Valid() && Fed(log, t.Contents(), trimmed, floor) && c.sequence < MAX_SEQUENCE
    ensures Before(c, floor) && (t.root == 0 || t.height < MAX_TREE_DEPTH) ==> r == Err(CursorTooOld(c, floor))
    ensures NotAfter(floor, c) && (t.root == 0 || t.height < MAX_TREE_DEPTH) ==> r.Ok?
    ensures r.Ok? ==> NotAfter(floor, c) && r.value == Take(Feed(log, c, |log|), limit)
  {
    hide Fed, Feed;
    var retained :- ReadFloor(t, log, trimmed, floor);
    if Before(c, retained) {
      return Err(CursorTooOld(c, retained));
    }
    if limit == 0 {
      return Ok([]);
    }
    var end := PrefixEnd(CHANGE_LOG_PREFIX);
    var scanned := Scan(t, Some(ChangeKey(c.sequence)), end, limit + 1, None);
    if scanned.Err? {
      return Err(FeedUnreadable(scanned.error));
    }
    r := ReadRows(scanned.value, c, limit, log, t.Contents(), trimmed, floor);
  }

  method ReadFloor(t: PageTree, ghost log: seq<Record>, ghost trimmed: nat, ghost floor: Cursor)
      returns (r: Result<Cursor, FeedError>)
    requires t.Valid() && Fed(log, t.Contents(), trimmed, floor)
    ensures t.root == 0 || t.height < MAX_TREE_DEPTH ==> r.Ok?
    ensures r.Ok? ==> r.value == floor
  {
    var entry := Get(t, CHANGE_LOG_START_KEY);
    if entry.Err? {
      return Err(FeedUnreadable(entry.error));
    }
    if entry.value.None? {
      return Ok(START);
    }
    var cursor := FromSuffix(entry.value.value.value);
    return Ok(cursor.value);
  }

  /** Decodes commit after commit until the limit is met; one row past the limit is enough,
      because only the cursor's own commit can contribute nothing. */
  method ReadRows(rows: seq<Entry>, c: Cursor, limit: nat, ghost log: seq<Record>, ghost m: Store, ghost trimmed: nat,
                  ghost floor: Cursor)
    returns (r: Result<seq<Change>, FeedError>)
    requires Fed(log, m, trimmed, floor) && Rows(rows, limit + 1, log, m, trimmed, c) && NotAfter(floor, c)
    requires c.sequence < MAX_SEQUENCE && limit > 0
    ensures r == Ok(Take(Feed(log, c, |log|), limit))
  {
    hide Fed, Rows, ReadTo, RowAt, Feed, Due, ChangeKey;
    var records: seq<Change> := [];
    ghost var through := FeedStart(log, c, rows);
    for i := 0 to |rows|
      invariant |records| < limit && ReadTo(log, c, rows, i, records, through)
    {
      ghost var s := RowIsCommit(rows, limit + 1, log, m, trimmed, floor, c, i);
      RowDecodes(log, m, trimmed, floor, c, rows[i], s);
      var sequence := SequenceOf(rows[i].key);
      var batch := DecodeBatch(rows[i].value);
      var due := Due(batch.value, sequence.value, c);
      ReadNext(rows, limit + 1, log, m, trimmed, floor, c, i, records, through, s);
      records := Push(records, due, limit);
      if |records| == limit {
        FeedPrefix(log, c, s);
        TakePrefix(Feed(log, c, s), Feed(log, c, |log|), limit);
        return Ok(records);
      }
      through := s;
    }
    ReadAll(rows, limit, log, m, trimmed, floor, c, records, through);
    return Ok(records);
  }

  /** Appends changes one by one and stops at the limit. */
  method Push(records: seq<Change>, due: seq<Change>, limit: nat) returns (more: seq<Change>)
    requires |records| < limit
    ensures more == Take(records + due, limit)
  {
    more := records;
    for i := 0 to |due|
      invariant more == records + due[..i] && |more| < limit
    {
      more := more + [due[i]];
      assert due[..i + 1] == due[..i] + [due[i]];
      if |more| == limit {
        assert (records + due)[..limit] == more;
        return;
      }
    }
    assert due[..|due|] == due;
  }

  lemma FeedStart(log: seq<Record>, c: Cursor, rows: seq<Entry>) returns (through: nat)
    ensures ReadTo(log, c, rows, 0, [], through)
  {
    through := if c.sequence == 0 then 0 else if c.sequence - 1 <= |log| then c.sequence - 1 else |log|;
    if through > 0 { FeedNone(log, c, through); }
  }

  lemma RowDecodes(log: seq<Record>, m: Store, trimmed: nat, floor: Cursor, c: Cursor, row: Entry, s: nat)
    requires Fed(log, m, trimmed, floor) && RowAt(log, trimmed, c, row, s)
    ensures SequenceOf(row.key) == Some(s) && DecodeBatch(row.value) == Some(PublishedOf(log[s - 1].ops))
  {
    hide PublishedOf;
    assert Encodable(log, s);
    ChangeKeys(s, s);
    BatchRoundTrip(PublishedOf(log[s - 1].ops));
  }

  /** The next row extends what was read by its commit's due changes. */
  lemma ReadNext(rows: seq<Entry>, limit: nat, log: seq<Record>, m: Store, trimmed: nat, floor: Cursor, c: Cursor,
                 i: nat,
                 records: seq<Change>, through: nat, s: nat)
    requires Fed(log, m, trimmed, floor) && Rows(rows, limit, log, m, trimmed, c) && NotAfter(floor, c)
    requires c.sequence < MAX_SEQUENCE
    requires i < |rows| && RowAt(log, trimmed, c, rows[i], s) && ReadTo(log, c, rows, i, records, through)
    ensures ReadTo(log, c, rows, i + 1, records + DueAt(log, s, c), s) && Feed(log, c, s) == records + DueAt(log, s, c)
  {
    hide PublishedOf, ChangeKey, Fed, Rows, Feed, Due;
    RowsAscend(rows, limit, log, m, trimmed, c, i);
    FedSize(log, m, trimmed, floor);
    ChangeKeys(through, s);
    NothingBetween(rows, limit, log, m, trimmed, floor, c, i, through, s);
    FeedNext(log, c, s);
  }

  lemma FeedNext(log: seq<Record>, c: Cursor, s: nat)
    requires 0 < s <= |log|
    ensures Feed(log, c, s) == Feed(log, c, s - 1) + DueAt(log, s, c)
    ensures s > c.sequence && PublishedOf(log[s - 1].ops) != [] ==> |DueAt(log, s, c)| >= 1
  {
  }

  lemma RowsAscend(rows: seq<Entry>, limit: nat, log: seq<Record>, m: Store, trimmed: nat, c: Cursor, i: nat)
    requires Rows(rows, limit, log, m, trimmed, c) && i < |rows|
    ensures i > 0 ==> Less(rows[i - 1].key, rows[i].key)
  {
  }

  lemma FedSize(log: seq<Record>, m: Store, trimmed: nat, floor: Cursor)
    requires Fed(log, m, trimmed, floor)
    ensures |log| < MAX_SEQUENCE
  {
  }

  lemma TakePrefix<X>(a: seq<X>, b: seq<X>, limit: nat)
    requires a <= b && limit <= |a|
    ensures Take(a, limit) == Take(b, limit)
  {
  }

  /** What was read is a prefix of the whole feed. */
  lemma {:induction false} FeedPrefix(log: seq<Record>, c: Cursor, s: nat)
    requires s <= |log|
    ensures Feed(log, c, s) <= Feed(log, c, |log|)
    decreases |log| - s
  {
    if s < |log| { FeedPrefix(log, c, s + 1); }
  }

  lemma ReadAll(rows: seq<Entry>, limit: nat, log: seq<Record>, m: Store, trimmed: nat, floor: Cursor, c: Cursor,
                records: seq<Change>, through: nat)
    requires Fed(log, m, trimmed, floor) && Rows(rows, limit + 1, log, m, trimmed, c) && NotAfter(floor, c)
    requires c.sequence < MAX_SEQUENCE
    requires ReadTo(log, c, rows, |rows|, records, through) && |records| < limit
    ensures records == Feed(log, c, |log|)
  {
    hide PublishedOf, ChangeKey, Fed, Rows, Feed, Due;
    NothingBetween(rows, limit + 1, log, m, trimmed, floor, c, |rows|, through, |log| + 1);
  }

  // ----- Publishing ---------------------------------------------------------

  /** Whether a key other than a tombstone is present moves only with its own operations. */
  lemma Presence(m: Store, op: Operation, lsn: nat, k: Key)
    requires !IsTombstone(k)
    ensures k in Redo(m, op, lsn) <==> if op.key == k then op.Put? else k in m
    ensures op.key != k ==> Lookup(Redo(m, op, lsn), k) == Lookup(m, k)
  {
    TombstoneShape(op.key);
  }

  ghost predicate LiveMap(live: map<Key, bool>, view: Store, now: Store) {
    forall k :: !IsTombstone(k) ==> (k in now <==> if k in live then live[k] else k in view)
  }

  /** Adds the commit's own change record to its operations: one put, after the caller's,
      holding exactly the mutations the commit will log for published keys. */
  method WithChangeLog(view: Store, ops: seq<Operation>, lsn: nat)
      returns (combined: seq<Operation>, entries: seq<Mutated>)
    requires Addressable(ops)
    ensures entries == PublishedOf(Effective(view, ops, lsn))
    ensures forall op :: op in Effective(view, ops, lsn) && !(INTERNAL_PREFIX <= op.key) ==>
              Mutated(op.key, if op.Put? then Some(op.value) else None) in entries
    ensures forall c, op :: op in Effective(view, ops, lsn) && Documents.IsDocument(c, op.key) ==>
              Mutated(op.key, if op.Put? then Some(op.value) else None) in entries
    ensures combined == if entries == [] then ops else ops + [Operation.Put(ChangeKey(lsn), EncodeBatch(entries))]
  {
    hide PublishedOf, Effective, Redo, EncodeBatch, LiveMap;
    var live: map<Key, bool> := map[];
    entries := [];
    WithNothing(view, lsn);
    for i := 0 to |ops|
      invariant entries == PublishedOf(Effective(view, ops[..i], lsn))
      invariant LiveMap(live, view, RedoAll(view, ops[..i], lsn))
    {
      assert ops[..i + 1][..i] == ops[..i];
      var op := ops[i];
      var present := if op.key in live then live[op.key] else op.key in view;
      LiveStep(live, view, RedoAll(view, ops[..i], lsn), op, lsn);
      PublishOne(view, ops, i, lsn, entries);
      if op.Put? || present {
        entries := entries + MutatedBy(op);
      } else {
        assert entries + [] == entries;
      }
      live := live[op.key := op.Put?];
    }
    assert ops[..|ops|] == ops;
    combined := if entries == [] then ops else ops + [Operation.Put(ChangeKey(lsn), EncodeBatch(entries))];
    ghost var logged := Effective(view, ops, lsn);
    forall c, k | Documents.IsDocument(c, k) ensures Published(k) { PublishedKeys(c, k); }
    forall op | op in logged && Published(op.key)
      ensures Mutated(op.key, if op.Put? then Some(op.value) else None) in entries
    {
      var i :| 0 <= i < |logged| && logged[i] == op;
      PublishedHas(logged, i);
    }
  }

  lemma WithNothing(view: Store, lsn: nat)
    ensures PublishedOf(Effective(view, [], lsn)) == [] && LiveMap(map[], view, RedoAll(view, [], lsn))
  {
  }

  lemma LiveStep(live: map<Key, bool>, view: Store, now: Store, op: Operation, lsn: nat)
    requires LiveMap(live, view, now) && !IsTombstone(op.key)
    ensures op.key in now <==> if op.key in live then live[op.key] else op.key in view
    ensures LiveMap(live[op.key := op.Put?], view, Redo(now, op, lsn))
  {
    forall k | !IsTombstone(k) ensures k in Redo(now, op, lsn) <==> if op.key == k then op.Put? else k in now {
      Presence(now, op, lsn, k);
    }
  }

  lemma PublishOne(view: Store, ops: seq<Operation>, i: nat, lsn: nat, entries: seq<Mutated>)
    requires i < |ops| && entries == PublishedOf(Effective(view, ops[..i], lsn))
    ensures PublishedOf(Effective(view, ops[..i + 1], lsn)) ==
            entries + if ops[i].Put? || ops[i].key in RedoAll(view, ops[..i], lsn) then MutatedBy(ops[i]) else []
  {
    assert ops[..i + 1][..i] == ops[..i];
    var head := Effective(view, ops[..i], lsn);
    assert head + [] == head && entries + [] == entries;
    assert (head + [ops[i]])[..|head|] == head;
  }

  /** What is logged for the combined batch publishes the same mutations. */
  lemma CombinedPublishes(view: Store, ops: seq<Operation>, lsn: nat, entries: seq<Mutated>)
    requires entries == PublishedOf(Effective(view, ops, lsn)) && entries != []
    ensures var put := Operation.Put(ChangeKey(lsn), EncodeBatch(entries));
            && Effective(view, ops + [put], lsn) == Effective(view, ops, lsn) + [put]
            && PublishedOf(Effective(view, ops + [put], lsn)) == entries
  {
    hide EncodeBatch;
    var put, head := Operation.Put(ChangeKey(lsn), EncodeBatch(entries)), Effective(view, ops, lsn);
    assert (ops + [put])[..|ops|] == ops && (head + [put])[..|head|] == head;
    assert CHANGE_LOG_PREFIX <= ChangeKey(lsn);
    NotPublished(ChangeKey(lsn));
  }

  // ----- Commits and trims keep the feed ------------------------------------

  predicate FeedKey(k: Key) {
    CHANGE_LOG_PREFIX <= k || k == CHANGE_LOG_START_KEY
  }

  predicate AvoidsFeed(ops: seq<Operation>) {
    forall i :: 0 <= i < |ops| ==> !FeedKey(ops[i].key)
  }

  lemma FeedKeysPlain(k: Key)
    requires FeedKey(k)
    ensures !IsTombstone(k) && Reserved(k)
  {
    assert TOMBSTONE_PREFIX[6] == 116 && CHANGE_LOG_PREFIX[6] == 99 && CHANGE_LOG_START_KEY[6] == 99;
    assert CHANGE_LOG_PREFIX[..6] == INTERNAL_PREFIX && CHANGE_LOG_START_KEY[..6] == INTERNAL_PREFIX;
    if CHANGE_LOG_PREFIX <= k { assert k[..16][..6] == k[..6] && k[..16][6] == k[6]; }
  }

  lemma {:induction false} FeedUntouched(m: Store, ops: seq<Operation>, lsn: nat, k: Key)
    requires FeedKey(k) && AvoidsFeed(ops)
    ensures Lookup(RedoAll(m, ops, lsn), k) == Lookup(m, k)
    decreases |ops|
  {
    if ops == [] {
    } else {
      FeedUntouched(m, ops[..|ops| - 1], lsn, k);
      FeedKeysPlain(k);
      Presence(RedoAll(m, ops[..|ops| - 1], lsn), ops[|ops| - 1], lsn, k);
    }
  }

  /** A commit as the engine logs it: the caller's operations keep off the feed's keys, and
      one put publishes what they changed. */
  ghost predicate Publishes(rec: Record) {
    var ms := PublishedOf(rec.ops);
    && |ms| < 0x1_0000_0000 && (forall i :: 0 <= i < |ms| ==> ValidMutated(ms[i]))
    && (ms == [] ==> AvoidsFeed(rec.ops))
    && (ms != [] ==> rec.ops != [] && AvoidsFeed(rec.ops[..|rec.ops| - 1]) &&
                     rec.ops[|rec.ops| - 1] == Operation.Put(ChangeKey(rec.lsn), EncodeBatch(ms)))
  }

  /** A commit's effect on the feed's keys is its own record and nothing else. */
  lemma PublishLookup(m: Store, rec: Record, k: Key)
    requires Publishes(rec) && FeedKey(k)
    ensures Lookup(RedoAll(m, rec.ops, rec.lsn), k) ==
            if PublishedOf(rec.ops) != [] &&
                k == ChangeKey(rec.lsn) then Some(Stamped(EncodeBatch(PublishedOf(rec.ops)), rec.lsn)) else Lookup(m, k)
  {
    hide PublishedOf, EncodeBatch;
    FeedKeysPlain(k);
    if PublishedOf(rec.ops) == [] {
      FeedUntouched(m, rec.ops, rec.lsn, k);
    } else {
      var n := |rec.ops| - 1;
      FeedUntouched(m, rec.ops[..n], rec.lsn, k);
      Presence(RedoAll(m, rec.ops[..n], rec.lsn), rec.ops[n], rec.lsn, k);
    }
  }

  lemma CommitFeeds(log: seq<Record>, m: Store, trimmed: nat, floor: Cursor, rec: Record)
    requires Fed(log, m, trimmed, floor) && rec.lsn == |log| + 1 < MAX_SEQUENCE && Publishes(rec)
    ensures Fed(log + [rec], RedoAll(m, rec.ops, rec.lsn), trimmed, floor)
  {
    hide PublishedOf, EncodeBatch, RedoAll, ChangeKey;
    var longer, m' := log + [rec], RedoAll(m, rec.ops, rec.lsn);
    PublishLookup(m, rec, CHANGE_LOG_START_KEY);
    NotPublished([]);
    ChangeKeys(rec.lsn, rec.lsn);
    forall s | trimmed < s <= |longer| ensures RecordedAt(longer, m', s) {
      ChangeKeys(s, rec.lsn);
      PublishLookup(m, rec, ChangeKey(s));
      if s <= |log| { assert RecordedAt(log, m, s); }
    }
    forall s | 0 < s <= |longer| ensures Encodable(longer, s) {
      if s <= |log| { assert Encodable(log, s); }
    }
    forall s | 0 < s <= trimmed ensures Consumed(longer, s, floor) {
      assert Consumed(log, s, floor);
    }
    forall x | x in m' && CHANGE_LOG_PREFIX <= x ensures IsRecord(longer, trimmed, x) {
      PublishLookup(m, rec, x);
      if x in m {
        assert IsRecord(log, trimmed, x);
        var s: nat :| RecordKey(log, trimmed, x, s);
        assert RecordKey(longer, trimmed, x, s);
      } else {
        assert RecordKey(longer, trimmed, x, rec.lsn);
      }
    }
  }

  // ----- Trimming -----------------------------------------------------------

  /** The records a trim at `c` drops: retained commits whose changes are all consumed. */
  ghost predicate Drops(log: seq<Record>, trimmed: nat, c: Cursor, s: nat) {
    trimmed < s <= |log| && PublishedOf(log[s - 1].ops) != [] && Consumed(log, s, c)
  }

  /** A trim drops a commit exactly when it is not trimmed yet, published something, and the cursor
      has nothing of it left to read. */
  lemma DropsExactly(log: seq<Record>, trimmed: nat, c: Cursor, s: nat)
    ensures Drops(log, trimmed, c, s) <==>
            trimmed < s <= |log| && DueAt(log, s, START) != [] && DueAt(log, s, c) == []
  {
    hide PublishedOf;
    if 0 < s <= |log| { ConsumedExactly(log, s, c); }
  }

  ghost predicate DroppedKey(log: seq<Record>, trimmed: nat, c: Cursor, k: Key) {
    exists s: nat :: Drops(log, trimmed, c, s) && k == ChangeKey(s)
  }

  /** The batch a trim writes: deletes of exactly the dropped records, then the new floor. */
  ghost predicate TrimBatch(ops: seq<Operation>, log: seq<Record>, trimmed: nat, c: Cursor) {
    && ops != [] && ops[|ops| - 1] == Operation.Put(CHANGE_LOG_START_KEY, Suffix(c))
    && (forall i :: 0 <= i < |ops| - 1 ==> ops[i].Delete? && DroppedKey(log, trimmed, c, ops[i].key))
    && (forall s: nat :: Drops(log, trimmed, c, s) ==> Deletes(ops[..|ops| - 1], ChangeKey(s)))
  }

  predicate Deletes(ops: seq<Operation>, k: Key) {
    exists i :: 0 <= i < |ops| && ops[i] == Operation.Delete(k)
  }

  /** Scans the whole feed and drops every record the cursor has consumed; when none is, the
      floor stays where it was and nothing is written. */
  method TrimChanges(t: PageTree, c: Cursor, ghost log: seq<Record>, ghost trimmed: nat, ghost floor: Cursor)
    returns (r: Result<seq<Operation>, FeedError>)
    requires t.Valid() && Fed(log, t.Contents(), trimmed, floor)
    ensures t.root == 0 || t.height < MAX_TREE_DEPTH ==> r.Ok?
    ensures r.Ok? && r.value == [] ==> forall s: nat :: !Drops(log, trimmed, c, s)
    ensures r.Ok? && r.value != [] ==> TrimBatch(r.value, log, trimmed, c) && exists s: nat :: Drops(log, trimmed, c, s)
  {
    hide Fed, Drops, ChangeKey, DropsOf, TrimBatch;
    var scanned := Scan(t, Some(CHANGE_LOG_PREFIX), PrefixSuccessor(CHANGE_LOG_PREFIX), t.len + 1, None);
    if scanned.Err? {
      return Err(FeedUnreadable(scanned.error));
    }
    var deletes := DropRows(scanned.value, c, t.len + 1, log, t.Contents(), trimmed, floor);
    if deletes == [] {
      return Ok([]);
    }
    var ops := deletes + [Operation.Put(CHANGE_LOG_START_KEY, Suffix(c))];
    TrimIsBatch(deletes, ops, log, trimmed, c);
    return Ok(ops);
  }

  lemma TrimIsBatch(deletes: seq<Operation>, ops: seq<Operation>, log: seq<Record>, trimmed: nat, c: Cursor)
    requires ops == deletes + [Operation.Put(CHANGE_LOG_START_KEY, Suffix(c))]
    requires forall j :: 0 <= j < |deletes| ==> deletes[j].Delete? && DroppedKey(log, trimmed, c, deletes[j].key)
    requires forall s: nat :: Drops(log, trimmed, c, s) ==> Deletes(deletes, ChangeKey(s))
    ensures TrimBatch(ops, log, trimmed, c)
  {
    hide Drops, ChangeKey, Suffix;
    assert ops[..|ops| - 1] == deletes;
  }

  /** Deletes for the rows whose last change lies at or before the cursor. */
  method DropRows(rows: seq<Entry>, c: Cursor, ghost limit: nat, ghost log: seq<Record>, ghost m: Store,
                  ghost trimmed: nat, ghost floor: Cursor)
    returns (ops: seq<Operation>)
    requires Fed(log, m, trimmed, floor) && |m| < limit
    requires FirstRows(rows, limit, m, Some(CHANGE_LOG_PREFIX), PrefixSuccessor(CHANGE_LOG_PREFIX), None)
    ensures forall j :: 0 <= j < |ops| ==> ops[j].Delete? && DroppedKey(log, trimmed, c, ops[j].key)
    ensures forall s: nat :: Drops(log, trimmed, c, s) ==> Deletes(ops, ChangeKey(s))
    ensures ops == [] ==> forall s: nat :: !Drops(log, trimmed, c, s)
    ensures ops != [] ==> exists s: nat :: Drops(log, trimmed, c, s)
  {
    hide Fed, Drops, ChangeKey, FirstRows, RowAt, PublishedOf, DroppedKey;
    ops := [];
    FedSize(log, m, trimmed, floor);
    for i := 0 to |rows|
      invariant DropsOf(ops, rows, i, log, trimmed, c)
    {
      ghost var s := FeedRow(rows, limit, log, m, trimmed, floor, i);
      RowDecodes(log, m, trimmed, floor, START, rows[i], s);
      var sequence := SequenceOf(rows[i].key);
      var batch := DecodeBatch(rows[i].value);
      DropNext(ops, rows, i, log, trimmed, c, s);
      if NotAfter(Cursor(sequence.value, |batch.value| - 1), c) {
        ops := ops + [Operation.Delete(rows[i].key)];
      }
    }
    AllRowsSeen(rows, limit, log, m, trimmed, floor, c, ops);
  }

  /** `ops` deletes exactly the dropped records among the first `i` rows. */
  ghost predicate DropsOf(ops: seq<Operation>, rows: seq<Entry>, i: nat, log: seq<Record>, trimmed: nat, c: Cursor) {
    && i <= |rows|
    && (forall j :: 0 <= j < |ops| ==> ops[j].Delete? && DroppedKey(log, trimmed, c, ops[j].key))
    && (forall s: nat, x :: 0 <= x < i && Drops(log, trimmed, c, s) && rows[x].key == ChangeKey(s) ==>
           Deletes(ops, ChangeKey(s)))
  }

  lemma FeedRow(rows: seq<Entry>, limit: nat, log: seq<Record>, m: Store, trimmed: nat, floor: Cursor, i: nat)
      returns (s: nat)
    requires Fed(log, m, trimmed, floor) && i < |rows|
    requires FirstRows(rows, limit, m, Some(CHANGE_LOG_PREFIX), PrefixSuccessor(CHANGE_LOG_PREFIX), None)
    ensures RowAt(log, trimmed, START, rows[i], s)
  {
    var x := rows[i].key;
    assert rows[i] in rows;
    PrefixIsInterval(CHANGE_LOG_PREFIX, x);
    assert IsRecord(log, trimmed, x);
    s :| RecordKey(log, trimmed, x, s);
    assert RecordedAt(log, m, s);
  }

  lemma DropNext(ops: seq<Operation>, rows: seq<Entry>, i: nat, log: seq<Record>, trimmed: nat, c: Cursor, s: nat)
    requires i < |rows| && DropsOf(ops, rows, i, log, trimmed, c) && RowAt(log, trimmed, START, rows[i], s)
    requires |log| < MAX_SEQUENCE
    ensures var more := if NotAfter(Cursor(s, |PublishedOf(log[s - 1].ops)| - 1),
            c) then ops + [Operation.Delete(rows[i].key)] else ops;
            DropsOf(more, rows, i + 1, log, trimmed, c)
  {
    hide PublishedOf, ChangeKey, Drops;
    var dropped := NotAfter(Cursor(s, |PublishedOf(log[s - 1].ops)| - 1), c);
    var more := if dropped then ops + [Operation.Delete(rows[i].key)] else ops;
    DropsWhen(log, trimmed, c, rows[i], s);
    forall q: nat, x | 0 <= x <= i && Drops(log, trimmed, c, q) && rows[x].key == ChangeKey(q)
      ensures Deletes(more, ChangeKey(q))
    {
      if x < i {
        var j :| 0 <= j < |ops| && ops[j] == Operation.Delete(ChangeKey(q));
        assert more[j] == ops[j];
      } else {
        SameCommit(log, trimmed, c, q, s);
        assert more[|ops|] == Operation.Delete(ChangeKey(q));
      }
    }
    forall j | 0 <= j < |more| ensures more[j].Delete? && DroppedKey(log, trimmed, c, more[j].key) {
      if j < |ops| { assert more[j] == ops[j]; }
    }
  }

  lemma DropsWhen(log: seq<Record>, trimmed: nat, c: Cursor, row: Entry, s: nat)
    requires RowAt(log, trimmed, START, row, s)
    ensures Drops(log, trimmed, c, s) <==> NotAfter(Cursor(s, |PublishedOf(log[s - 1].ops)| - 1), c)
  {
  }

  lemma SameCommit(log: seq<Record>, trimmed: nat, c: Cursor, q: nat, s: nat)
    requires Drops(log, trimmed, c, q) && s <= |log| < MAX_SEQUENCE && ChangeKey(q) == ChangeKey(s)
    ensures q == s
  {
    ChangeKeys(q, s);
  }

  lemma AllRowsSeen(rows: seq<Entry>, limit: nat, log: seq<Record>, m: Store, trimmed: nat, floor: Cursor, c: Cursor,
                    ops: seq<Operation>)
    requires Fed(log, m, trimmed, floor) && DropsOf(ops, rows, |rows|, log, trimmed, c) && |m| < limit
    requires FirstRows(rows, limit, m, Some(CHANGE_LOG_PREFIX), PrefixSuccessor(CHANGE_LOG_PREFIX), None)
    ensures forall s: nat :: Drops(log, trimmed, c, s) ==> Deletes(ops, ChangeKey(s))
    ensures ops == [] ==> forall s: nat :: !Drops(log, trimmed, c, s)
    ensures ops != [] ==> exists s: nat :: Drops(log, trimmed, c, s)
  {
    hide PublishedOf, ChangeKey;
    RowsFit(rows, limit, m, Some(CHANGE_LOG_PREFIX), PrefixSuccessor(CHANGE_LOG_PREFIX), None);
    forall s: nat | Drops(log, trimmed, c, s) ensures Deletes(ops, ChangeKey(s)) {
      assert RecordedAt(log, m, s);
      ChangeKeys(s, s);
      PrefixIsInterval(CHANGE_LOG_PREFIX, ChangeKey(s));
      var x := IndexOf(rows, ChangeKey(s));
    }
    if ops != [] {
      assert DroppedKey(log, trimmed, c, ops[0].key);
    }
  }

  /** The last commit a trim at `c` drops; every retained commit up to it is dropped too. */
  lemma LastDropped(log: seq<Record>, trimmed: nat, c: Cursor, s: nat) returns (last: nat)
    requires Drops(log, trimmed, c, s)
    ensures Drops(log, trimmed, c, last) && forall q: nat :: Drops(log, trimmed, c, q) ==> q <= last
    ensures forall q :: trimmed < q <= last ==> Consumed(log, q, c)
  {
    last := s;
    while exists q: nat :: q > last && Drops(log, trimmed, c, q)
      invariant Drops(log, trimmed, c, last)
      decreases |log| - last
    {
      var q: nat :| q > last && Drops(log, trimmed, c, q);
      last := q;
    }
  }

  lemma {:induction false} DeletesApply(m: Store, ops: seq<Operation>, lsn: nat, k: Key)
    requires !IsTombstone(k) && forall i :: 0 <= i < |ops| ==> ops[i].Delete?
    ensures Lookup(RedoAll(m, ops, lsn), k) == if Deletes(ops, k) then None else Lookup(m, k)
    decreases |ops|
  {
    if ops == [] {
    } else {
      var n := |ops| - 1;
      DeletesApply(m, ops[..n], lsn, k);
      Presence(RedoAll(m, ops[..n], lsn), ops[n], lsn, k);
      if Deletes(ops[..n], k) {
        var i :| 0 <= i < n && ops[..n][i] == Operation.Delete(k);
        assert ops[i] == Operation.Delete(k);
      }
      if Deletes(ops, k) && ops[n].key != k {
        var i :| 0 <= i < |ops| && ops[i] == Operation.Delete(k);
        assert ops[..n][i] == Operation.Delete(k);
      }
    }
  }

  lemma {:induction false} FeedOpsUnpublished(ops: seq<Operation>)
    requires forall i :: 0 <= i < |ops| ==> FeedKey(ops[i].key)
    ensures PublishedOf(ops) == []
    decreases |ops|
  {
    if ops == [] {
    } else {
      FeedOpsUnpublished(ops[..|ops| - 1]);
      NotPublished(ops[|ops| - 1].key);
    }
  }

  /** A trim's effect on the feed's keys: the dropped records go, the floor moves to `c`. */
  lemma TrimLookup(log: seq<Record>, m: Store, trimmed: nat, c: Cursor, ops: seq<Operation>, lsn: nat, k: Key)
    requires TrimBatch(ops, log, trimmed, c) && FeedKey(k)
    ensures Lookup(RedoAll(m, ops, lsn), k) ==
            if k == CHANGE_LOG_START_KEY then Some(Stamped(Suffix(c), lsn))
            else if Deletes(ops[..|ops| - 1], k) then None else Lookup(m, k)
  {
    hide Suffix, Drops;
    var n := |ops| - 1;
    FeedKeysPlain(k);
    DeletesApply(m, ops[..n], lsn, k);
    Presence(RedoAll(m, ops[..n], lsn), ops[n], lsn, k);
  }

  /** After a trim the store retains exactly the commits past the last dropped one, and the
      trim's cursor is the floor. */
  lemma TrimFeeds(log: seq<Record>, m: Store, trimmed: nat, floor: Cursor, c: Cursor, ops: seq<Operation>, last: nat,
                  logged: seq<Operation>)
    requires Fed(log, m, trimmed, floor) && |log| + 1 < MAX_SEQUENCE && InRange(c) && PublishedOf(logged) == []
    requires TrimBatch(ops, log, trimmed, c) && Drops(log, trimmed, c, last)
    requires forall q: nat :: Drops(log, trimmed, c, q) ==> q <= last
    requires forall q :: trimmed < q <= last ==> Consumed(log, q, c)
    ensures Fed(log + [Record(|log| + 1, logged)], RedoAll(m, ops, |log| + 1), last, c)
  {
    hide PublishedOf, EncodeBatch, RedoAll, ChangeKey, Suffix, FromSuffix;
    var longer, lsn := log + [Record(|log| + 1, logged)], |log| + 1;
    var m', deletes := RedoAll(m, ops, lsn), ops[..|ops| - 1];
    TrimLookup(log, m, trimmed, c, ops, lsn, CHANGE_LOG_START_KEY);
    SuffixRoundTrip(c);
    NotPublished([]);
    forall s | last < s <= |longer| ensures RecordedAt(longer, m', s) {
      if s <= |log| {
        assert RecordedAt(log, m, s);
        KeptKey(ops, log, trimmed, c, last, s);
        ChangeKeys(s, s);
        TrimLookup(log, m, trimmed, c, ops, lsn, ChangeKey(s));
      }
    }
    forall s | 0 < s <= |longer| ensures Encodable(longer, s) {
      if s <= |log| { assert Encodable(log, s); }
    }
    forall s | 0 < s <= last ensures Consumed(longer, s, c) {
      if s <= trimmed {
        assert Consumed(log, s, floor);
        EarlierConsumed(log, s, last, c);
      } else {
        assert Consumed(log, s, c);
      }
    }
    forall x | x in m' && CHANGE_LOG_PREFIX <= x ensures IsRecord(longer, last, x) {
      TrimLookup(log, m, trimmed, c, ops, lsn, x);
      assert IsRecord(log, trimmed, x);
      var s: nat :| RecordKey(log, trimmed, x, s);
      assert s <= last ==> Drops(log, trimmed, c, s);
      assert RecordKey(longer, last, x, s);
    }
  }

  lemma TrimOps(ops: seq<Operation>, log: seq<Record>, trimmed: nat, c: Cursor)
    requires TrimBatch(ops, log, trimmed, c) && |log| < MAX_SEQUENCE
    ensures Addressable(ops) && ValidOps(ops) && forall i :: 0 <= i < |ops| ==> FeedKey(ops[i].key)
  {
    hide PublishedOf;
    forall i | 0 <= i < |ops| ensures FeedKey(ops[i].key) && ValidOp(ops[i]) && !IsTombstone(ops[i].key) {
      if i < |ops| - 1 {
        assert DroppedKey(log, trimmed, c, ops[i].key);
        var s: nat :| Drops(log, trimmed, c, s) && ops[i].key == ChangeKey(s);
        ChangeKeys(s, s);
      }
      FeedKeysPlain(ops[i].key);
    }
  }

  lemma KeptKey(ops: seq<Operation>, log: seq<Record>, trimmed: nat, c: Cursor, last: nat, s: nat)
    requires TrimBatch(ops, log, trimmed, c) && last < s <= |log| < MAX_SEQUENCE
    requires forall q: nat :: Drops(log, trimmed, c, q) ==> q <= last
    ensures !Deletes(ops[..|ops| - 1], ChangeKey(s))
  {
    hide PublishedOf, Suffix, ChangeKey;
    if Deletes(ops[..|ops| - 1], ChangeKey(s)) {
      var i :| 0 <= i < |ops| - 1 && ops[..|ops| - 1][i] == Operation.Delete(ChangeKey(s));
      assert DroppedKey(log, trimmed, c, ops[i].key);
      var q: nat :| Drops(log, trimmed, c, q) && ops[i].key == ChangeKey(q);
      ChangeKeys(q, s);
    }
  }

  lemma EarlierConsumed(log: seq<Record>, s: nat, last: nat, c: Cursor)
    requires 0 < s < last <= |log| && PublishedOf(log[last - 1].ops) != [] && Consumed(log, last, c)
    ensures Consumed(log, s, c)
  {
  }
}
