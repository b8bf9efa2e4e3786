/** Logged operations and the one rule by which every replay applies them.

    A user key lives in the keyspace either as a live entry or as a tombstone that
    carries its deleting revision. Redo after a crash, a replica's apply and a
    checkpoint's catch-up all derive tombstones from the logged operations with
    the same rule. This module states the rule and proves what it preserves. */
module Replay {
  import opened Results
  import opened Keys
  import opened Stores

  /** The bytes of "\0vyrn:". */
  const INTERNAL_PREFIX: Key := [0, 118, 121, 114, 110, 58]
  /** The bytes of "\0vyrn:tombstone:". */
  const TOMBSTONE_PREFIX: Key := INTERNAL_PREFIX + [116, 111, 109, 98, 115, 116, 111, 110, 101, 58]

  /** The bytes of "\0vyrn:doc:". */
  const DOCUMENT_KEY_PREFIX: Key := INTERNAL_PREFIX + [100, 111, 99, 58]

  /** The bytes of "\0vyrn:changelog:" and of "\0vyrn:changelog-start". */
  const CHANGE_LOG_PREFIX: Key := INTERNAL_PREFIX + [99, 104, 97, 110, 103, 101, 108, 111, 103, 58]
  const CHANGE_LOG_START_KEY: Key := INTERNAL_PREFIX + [99, 104, 97, 110, 103, 101, 108, 111, 103, 45, 115, 116, 97,
      114, 116]

  datatype Operation = Put(key: Key, value: Value) | Delete(key: Key)

  /** One commit as the log holds it. */
  datatype Record = Record(lsn: nat, ops: seq<Operation>)

  predicate Reserved(k: Key) {
    INTERNAL_PREFIX <= k
  }

  predicate IsTombstone(k: Key) {
    TOMBSTONE_PREFIX <= k
  }

  function TombstoneKey(k: Key): Key {
    TOMBSTONE_PREFIX + k
  }

  lemma TombstoneShape(k: Key)
    ensures IsTombstone(TombstoneKey(k)) && Reserved(TombstoneKey(k))
    ensures TombstoneKey(k)[|TOMBSTONE_PREFIX|..] == k
    ensures IsTombstone(k) ==> Reserved(k) && TombstoneKey(k[|TOMBSTONE_PREFIX|..]) == k
  {
    assert INTERNAL_PREFIX == TOMBSTONE_PREFIX[..6];
    if IsTombstone(k) {
      assert k[..16][..6] == k[..6];
    }
  }

  // ----- The redo rule ------------------------------------------------------

  /** One logged operation: a put stores the value and clears the key's tombstone;
      a delete of a present key removes it and leaves a tombstone; a delete of an
      absent key does nothing. Only user keys have tombstones. */
  function Redo(m: Store, op: Operation, lsn: nat): Store {
    match op
    case Put(key, value) =>
      var m' := m[key := Stamped(value, lsn)];
      if Reserved(key) then m' else m' - {TombstoneKey(key)}
    case Delete(key) =>
      if key !in m then m
      else if Reserved(key) then m - {key}
      else (m - {key})[TombstoneKey(key) := Stamped([], lsn)]
  }

  function RedoAll(m: Store, ops: seq<Operation>, lsn: nat): Store {
    if ops == [] then m
    else Redo(RedoAll(m, ops[..|ops| - 1], lsn), ops[|ops| - 1], lsn)
  }

  function RedoLog(m: Store, log: seq<Record>): Store {
    if log == [] then m
    else RedoAll(RedoLog(m, log[..|log| - 1]), log[|log| - 1].ops, log[|log| - 1].lsn)
  }

  /** The state after the first `n` records of a log that starts from nothing. */
  function StateAt(log: seq<Record>, n: nat): Store
    requires n <= |log|
  {
    RedoLog(map[], log[..n])
  }

  lemma StateAtNext(log: seq<Record>, n: nat)
    requires n < |log|
    ensures StateAt(log, n + 1) == RedoAll(StateAt(log, n), log[n].ops, log[n].lsn)
  {
    assert log[..n + 1][..n] == log[..n];
  }

  lemma StateAtKept(log: seq<Record>, longer: seq<Record>, n: nat)
    requires log <= longer && n <= |log|
    ensures StateAt(log, n) == StateAt(longer, n)
  {
    assert log[..n] == longer[..n];
  }

  /** Every delete of the batch finds its key. */
  predicate Hits(m: Store, ops: seq<Operation>, lsn: nat) {
    forall i :: 0 <= i < |ops| ==> HitsAt(m, ops, lsn, i)
  }

  predicate HitsAt(m: Store, ops: seq<Operation>, lsn: nat, i: nat)
    requires i < |ops|
  {
    ops[i].Delete? ==> ops[i].key in RedoAll(m, ops[..i], lsn)
  }

  /** The size limits every operation is held to. */
  predicate ValidOp(op: Operation) {
    0 < |op.key| <= MAX_KEY_SIZE && (op.Put? ==> |op.value| <= MAX_VALUE_SIZE)
  }

  predicate ValidOps(ops: seq<Operation>) {
    forall i :: 0 <= i < |ops| ==> ValidOp(ops[i])
  }

  /** No operation addresses a tombstone: user writes are refused the internal
      prefix and internal writers keep to prefixes of their own. */
  predicate Addressable(ops: seq<Operation>) {
    forall i :: 0 <= i < |ops| ==> !IsTombstone(ops[i].key)
  }

  /** A log as commits write it: record `i` is LSN `i + 1`, and deletes were logged
      only for keys that were present. */
  ghost predicate Faithful(log: seq<Record>) {
    forall i :: 0 <= i < |log| ==> FaithfulAt(log, i)
  }

  ghost predicate FaithfulAt(log: seq<Record>, i: nat)
    requires i < |log|
  {
    log[i].lsn == i + 1 && Addressable(log[i].ops) && Hits(StateAt(log, i), log[i].ops, log[i].lsn)
  }

  lemma FaithfulExtends(log: seq<Record>, r: Record)
    requires Faithful(log) && r.lsn == |log| + 1 && Addressable(r.ops)
    requires Hits(StateAt(log, |log|), r.ops, r.lsn)
    ensures Faithful(log + [r])
    ensures StateAt(log + [r], |log| + 1) == RedoAll(StateAt(log, |log|), r.ops, r.lsn)
  {
    var l := log + [r];
    forall i | 0 <= i < |l| ensures FaithfulAt(l, i) {
      assert i < |log| ==> FaithfulAt(log, i);
      StateAtKept(log, l, i);
    }
    StateAtKept(log, l, |log|);
    StateAtNext(l, |log|);
  }

  lemma FaithfulPrefix(log: seq<Record>, n: nat)
    requires Faithful(log) && n <= |log|
    ensures Faithful(log[..n])
  {
    forall i | 0 <= i < n ensures FaithfulAt(log[..n], i) {
      assert FaithfulAt(log, i);
      StateAtKept(log[..n], log, i);
    }
  }

  // ----- Replay, key by key -------------------------------------------------

  /** Everything the keyspace says about one key: its live entry and its tombstone. */
  datatype Cell = Cell(live: Option<Stamped>, tomb: Option<Stamped>)

  function CellOf(m: Store, k: Key): Cell {
    Cell(if IsTombstone(k) then None else Lookup(m, k), Lookup(m, TombstoneKey(k)))
  }

  function CellStep(c: Cell, op: Operation, lsn: nat): Cell {
    match op
    case Put(key, value) => Cell(Some(Stamped(value, lsn)), if Reserved(key) then c.tomb else None)
    case Delete(key) =>
      if c.live.None? then c
      else Cell(None, if Reserved(key) then c.tomb else Some(Stamped([], lsn)))
  }

  /** An operation moves its own key's cell and no other. */
  lemma RedoCell(m: Store, op: Operation, lsn: nat, k: Key)
    requires !IsTombstone(op.key)
    ensures CellOf(Redo(m, op, lsn), k) == if k == op.key then CellStep(CellOf(m, k), op, lsn) else CellOf(m, k)
  {
    TombstoneShape(op.key);
    TombstoneShape(k);
    assert TombstoneKey(k) == TombstoneKey(op.key) ==> k == op.key;
  }

  lemma SameCells(a: Store, b: Store)
    requires forall k :: CellOf(a, k) == CellOf(b, k)
    ensures a == b
  {
    forall k ensures Lookup(a, k) == Lookup(b, k) {
      TombstoneShape(k);
      if IsTombstone(k) {
        assert CellOf(a, k[|TOMBSTONE_PREFIX|..]) == CellOf(b, k[|TOMBSTONE_PREFIX|..]);
      } else {
        assert CellOf(a, k) == CellOf(b, k);
      }
    }
    SameLookups(a, b);
  }

  /** A key is live or deleted, never both, and only user keys leave tombstones. */
  ghost predicate Orderly(m: Store) {
    forall k :: OrderlyCell(k, CellOf(m, k))
  }

  predicate OrderlyCell(k: Key, c: Cell) {
    (c.live.Some? || Reserved(k)) ==> c.tomb.None?
  }

  lemma RedoOrderly(m: Store, op: Operation, lsn: nat)
    requires Orderly(m) && !IsTombstone(op.key)
    ensures Orderly(Redo(m, op, lsn))
  {
    forall k ensures OrderlyCell(k, CellOf(Redo(m, op, lsn), k)) {
      assert OrderlyCell(k, CellOf(m, k));
      RedoCell(m, op, lsn, k);
    }
  }

  lemma {:induction false} RedoAllOrderly(m: Store, ops: seq<Operation>, lsn: nat)
    requires Orderly(m) && Addressable(ops)
    ensures Orderly(RedoAll(m, ops, lsn))
    decreases |ops|
  {
    if ops == [] {
    } else {
      RedoAllOrderly(m, ops[..|ops| - 1], lsn);
      RedoOrderly(RedoAll(m, ops[..|ops| - 1], lsn), ops[|ops| - 1], lsn);
    }
  }

  /** In every run no user key is both live and deleted. */
  lemma {:induction false} StateOrderly(log: seq<Record>, n: nat)
    requires Faithful(log) && n <= |log|
    ensures Orderly(StateAt(log, n))
    decreases n
  {
    if n == 0 {
    } else {
      assert FaithfulAt(log, n - 1);
      StateOrderly(log, n - 1);
      StateAtNext(log, n - 1);
      RedoAllOrderly(StateAt(log, n - 1), log[n - 1].ops, log[n - 1].lsn);
    }
  }

  // ----- Overlapping replay -------------------------------------------------

  /** Each key of `r` is as in `s` or as in `b`. */
  ghost predicate Blend(r: Store, s: Store, b: Store) {
    && Orderly(r) && Orderly(s) && Orderly(b)
    && forall k :: CellOf(r, k) == CellOf(s, k) || CellOf(r, k) == CellOf(b, k)
  }

  lemma BlendStep(r: Store, s: Store, b: Store, op: Operation, lsn: nat)
    requires Blend(r, s, b) && !IsTombstone(op.key) && (op.Delete? ==> op.key in s)
    ensures Blend(Redo(r, op, lsn), Redo(s, op, lsn), b)
  {
    RedoOrderly(r, op, lsn);
    RedoOrderly(s, op, lsn);
    forall k ensures var c := CellOf(Redo(r, op, lsn), k); c == CellOf(Redo(s, op, lsn), k) || c == CellOf(b, k) {
      assert OrderlyCell(k, CellOf(r, k)) && OrderlyCell(k, CellOf(s, k));
      RedoCell(r, op, lsn, k);
      RedoCell(s, op, lsn, k);
    }
  }

  lemma {:induction false} BlendAll(r: Store, s: Store, b: Store, ops: seq<Operation>, lsn: nat)
    requires Blend(r, s, b) && Addressable(ops) && Hits(s, ops, lsn)
    ensures Blend(RedoAll(r, ops, lsn), RedoAll(s, ops, lsn), b)
    decreases |ops|
  {
    if ops == [] {
    } else {
      var n := |ops| - 1;
      HitsPrefix(s, ops, n, lsn);
      assert HitsAt(s, ops, lsn, n);
      BlendAll(r, s, b, ops[..n], lsn);
      BlendStep(RedoAll(r, ops[..n], lsn), RedoAll(s, ops[..n], lsn), b, ops[n], lsn);
    }
  }

  lemma HitsPrefix(m: Store, ops: seq<Operation>, n: nat, lsn: nat)
    requires Hits(m, ops, lsn) && n <= |ops|
    ensures Hits(m, ops[..n], lsn)
  {
    forall i | 0 <= i < n ensures HitsAt(m, ops[..n], lsn, i) {
      assert HitsAt(m, ops, lsn, i);
      assert ops[..n][..i] == ops[..i];
    }
  }

  lemma BlendRecord(log: seq<Record>, c: nat, r: Store, b: Store)
    requires Faithful(log) && c < |log| && Blend(r, StateAt(log, c), b)
    ensures Blend(RedoAll(r, log[c].ops, log[c].lsn), StateAt(log, c + 1), b)
  {
    assert FaithfulAt(log, c);
    BlendAll(r, StateAt(log, c), b, log[c].ops, log[c].lsn);
    StateAtNext(log, c);
  }

  lemma BlendStart(s: Store, b: Store)
    requires Orderly(s) && Orderly(b)
    ensures Blend(b, s, b)
  {
  }

  lemma {:induction false} BlendLog(log: seq<Record>, a: nat, c: nat, b: Store)
    requires Faithful(log) && a <= c <= |log| && Orderly(b)
    ensures Blend(RedoLog(b, log[a..c]), StateAt(log, c), b)
    decreases c
  {
    if a == c {
      assert log[a..c] == [];
      StateOrderly(log, a);
      BlendStart(StateAt(log, a), b);
    } else {
      BlendLog(log, a, c - 1, b);
      assert log[a..c][..c - 1 - a] == log[a..c - 1];
      BlendRecord(log, c - 1, RedoLog(b, log[a..c - 1]), b);
    }
  }

  /** Replaying records a state already contains changes nothing. */
  lemma ReplayAgain(log: seq<Record>, a: nat, b: nat)
    requires Faithful(log) && a <= b <= |log|
    ensures RedoLog(StateAt(log, b), log[a..b]) == StateAt(log, b)
  {
    StateOrderly(log, b);
    BlendLog(log, a, b, StateAt(log, b));
    SameCells(RedoLog(StateAt(log, b), log[a..b]), StateAt(log, b));
  }

  lemma {:induction false} RedoLogConcat(m: Store, a: seq<Record>, b: seq<Record>)
    ensures RedoLog(m, a + b) == RedoLog(RedoLog(m, a), b)
    decreases |b|
  {
    if b == [] {
      assert a + b == a;
    } else {
      assert (a + b)[..|a + b| - 1] == a + b[..|b| - 1];
      RedoLogConcat(m, a, b[..|b| - 1]);
    }
  }

  /** Overlap is harmless: records (m, n] replayed onto the state at any j of m..n
      end in the state at n. */
  lemma ReplayOverlap(log: seq<Record>, m: nat, j: nat, n: nat)
    requires Faithful(log) && m <= j <= n <= |log|
    ensures RedoLog(StateAt(log, j), log[m..n]) == StateAt(log, n)
  {
    assert log[m..n] == log[m..j] + log[j..n];
    RedoLogConcat(StateAt(log, j), log[m..j], log[j..n]);
    ReplayAgain(log, m, j);
    assert log[..n] == log[..j] + log[j..n];
    RedoLogConcat(map[], log[..j], log[j..n]);
  }
}
