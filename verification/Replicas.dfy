/** A replica applies a shipped record one tree edit at a time, each published at once. What a
    failure between two edits leaves, and when trying the record again repairs it. */
module Replicas {
  import opened Results
  import opened Keys
  import opened Stores
  import opened Replay

  /** The first of the two edits an operation makes: its own key, before the tombstone. */
  function HalfRedo(m: Store, op: Operation, lsn: nat): Store {
    match op
    case Put(key, value) => m[key := Stamped(value, lsn)]
    case Delete(key) => m - {key}
  }

  /** The tree after `at` whole operations, and after the first edit of the next if `half`. */
  function PartialRedo(m: Store, ops: seq<Operation>, lsn: nat, at: nat, half: bool): Store
    requires at < |ops|
  {
    var before := RedoAll(m, ops[..at], lsn);
    if half then HalfRedo(before, ops[at], lsn) else before
  }

  // ----- One key of a batch -------------------------------------------------

  function CellAll(c: Cell, ops: seq<Operation>, lsn: nat, k: Key): Cell {
    if ops == [] then c
    else
      var n := |ops| - 1;
      var before := CellAll(c, ops[..n], lsn, k);
      if ops[n].key == k then CellStep(before, ops[n], lsn) else before
  }

  lemma {:induction false} RedoAllCell(m: Store, ops: seq<Operation>, lsn: nat, k: Key)
    requires Addressable(ops)
    ensures CellOf(RedoAll(m, ops, lsn), k) == CellAll(CellOf(m, k), ops, lsn, k)
    decreases |ops|
  {
    if ops == [] {
    } else {
      var n := |ops| - 1;
      RedoAllCell(m, ops[..n], lsn, k);
      RedoCell(RedoAll(m, ops[..n], lsn), ops[n], lsn, k);
    }
  }

  predicate Puts(ops: seq<Operation>, k: Key) {
    exists i :: 0 <= i < |ops| && ops[i].key == k && ops[i].Put?
  }

  predicate Deletes(ops: seq<Operation>, k: Key) {
    exists i :: 0 <= i < |ops| && ops[i].key == k && ops[i].Delete?
  }

  lemma PutsSnoc(ops: seq<Operation>, k: Key)
    requires ops != []
    ensures var n := |ops| - 1;
            && (Puts(ops, k) <==> Puts(ops[..n], k) || (ops[n].key == k && ops[n].Put?))
            && (Deletes(ops, k) <==> Deletes(ops[..n], k) || (ops[n].key == k && ops[n].Delete?))
  {
    var n, head := |ops| - 1, ops[..|ops| - 1];
    assert forall i :: 0 <= i < n ==> head[i] == ops[i];
    if Puts(head, k) {
      var i :| 0 <= i < n && head[i].key == k && head[i].Put?;
      assert ops[i].key == k;
    }
    if Deletes(head, k) {
      var i :| 0 <= i < n && head[i].key == k && head[i].Delete?;
      assert ops[i].key == k;
    }
  }

  /** A put of the key anywhere in the batch makes the outcome independent of the start. */
  lemma {:induction false} PutDecides(c: Cell, d: Cell, ops: seq<Operation>, lsn: nat, k: Key)
    requires Puts(ops, k) && (Reserved(k) ==> c.tomb == d.tomb)
    ensures CellAll(c, ops, lsn, k) == CellAll(d, ops, lsn, k)
    decreases |ops|
  {
    var n := |ops| - 1;
    PutsSnoc(ops, k);
    if Puts(ops[..n], k) {
      PutDecides(c, d, ops[..n], lsn, k);
    } else {
      NoPutTomb(c, ops[..n], lsn, k);
      NoPutTomb(d, ops[..n], lsn, k);
    }
  }

  lemma NoPutTomb(c: Cell, ops: seq<Operation>, lsn: nat, k: Key)
    requires !Puts(ops, k)
    ensures Reserved(k) ==> CellAll(c, ops, lsn, k).tomb == c.tomb
  {
    NoPutCell(c, ops, lsn, k);
  }

  /** Without a put, the first delete decides and the others meet nothing. */
  lemma {:induction false} NoPutCell(c: Cell, ops: seq<Operation>, lsn: nat, k: Key)
    requires !Puts(ops, k)
    ensures CellAll(c, ops, lsn, k) ==
            if Deletes(ops, k) && c.live.Some? then Cell(None, if Reserved(k) then c.tomb else Some(Stamped([], lsn)))
                else c
    decreases |ops|
  {
    if ops == [] {
    } else {
      PutsSnoc(ops, k);
      NoPutCell(c, ops[..|ops| - 1], lsn, k);
    }
  }

  /** A batch whose deletes hit, and which never puts the key, deletes it at most once. */
  lemma OneDelete(m: Store, ops: seq<Operation>, lsn: nat, i: nat, j: nat)
    requires Addressable(ops) && Hits(m, ops, lsn) && i < j < |ops| && ops[i].Delete? && !Puts(ops, ops[i].key)
    ensures ops[j].key != ops[i].key
  {
    var head, k := ops[..j], ops[i].key;
    assert !IsTombstone(ops[i].key) && !IsTombstone(ops[j].key);
    assert HitsAt(m, ops, lsn, j) && !Puts(head, k);
    assert head[i] == ops[i];
    RedoAllCell(m, head, lsn, k);
    NoPutCell(CellOf(m, k), head, lsn, k);
  }

  /** The one delete of a key that is never put: it finds the key, and nothing else touches it. */
  lemma SoleDelete(m: Store, ops: seq<Operation>, lsn: nat, at: nat)
    requires at < |ops| && Addressable(ops) && Hits(m, ops, lsn) && ops[at].Delete? && !Puts(ops, ops[at].key)
    ensures forall j :: 0 <= j < |ops| && j != at ==> ops[j].key != ops[at].key
    ensures CellOf(m, ops[at].key).live.Some? && !Deletes(ops[..at], ops[at].key)
  {
    var k, head := ops[at].key, ops[..at];
    forall j | 0 <= j < |ops| && j != at ensures ops[j].key != k {
      if at < j {
        OneDelete(m, ops, lsn, at, j);
      } else if ops[j].key == k {
        assert ops[j].Delete?;
        OneDelete(m, ops, lsn, j, at);
      }
    }
    assert HitsAt(m, ops, lsn, at) && !IsTombstone(k);
    assert !Puts(head, k) && !Deletes(head, k);
    RedoAllCell(m, head, lsn, k);
    NoPutCell(CellOf(m, k), head, lsn, k);
  }

  lemma {:induction false} ReservedTomb(c: Cell, ops: seq<Operation>, lsn: nat, k: Key)
    ensures Reserved(k) ==> CellAll(c, ops, lsn, k).tomb == c.tomb
    decreases |ops|
  {
    if ops == [] {
    } else {
      ReservedTomb(c, ops[..|ops| - 1], lsn, k);
    }
  }

  /** Whether a key is live does not depend on tombstones. */
  lemma {:induction false} LiveAlike(c: Cell, d: Cell, ops: seq<Operation>, lsn: nat, k: Key)
    requires c.live == d.live
    ensures CellAll(c, ops, lsn, k).live == CellAll(d, ops, lsn, k).live
    decreases |ops|
  {
    if ops == [] {
    } else {
      LiveAlike(c, d, ops[..|ops| - 1], lsn, k);
    }
  }

  lemma PartialCell(m: Store, ops: seq<Operation>, lsn: nat, at: nat, half: bool, k: Key)
    requires at < |ops| && Addressable(ops)
    ensures var before := CellAll(CellOf(m, k), ops[..at], lsn, k);
            CellOf(PartialRedo(m, ops, lsn, at, half), k) ==
            if !half || ops[at].key != k then before
            else Cell(if ops[at].Put? then Some(Stamped(ops[at].value, lsn)) else None, before.tomb)
  {
    RedoAllCell(m, ops[..at], lsn, k);
    TombstoneShape(ops[at].key);
    TombstoneShape(k);
    assert TombstoneKey(k) == TombstoneKey(ops[at].key) ==> k == ops[at].key;
  }

  // ----- States with tombstones missing -------------------------------------

  /** The state without the tombstones of some keys. */
  function Without(m: Store, lost: set<Key>): Store {
    m - set k | k in lost :: TombstoneKey(k)
  }

  /** Only tombstones that are there can be missing. */
  ghost predicate Apt(m: Store, lost: set<Key>) {
    forall k :: k in lost ==> !Reserved(k) && TombstoneKey(k) in m
  }

  lemma WithoutCell(m: Store, lost: set<Key>, k: Key)
    ensures CellOf(Without(m, lost), k) == Cell(CellOf(m, k).live, if k in lost then None else CellOf(m, k).tomb)
  {
    TombstoneShape(k);
    var gone := set x | x in lost :: TombstoneKey(x);
    if TombstoneKey(k) in gone {
      var x :| x in lost && TombstoneKey(k) == TombstoneKey(x);
      TombstoneShape(x);
    }
    if k in gone {
      var x :| x in lost && k == TombstoneKey(x);
      TombstoneShape(x);
    }
  }

  /** Nothing is missing exactly when the state is right. */
  lemma WithoutNothing(m: Store, lost: set<Key>)
    requires Apt(m, lost)
    ensures Without(m, lost) == m <==> lost == {}
  {
    if lost != {} {
      var k :| k in lost;
      assert TombstoneKey(k) !in Without(m, lost);
    }
  }

  function TouchedKeys(ops: seq<Operation>): set<Key> {
    set i | 0 <= i < |ops| :: ops[i].key
  }

  // ----- On the way through a record ----------------------------------------

  /** Where a key may stand after any number of attempts at a batch, none of them whole: `c` is its
      cell before the batch, `d` its cell now, and `missing` says that its tombstone will be. */
  predicate OnWay(c: Cell, d: Cell, ops: seq<Operation>, lsn: nat, k: Key, missing: bool) {
    if Puts(ops, k) then !missing && (Reserved(k) ==> d.tomb == c.tomb)
    else if !Deletes(ops, k) then
      d == Cell(c.live, if missing then None else c.tomb) && (missing ==> !Reserved(k) && c.tomb.Some?)
    else if Reserved(k) then !missing && d.tomb == c.tomb && (d.live == c.live || d.live.None?)
    else if missing then d == Cell(None, None)
    else d == c || d == Cell(None, Some(Stamped([], lsn)))
  }

  /** The tree stands somewhere between `s` and the batch done on it. */
  ghost predicate Toward(s: Store, ops: seq<Operation>, lsn: nat, t: Store, lost: set<Key>) {
    forall k :: OnWay(CellOf(s, k), CellOf(t, k), ops, lsn, k, k in lost)
  }

  /** The batch as a primary logs it, on a state no key of which is both live and deleted. */
  ghost predicate Fits(s: Store, ops: seq<Operation>, lsn: nat) {
    Addressable(ops) && Hits(s, ops, lsn) && Orderly(s)
  }

  lemma DeletesAt(ops: seq<Operation>, k: Key) returns (at: nat)
    requires Deletes(ops, k)
    ensures at < |ops| && ops[at] == Operation.Delete(k)
  {
    at :| 0 <= at < |ops| && ops[at].key == k && ops[at].Delete?;
  }

  /** A batch not yet begun. */
  lemma TowardStarts(s: Store, ops: seq<Operation>, lsn: nat, lost: set<Key>)
    requires Fits(s, ops, lsn) && Apt(s, lost)
    ensures Toward(s, ops, lsn, Without(s, lost), lost - TouchedKeys(ops))
  {
    forall k ensures OnWay(CellOf(s, k), CellOf(Without(s, lost), k), ops, lsn, k, k in lost - TouchedKeys(ops)) {
      WithoutCell(s, lost, k);
      Untouched(ops, k);
      assert OrderlyCell(k, CellOf(s, k));
      if !Puts(ops, k) && Deletes(ops, k) {
        var at := DeletesAt(ops, k);
        SoleDelete(s, ops, lsn, at);
      }
    }
  }

  lemma Untouched(ops: seq<Operation>, k: Key)
    ensures k in TouchedKeys(ops) <==> Puts(ops, k) || Deletes(ops, k)
  {
    if k in TouchedKeys(ops) {
      var i :| 0 <= i < |ops| && ops[i].key == k;
      assert ops[i].Put? || ops[i].Delete?;
    }
  }

  /** The failure fell between a user key's delete and its tombstone, and the batch touches
      the key nowhere else. */
  predicate TombstoneLost(ops: seq<Operation>, at: nat, half: bool)
    requires at < |ops|
  {
    && half && ops[at].Delete? && !Reserved(ops[at].key)
    && forall j :: 0 <= j < |ops| && j != at ==> ops[j].key != ops[at].key
  }

  /** The tombstone one more attempt loses: the delete had not happened yet. */
  function NewlyLost(t: Store, ops: seq<Operation>, at: nat, half: bool): set<Key>
    requires at < |ops|
  {
    if TombstoneLost(ops, at, half) && ops[at].key in t then {ops[at].key} else {}
  }

  lemma AgainCell(s: Store, ops: seq<Operation>, lsn: nat, t: Store, lost: set<Key>, at: nat, half: bool, k: Key)
    requires at < |ops| && Fits(s, ops, lsn) && OnWay(CellOf(s, k), CellOf(t, k), ops, lsn, k, k in lost)
    ensures var more := lost + NewlyLost(t, ops, at, half);
            OnWay(CellOf(s, k), CellOf(PartialRedo(t, ops, lsn, at, half), k), ops, lsn, k, k in more)
  {
    hide PartialRedo, Redo, RedoAll;
    var c, d, head := CellOf(s, k), CellOf(t, k), ops[..at];
    PartialCell(t, ops, lsn, at, half, k);
    ReservedTomb(d, head, lsn, k);
    assert OrderlyCell(k, c) && !IsTombstone(ops[at].key);
    if Puts(ops, k) {
      var i :| 0 <= i < |ops| && ops[i].key == k && ops[i].Put?;
    } else {
      assert !Puts(head, k);
      NoPutCell(d, head, lsn, k);
      HeadDeletes(ops, at, k);
      if Deletes(ops, k) {
        var i := DeletesAt(ops, k);
        SoleDelete(s, ops, lsn, i);
      }
    }
  }

  lemma HeadDeletes(ops: seq<Operation>, at: nat, k: Key)
    requires at <= |ops|
    ensures Deletes(ops[..at], k) ==> Deletes(ops, k)
  {
    if Deletes(ops[..at], k) {
      var i := DeletesAt(ops[..at], k);
      assert ops[i].key == k;
    }
  }

  /** One more attempt that stops part-way. */
  lemma TowardAgain(s: Store, ops: seq<Operation>, lsn: nat, t: Store, lost: set<Key>, at: nat, half: bool)
    requires at < |ops| && Fits(s, ops, lsn) && Toward(s, ops, lsn, t, lost)
    ensures Toward(s, ops, lsn, PartialRedo(t, ops, lsn, at, half), lost + NewlyLost(t, ops, at, half))
  {
    hide OnWay, PartialRedo, Fits, NewlyLost;
    var next := PartialRedo(t, ops, lsn, at, half);
    var more := lost + NewlyLost(t, ops, at, half);
    forall k ensures OnWay(CellOf(s, k), CellOf(next, k), ops, lsn, k, k in more) {
      AgainCell(s, ops, lsn, t, lost, at, half, k);
    }
  }

  lemma FinishCell(s: Store, ops: seq<Operation>, lsn: nat, t: Store, lost: set<Key>, k: Key)
    requires Fits(s, ops, lsn) && OnWay(CellOf(s, k), CellOf(t, k), ops, lsn, k, k in lost)
    ensures var good, done := CellOf(RedoAll(s, ops, lsn), k), CellOf(RedoAll(t, ops, lsn), k);
            && done == Cell(good.live, if k in lost then None else good.tomb)
            && (k in lost ==> !Reserved(k) && good.tomb.Some? && !Puts(ops, k))
            && OnWay(CellOf(s, k), done, ops, lsn, k, k in lost)
  {
    hide Redo, RedoAll;
    var c, d := CellOf(s, k), CellOf(t, k);
    RedoAllCell(s, ops, lsn, k);
    RedoAllCell(t, ops, lsn, k);
    ReservedTomb(d, ops, lsn, k);
    assert OrderlyCell(k, c);
    if Puts(ops, k) {
      PutDecides(c, d, ops, lsn, k);
    } else {
      NoPutCell(c, ops, lsn, k);
      NoPutCell(d, ops, lsn, k);
      if Deletes(ops, k) {
        var at := DeletesAt(ops, k);
        SoleDelete(s, ops, lsn, at);
      }
    }
  }

  /** An attempt that succeeds ends in the batch's state, the lost tombstones missing. */
  lemma TowardFinishes(s: Store, ops: seq<Operation>, lsn: nat, t: Store, lost: set<Key>)
    requires Fits(s, ops, lsn) && Toward(s, ops, lsn, t, lost)
    ensures RedoAll(t, ops, lsn) == Without(RedoAll(s, ops, lsn), lost) && Apt(RedoAll(s, ops, lsn), lost)
    ensures Toward(s, ops, lsn, RedoAll(t, ops, lsn), lost) && forall k :: k in lost ==> !Puts(ops, k)
  {
    hide OnWay, Fits, RedoAll, Without;
    var good, done := RedoAll(s, ops, lsn), RedoAll(t, ops, lsn);
    forall k
      ensures CellOf(done, k) == CellOf(Without(good, lost), k)
      ensures OnWay(CellOf(s, k), CellOf(done, k), ops, lsn, k, k in lost)
      ensures k in lost ==> !Reserved(k) && TombstoneKey(k) in good && !Puts(ops, k)
    {
      FinishCell(s, ops, lsn, t, lost, k);
      WithoutCell(good, lost, k);
    }
    SameCells(done, Without(good, lost));
  }

  /** The batch's state with tombstones missing counts as on its own way, if no put of the batch
      would bring one back. */
  lemma TowardBack(s: Store, ops: seq<Operation>, lsn: nat, lost: set<Key>)
    requires Fits(s, ops, lsn) && Apt(RedoAll(s, ops, lsn), lost) && forall k :: k in lost ==> !Puts(ops, k)
    ensures Toward(s, ops, lsn, Without(RedoAll(s, ops, lsn), lost), lost)
  {
    hide RedoAll, Without, Redo;
    var good := RedoAll(s, ops, lsn);
    forall k ensures OnWay(CellOf(s, k), CellOf(Without(good, lost), k), ops, lsn, k, k in lost) {
      WithoutCell(good, lost, k);
      RedoAllCell(s, ops, lsn, k);
      ReservedTomb(CellOf(s, k), ops, lsn, k);
      assert OrderlyCell(k, CellOf(s, k));
      if !Puts(ops, k) {
        NoPutCell(CellOf(s, k), ops, lsn, k);
        if Deletes(ops, k) {
          var at := DeletesAt(ops, k);
          SoleDelete(s, ops, lsn, at);
        }
      }
    }
  }

  /** Missing tombstones change no key's presence, so the same deletes hit. */
  lemma HitsWithout(s: Store, ops: seq<Operation>, lsn: nat, lost: set<Key>)
    requires Addressable(ops)
    ensures Hits(Without(s, lost), ops, lsn) <==> Hits(s, ops, lsn)
  {
    hide RedoAll, Without;
    forall i | 0 <= i < |ops| ensures HitsAt(Without(s, lost), ops, lsn, i) <==> HitsAt(s, ops, lsn, i) {
      var k, head := ops[i].key, ops[..i];
      WithoutCell(s, lost, k);
      RedoAllCell(s, head, lsn, k);
      RedoAllCell(Without(s, lost), head, lsn, k);
      LiveAlike(CellOf(s, k), CellOf(Without(s, lost), k), head, lsn, k);
      assert !IsTombstone(k);
    }
  }

  // ----- Trying the record again --------------------------------------------

  /** Trying the record again after a failure at any point gives the primary's state exactly
      when no tombstone was lost. */
  lemma RetryRestores(m: Store, ops: seq<Operation>, lsn: nat, at: nat, half: bool)
    requires at < |ops| && Fits(m, ops, lsn)
    ensures RedoAll(PartialRedo(m, ops, lsn, at, half), ops, lsn) == RedoAll(m, ops, lsn) <==>
              !TombstoneLost(ops, at, half)
  {
    hide PartialRedo, RedoAll, Toward, Fits;
    var lost := NewlyLost(m, ops, at, half);
    assert Without(m, {}) == m && {} - TouchedKeys(ops) == {} && {} + lost == lost;
    TowardStarts(m, ops, lsn, {});
    TowardAgain(m, ops, lsn, m, {}, at, half);
    TowardFinishes(m, ops, lsn, PartialRedo(m, ops, lsn, at, half), lost);
    WithoutNothing(RedoAll(m, ops, lsn), lost);
    if TombstoneLost(ops, at, half) { LostWasLive(m, ops, lsn, at); }
  }

  lemma LostWasLive(m: Store, ops: seq<Operation>, lsn: nat, at: nat)
    requires at < |ops| && Fits(m, ops, lsn) && TombstoneLost(ops, at, true)
    ensures ops[at].key in m
  {
    hide RedoAll;
    assert !Puts(ops, ops[at].key);
    SoleDelete(m, ops, lsn, at);
  }

  /** A delete of a present key that fails before its tombstone, tried again, leaves the
      replica without the deletion's revision. */
  lemma RetryLoses(k: Key, value: Value)
    requires !Reserved(k)
    ensures var m, ops := map[k := Stamped(value, 1)], [Operation.Delete(k)];
            && RedoAll(m, ops, 2) == map[TombstoneKey(k) := Stamped([], 2)]
            && RedoAll(PartialRedo(m, ops, 2, 0, true), ops, 2) == map[]
  {
    var m, ops := map[k := Stamped(value, 1)], [Operation.Delete(k)];
    assert ops[..0] == [];
    assert RedoAll(m, ops, 2) == Redo(m, ops[0], 2);
    assert PartialRedo(m, ops, 2, 0, true) == map[];
    assert RedoAll(map[], ops, 2) == Redo(map[], ops[0], 2);
  }
}
