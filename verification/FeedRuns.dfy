/** The change feed over whole runs: commits publish their own records, trims drop consumed
    ones, and a subscriber polls. The feed in the keyspace stays exactly the published
    history past the last trim, and a subscriber the floor has not overtaken is never wrong. */
module FeedRuns {
  import opened Results
  import opened Pages
  import opened Stores
  import opened Windows
  import opened PageTree
  import opened Replay
  import opened Planning
  import opened ChangeRecords
  import Documents
  import opened ChangeFeed
  import opened Floors

  datatype CommitError = InvalidOp | Exhausted | TooManyChanges | WriteFailed

  /** The batch as it is applied: the caller's operations and the record of what they publish. */
  function Combined(view: Store, ops: seq<Operation>, lsn: nat): seq<Operation> {
    var entries := PublishedOf(Effective(view, ops, lsn));
    if entries == [] then ops else ops + [Operation.Put(ChangeKey(lsn), EncodeBatch(entries))]
  }

  ghost predicate Acceptable(view: Store, ops: seq<Operation>, lsn: nat) {
    && lsn < MAX_SEQUENCE && ValidOps(Combined(view, ops, lsn))
    && |PublishedOf(Effective(view, ops, lsn))| < 0x1_0000_0000
  }

  /** A batch is acceptable exactly when there is an LSN left, keys have 1 to 65536 bytes and values at
      most 16 MiB, and the record of what it publishes is no larger and counts in 32 bits. */
  lemma AcceptableMeans(view: Store, ops: seq<Operation>, lsn: nat)
    ensures var entries := PublishedOf(Effective(view, ops, lsn));
            Acceptable(view, ops, lsn) <==>
            && lsn < 0x1_0000_0000_0000_0000
            && (forall i :: 0 <= i < |ops| ==>
                  1 <= |ops[i].key| <= 65536 && (ops[i].Put? ==> |ops[i].value| <= 16777216))
            && (entries != [] ==> |EncodeBatch(entries)| <= 16777216 && |entries| < 0x1_0000_0000)
  {
    hide PublishedOf, Effective, EncodeBatch, ChangeKey;
    var entries := PublishedOf(Effective(view, ops, lsn));
    ChangeKeySize(lsn);
    if entries != [] {
      var put := Operation.Put(ChangeKey(lsn), EncodeBatch(entries));
      assert Combined(view, ops, lsn)[|ops|] == put;
      assert forall i :: 0 <= i < |ops| ==> Combined(view, ops, lsn)[i] == ops[i];
    }
  }

  lemma ChangeKeySize(lsn: nat)
    ensures 1 <= |ChangeKey(lsn)| <= 65536
  {
  }

  function Extended(log: seq<Record>, logged: seq<Operation>): seq<Record> {
    if logged == [] then log else log + [Record(|log| + 1, logged)]
  }

  function CountsOf(log: seq<Record>): seq<nat> {
    seq(|log|, i requires 0 <= i < |log| => |PublishedOf(log[i].ops)|)
  }

  class Publisher {
    const tree: PageTree
    /** What the tree holds. */
    var store: Store
    var lastLsn: nat
    var tombstonesPossible: bool
    ghost var log: seq<Record>
    ghost var trimmed: nat
    ghost var floor: Cursor

    ghost predicate Stored()
      reads this, tree
    {
      && tree.Valid() && tree.Contents() == store == StateAt(log, |log|) && lastLsn == |log|
      && (!tombstonesPossible ==> NoTombstones(store))
    }

    ghost predicate Valid()
      reads this, tree
    {
      Stored() && Fed(log, store, trimmed, floor)
    }

    /** The tree is not deeper than a descent goes. */
    ghost predicate Readable()
      reads this, tree
    {
      tree.root == 0 || tree.height < MAX_TREE_DEPTH
    }

    ghost function Standing(): Ledger
      reads this
    {
      Ledger(CountsOf(log), trimmed, floor)
    }

    constructor ()
      ensures Valid() && fresh(tree) && log == [] && Standing() == EMPTY && Safe(Standing())
    {
      tree := new PageTree();
      store, lastLsn, tombstonesPossible := map[], 0, false;
      log, trimmed, floor := [], 0, START;
    }

    /** Applies a batch with its change record, or nothing of it. */
    method Apply(ops: seq<Operation>, io: bool) returns (r: Result<(), CommitError>)
      requires Stored() && Addressable(ops)
      modifies this`store, this`lastLsn, this`tombstonesPossible, this`log, tree
      ensures Stored()
      ensures r.Err? ==> log == old(log)
      ensures r.Ok? ==>
                log == Extended(old(log), Effective(old(store), Combined(old(store), ops, old(lastLsn) + 1),
                old(lastLsn) + 1))
      ensures r.Ok? ==> store == RedoAll(old(store), Combined(old(store), ops, old(lastLsn) + 1), old(lastLsn) + 1)
      ensures r.Ok? && ops != [] ==> Acceptable(old(store), ops, old(lastLsn) + 1)
      ensures (ops == [] || Acceptable(old(store), ops, old(lastLsn) + 1)) && io && old(Readable()) ==> r.Ok?
    {
      hide StateAt, RedoAll, Effective, PublishedOf, EncodeBatch, ChangeKey, PlanFor, NoTombstones, Holds, StoreAt,
           Faithful;
      ghost var lsn, view := lastLsn + 1, store;
      CombinedAddressable(view, ops, lsn);
      CombinedValid(view, ops, lsn);
      if ops == [] {
        NothingCombined(view, lsn);
        return Ok(());
      }
      var valid := forall i | 0 <= i < |ops| :: ValidOp(ops[i]);
      if !valid {
        return Err(InvalidOp);
      }
      if lastLsn + 1 >= MAX_SEQUENCE {
        return Err(Exhausted);
      }
      var combined, entries := WithChangeLog(store, ops, lastLsn + 1);
      if |entries| >= 0x1_0000_0000 {
        return Err(TooManyChanges);
      }
      valid := forall i | 0 <= i < |combined| :: ValidOp(combined[i]);
      if !valid {
        return Err(InvalidOp);
      }
      r := Install(combined, io);
    }

    /** Plans the whole batch, prepares its pages and publishes the new root. */
    method Install(combined: seq<Operation>, io: bool) returns (r: Result<(), CommitError>)
      requires Stored() && Addressable(combined)
      modifies this`store, this`lastLsn, this`tombstonesPossible, this`log, tree
      ensures Stored()
      ensures r.Err? ==> log == old(log)
      ensures r.Ok? ==> log == Extended(old(log), Effective(old(store), combined, old(lastLsn) + 1))
      ensures r.Ok? ==> store == RedoAll(old(store), combined, old(lastLsn) + 1)
      ensures io && old(Readable()) ==> r.Ok?
    {
      hide StateAt, RedoAll, Effective, PlanFor, NoTombstones, ApplyEdits, Holds, StoreAt;
      var p := PlanBatch(store, combined, lastLsn + 1, tombstonesPossible);
      PlanInstalls(log, store, combined, p);
      if p.logged == [] {
        return Ok(());
      }
      var prepared, h := tree.PrepareBatch(p.mutations, io);
      if prepared.Err? {
        return Err(WriteFailed);
      }
      tree.Publish(prepared.value.0, prepared.value.1, h);
      store := ApplyEdits(store, p.mutations);
      log := log + [Record(lastLsn + 1, p.logged)];
      lastLsn := lastLsn + 1;
      tombstonesPossible := tombstonesPossible || p.possible;
      r := Ok(());
    }

    /** A commit publishes exactly the published mutations it makes, under its own LSN. */
    method Commit(ops: seq<Operation>, io: bool) returns (r: Result<(), CommitError>)
      requires Valid() && Addressable(ops) && AvoidsFeed(ops)
      modifies this`store, this`lastLsn, this`tombstonesPossible, this`log, tree
      ensures Valid() && old(log) <= log && |log| <= |old(log)| + 1
      ensures r.Err? ==> log == old(log)
      ensures r.Ok? ==> store == RedoAll(old(store), Combined(old(store), ops, old(lastLsn) + 1), old(lastLsn) + 1)
      ensures r.Ok? && ops != [] ==> Acceptable(old(store), ops, old(lastLsn) + 1)
      ensures (ops == [] || Acceptable(old(store), ops, old(lastLsn) + 1)) && io && old(Readable()) ==> r.Ok?
      ensures r.Ok? ==> var entries := PublishedOf(Effective(old(store), ops, old(lastLsn) + 1));
                        if log == old(log) then entries == [] else PublishedOf(log[|log| - 1].ops) == entries
      ensures Standing() == if log == old(log) then old(Standing())
              else Moved(old(Standing()), Move.Commit(|PublishedOf(log[|log| - 1].ops)|))
    {
      hide StateAt, RedoAll, Effective, PublishedOf, Fed, Acceptable, Combined;
      r := Apply(ops, io);
      if r.Ok? {
        CommitPublishes(old(log), old(store), trimmed, floor, ops);
        CountsNext(old(log), log);
      }
    }

    /** A trim drops the records its cursor has consumed and sets the floor to it, or does
        nothing when there is none; what was published does not change. */
    method Trim(c: Cursor, io: bool) returns (r: Result<(), CommitError>)
      requires Valid() && InRange(c)
      modifies this, tree
      ensures Valid() && old(log) <= log && |log| <= |old(log)| + 1
      ensures r.Err? ==> log == old(log) && Standing() == old(Standing())
      ensures r.Ok? ==> Standing() == Moved(old(Standing()), Move.Trim(c))
      ensures log != old(log) ==> PublishedOf(log[|log| - 1].ops) == []
      ensures io && |old(log)| + 1 < MAX_SEQUENCE && old(Readable()) ==> r.Ok?
    {
      hide StateAt, RedoAll, Effective, PublishedOf, Fed, TrimBatch, Drops, CountsOf, Moved;
      var batch := TrimChanges(tree, c, log, trimmed, floor);
      if batch.Err? {
        return Err(WriteFailed);
      }
      if batch.value == [] {
        NoneDropped(log, trimmed, floor, c);
        return Ok(());
      }
      r := Drop(batch.value, c, io);
    }

    /** Applies a trim's batch, which drops at least one record. */
    method Drop(batch: seq<Operation>, c: Cursor, io: bool) returns (r: Result<(), CommitError>)
      requires Valid() && InRange(c) && TrimBatch(batch, log, trimmed, c) && exists s: nat :: Drops(log, trimmed, c, s)
      modifies this, tree
      ensures Valid() && old(log) <= log && |log| <= |old(log)| + 1
      ensures r.Err? ==> log == old(log) && Standing() == old(Standing())
      ensures r.Ok? ==> Standing() == Moved(old(Standing()), Move.Trim(c))
      ensures log != old(log) ==> PublishedOf(log[|log| - 1].ops) == []
      ensures io && |old(log)| + 1 < MAX_SEQUENCE && old(Readable()) ==> r.Ok?
    {
      hide StateAt, RedoAll, Effective, PublishedOf, Fed, TrimBatch, Drops, Combined, Acceptable, CountsOf, Moved,
           Extended;
      ghost var s: nat :| Drops(log, trimmed, c, s);
      ghost var last := LastDropped(log, trimmed, c, s);
      FedSize(log, store, trimmed, floor);
      TrimCombined(store, batch, log, trimmed, c);
      r := Apply(batch, io);
      if r.Ok? {
        TrimInstalls(old(log), old(store), trimmed, floor, c, batch, last, log);
        trimmed, floor := last, c;
      }
    }

    method Read(c: Cursor, limit: nat) returns (r: Result<seq<Change>, FeedError>)
      requires Valid() && c.sequence < MAX_SEQUENCE
      ensures Before(c, floor) && Readable() ==> r == Err(CursorTooOld(c, floor))
      ensures NotAfter(floor, c) && Readable() ==> r.Ok?
      ensures r.Ok? ==> NotAfter(floor, c) && r.value == Take(Feed(log, c, |log|), limit)
    {
      r := ReadChanges(tree, c, limit, log, trimmed, floor);
    }
  }

  lemma NothingCombined(view: Store, lsn: nat)
    ensures Combined(view, [], lsn) == [] && Effective(view, [], lsn) == [] && RedoAll(view, [], lsn) == view
  {
  }

  lemma CombinedAddressable(view: Store, ops: seq<Operation>, lsn: nat)
    requires Addressable(ops)
    ensures Addressable(Combined(view, ops, lsn))
  {
    hide PublishedOf, Effective, EncodeBatch;
    assert CHANGE_LOG_PREFIX <= ChangeKey(lsn);
    FeedKeysPlain(ChangeKey(lsn));
  }

  lemma CombinedValid(view: Store, ops: seq<Operation>, lsn: nat)
    ensures ValidOps(Combined(view, ops, lsn)) ==> ValidOps(ops)
  {
    hide PublishedOf, Effective, EncodeBatch, ChangeKey, ValidOp;
    assert forall i :: 0 <= i < |ops| ==> Combined(view, ops, lsn)[i] == ops[i];
  }

  /** What the plan installs and logs takes the state where replaying the log would. */
  lemma PlanInstalls(log: seq<Record>, view: Store, ops: seq<Operation>, p: Plan)
    requires view == StateAt(log, |log|) && PlanFor(view, ops, |log| + 1, p)
    ensures p.logged == Effective(view, ops, |log| + 1)
    ensures RedoAll(view, ops, |log| + 1) == ApplyEdits(view, p.mutations)
    ensures p.logged == [] ==> ApplyEdits(view, p.mutations) == view
    ensures var longer := log + [Record(|log| + 1, p.logged)];
            StateAt(longer, |longer|) == ApplyEdits(view, p.mutations)
    ensures !p.possible ==> NoTombstones(ApplyEdits(view, p.mutations))
  {
    hide RedoAll, StateAt, Effective, ApplyEdits, NoTombstones, UserKeys, Reports, Hits, OwnedBy;
    var rec := Record(|log| + 1, p.logged);
    NothingCombined(view, |log| + 1);
    StateAtKept(log, log + [rec], |log|);
    StateAtNext(log + [rec], |log|);
  }

  /** The logged operations are among the batch's. */
  lemma {:induction false} EffectiveAmong(m: Store, ops: seq<Operation>, lsn: nat)
    ensures forall op :: op in Effective(m, ops, lsn) ==> op in ops
    decreases |ops|
  {
    if ops == [] {
    } else {
      EffectiveAmong(m, ops[..|ops| - 1], lsn);
    }
  }

  lemma {:induction false} PublishedValid(ops: seq<Operation>)
    requires ValidOps(ops)
    ensures forall i :: 0 <= i < |PublishedOf(ops)| ==> ValidMutated(PublishedOf(ops)[i])
    decreases |ops|
  {
    if ops == [] {
    } else {
      PublishedValid(ops[..|ops| - 1]);
    }
  }

  /** A commit's record, as it was logged, publishes what the caller's operations did. */
  lemma CommitPublishes(log: seq<Record>, m: Store, trimmed: nat, floor: Cursor, ops: seq<Operation>)
    requires Fed(log, m, trimmed, floor) && AvoidsFeed(ops) && (ops != [] ==> Acceptable(m, ops, |log| + 1))
    ensures var lsn := |log| + 1;
            var entries, logged := PublishedOf(Effective(m, ops, lsn)), Effective(m, Combined(m, ops, lsn), lsn);
            && PublishedOf(logged) == entries && (logged == [] ==> entries == [])
            && (logged == [] ==> RedoAll(m, Combined(m, ops, lsn), lsn) == m)
            && Fed(Extended(log, logged), RedoAll(m, Combined(m, ops, lsn), lsn), trimmed, floor)
  {
    hide Fed, PublishedOf, Effective, RedoAll, EncodeBatch, ChangeKey;
    var lsn := |log| + 1;
    var head, logged := Effective(m, ops, lsn), Effective(m, Combined(m, ops, lsn), lsn);
    NothingCombined(m, lsn);
    EffectiveReplays(m, Combined(m, ops, lsn), lsn);
    EffectiveAmong(m, ops, lsn);
    assert AvoidsFeed(head) by {
      forall i | 0 <= i < |head| ensures !FeedKey(head[i].key) { assert head[i] in ops; }
    }
    if PublishedOf(head) != [] {
      CombinedPublishes(m, ops, lsn, PublishedOf(head));
      assert logged[..|logged| - 1] == head;
    }
    if logged != [] {
      CommitRecord(m, ops, lsn);
      CommitFeeds(log, m, trimmed, floor, Record(lsn, logged));
    }
  }

  /** The mutations a commit publishes can be encoded. */
  lemma CommitRecord(m: Store, ops: seq<Operation>, lsn: nat)
    requires ops != [] ==> Acceptable(m, ops, lsn)
    ensures var ms := PublishedOf(Effective(m, ops, lsn));
            |ms| < 0x1_0000_0000 && forall i :: 0 <= i < |ms| ==> ValidMutated(ms[i])
  {
    hide PublishedOf, Effective, EncodeBatch, ChangeKey;
    NothingPublished(m, lsn);
    CombinedValid(m, ops, lsn);
    EffectiveAmong(m, ops, lsn);
    var head := Effective(m, ops, lsn);
    if ops != [] {
      forall i | 0 <= i < |head| ensures ValidOp(head[i]) { assert head[i] in ops; }
      PublishedValid(head);
    }
  }

  lemma NothingPublished(m: Store, lsn: nat)
    ensures PublishedOf(Effective(m, [], lsn)) == []
  {
  }

  lemma CountsNext(log: seq<Record>, longer: seq<Record>)
    requires log <= longer && |longer| <= |log| + 1
    ensures CountsOf(longer) == if longer == log then CountsOf(log)
            else CountsOf(log) + [|PublishedOf(longer[|log|].ops)|]
  {
    hide PublishedOf;
  }

  lemma LedgerDrops(log: seq<Record>, trimmed: nat, floor: Cursor, c: Cursor, s: nat)
    ensures Drops(log, trimmed, c, s) <==> Droppable(Ledger(CountsOf(log), trimmed, floor), c, s)
  {
    hide PublishedOf;
  }

  lemma NoneDropped(log: seq<Record>, trimmed: nat, floor: Cursor, c: Cursor)
    requires forall s: nat :: !Drops(log, trimmed, c, s)
    ensures var l := Ledger(CountsOf(log), trimmed, floor); Moved(l, Move.Trim(c)) == l
  {
    hide Drops, Droppable;
    var l := Ledger(CountsOf(log), trimmed, floor);
    LedgerDrops(log, trimmed, floor, c, LastDrop(l, c, |l.counts|));
  }

  lemma TrimCombined(m: Store, ops: seq<Operation>, log: seq<Record>, trimmed: nat, c: Cursor)
    requires TrimBatch(ops, log, trimmed, c) && |log| < MAX_SEQUENCE
    ensures var lsn := |log| + 1;
            && ops != [] && Addressable(ops) && Combined(m, ops, lsn) == ops &&
                 PublishedOf(Effective(m, ops, lsn)) == []
            && (lsn < MAX_SEQUENCE ==> Acceptable(m, ops, lsn))
  {
    hide TrimBatch, PublishedOf, Effective;
    var lsn := |log| + 1;
    TrimOps(ops, log, trimmed, c);
    TrimSome(ops, log, trimmed, c);
    EffectiveAmong(m, ops, lsn);
    forall i | 0 <= i < |Effective(m, ops, lsn)| ensures FeedKey(Effective(m, ops, lsn)[i].key) {
      assert Effective(m, ops, lsn)[i] in ops;
    }
    FeedOpsUnpublished(Effective(m, ops, lsn));
  }

  lemma TrimSome(ops: seq<Operation>, log: seq<Record>, trimmed: nat, c: Cursor)
    requires TrimBatch(ops, log, trimmed, c)
    ensures ops != []
  {
  }

  lemma TrimInstalls(log: seq<Record>, m: Store, trimmed: nat, floor: Cursor, c: Cursor, ops: seq<Operation>, last: nat,
                     longer: seq<Record>)
    requires Fed(log, m, trimmed, floor) && InRange(c) && TrimBatch(ops, log, trimmed, c)
    requires Drops(log, trimmed, c, last) && (forall q: nat :: Drops(log, trimmed, c, q) ==> q <= last)
    requires forall q :: trimmed < q <= last ==> Consumed(log, q, c)
    requires longer == Extended(log, Effective(m, ops, |log| + 1)) && Acceptable(m, ops, |log| + 1)
    ensures |longer| == |log| + 1 && log <= longer && PublishedOf(longer[|log|].ops) == []
    ensures Fed(longer, RedoAll(m, ops, |log| + 1), last, c)
    ensures Ledger(CountsOf(longer), last, c) == Moved(Ledger(CountsOf(log), trimmed, floor), Move.Trim(c))
  {
    hide Fed, PublishedOf, Effective, RedoAll, TrimBatch, Drops, Consumed;
    TrimLogged(m, ops, log, trimmed, c);
    FedSize(log, m, trimmed, floor);
    TrimCombined(m, ops, log, trimmed, c);
    TrimFeeds(log, m, trimmed, floor, c, ops, last, Effective(m, ops, |log| + 1));
    CountsNext(log, longer);
    var l := Ledger(CountsOf(log), trimmed, floor);
    LedgerDrops(log, trimmed, floor, c, last);
    LedgerDrops(log, trimmed, floor, c, LastDrop(l, c, |l.counts|));
  }

  lemma TrimLogged(m: Store, ops: seq<Operation>, log: seq<Record>, trimmed: nat, c: Cursor)
    requires TrimBatch(ops, log, trimmed, c)
    ensures Effective(m, ops, |log| + 1) != []
  {
  }

  // ----- Subscribers --------------------------------------------------------

  /** The published history at or before `c`. */
  function Upto(log: seq<Record>, c: Cursor): seq<Change> {
    var all, rest := Feed(log, START, |log|), Feed(log, c, |log|);
    if |rest| <= |all| then all[..|all| - |rest|] else []
  }

  /** A subscriber's copy is the published history up to its cursor, folded. */
  ghost predicate Caught(log: seq<Record>, copy: Snapshot, c: Cursor) {
    c.sequence <= |log| && copy == Fold(map[], Upto(log, c))
  }

  lemma UptoSplits(log: seq<Record>, c: Cursor)
    ensures Feed(log, START, |log|) == Upto(log, c) + Feed(log, c, |log|)
  {
    hide Feed;
    var m := FeedSplit(log, START, c, |log|);
    var all := Feed(log, START, |log|);
    assert all == all[..m] + all[m..];
  }

  lemma {:induction false} FeedKept(log: seq<Record>, longer: seq<Record>, c: Cursor, s: nat)
    requires log <= longer && s <= |log|
    ensures Feed(longer, c, s) == Feed(log, c, s)
    decreases s
  {
    if s == 0 {
    } else {
      FeedKept(log, longer, c, s - 1);
    }
  }

  /** Commits and trims leave a subscriber where it was. */
  lemma CaughtGrows(log: seq<Record>, longer: seq<Record>, copy: Snapshot, c: Cursor)
    requires Caught(log, copy, c) && log <= longer && |longer| <= |log| + 1
    ensures Caught(longer, copy, c)
  {
    hide Feed, PublishedOf, Fold;
    if |longer| == |log| {
      assert longer == log;
    } else {
      UptoSplits(log, c);
      UptoSplits(longer, c);
      FeedKept(log, longer, c, |log|);
      FeedKept(log, longer, START, |log|);
      FeedNext(longer, c, |longer|);
      FeedNext(longer, START, |longer|);
      SameDue(longer, |longer|, c, START);
      assert Upto(longer, c) == Upto(log, c);
    }
  }

  lemma SameDue(log: seq<Record>, s: nat, c: Cursor, d: Cursor)
    requires c.sequence < s <= |log| && d.sequence < s
    ensures DueAt(log, s, c) == DueAt(log, s, d)
  {
  }

  /** Folding a page moves the subscriber to the page's last change. */
  lemma PageCaught(log: seq<Record>, copy: Snapshot, c: Cursor, limit: nat)
    requires Caught(log, copy, c) && Take(Feed(log, c, |log|), limit) != []
    ensures var page := Take(Feed(log, c, |log|), limit); Caught(log, Fold(copy, page), page[|page| - 1].at)
  {
    hide Feed, Fold;
    var page := Take(Feed(log, c, |log|), limit);
    var d := page[|page| - 1].at;
    PagesMeet(log, c, limit);
    UptoSplits(log, c);
    UptoSplits(log, d);
    assert Upto(log, d) == Upto(log, c) + page;
    FoldConcat(map[], Upto(log, c), page);
    FeedAscends(log, c, |log|);
  }

  /** A subscriber with nothing left to read holds the published keyspace. */
  lemma CaughtMirrors(log: seq<Record>, copy: Snapshot, c: Cursor)
    requires Caught(log, copy, c) && Feed(log, c, |log|) == []
    ensures Mirrors(copy, StateAt(log, |log|))
  {
    hide Feed, Fold, Mirrors, StateAt;
    UptoSplits(log, c);
    assert Upto(log, c) + [] == Upto(log, c);
    FoldRebuilds(log, |log|);
  }

  class Subscriber {
    var copy: Snapshot
    var cursor: Cursor

    constructor ()
      ensures copy == map[] && cursor == START && forall log :: Caught(log, copy, cursor)
    {
      copy, cursor := map[], START;
      new;
      forall log ensures Caught(log, copy, cursor) {
        assert Upto(log, START) == [];
      }
    }

    /** Reads one page and folds it in. It is refused only once the floor has passed the
        subscriber; a page that is not full leaves the copy equal to the published keyspace. */
    method Poll(p: Publisher, limit: nat) returns (r: Result<nat, FeedError>)
      requires p.Valid() && Caught(p.log, copy, cursor)
      modifies this
      ensures Caught(p.log, copy, cursor)
      ensures p.Readable() ==> (r.Ok? <==> NotAfter(p.floor, old(cursor)))
      ensures r.Ok? && r.value < limit ==>
                forall k :: !(INTERNAL_PREFIX <= k) ==>
                    (k in copy <==> k in p.store) && (k in copy ==> copy[k] == p.store[k].value)
      ensures r.Ok? && r.value < limit ==>
                forall c, k :: Documents.IsDocument(c, k) ==>
                    (k in copy <==> k in p.store) && (k in copy ==> copy[k] == p.store[k].value)
      ensures r.Ok? && r.value < limit ==> Mirrors(copy, p.store)
      ensures r.Err? ==> copy == old(copy) && cursor == old(cursor)
      ensures r.Ok? ==>
                var due := Feed(p.log, old(cursor), |p.log|);
                && r.value == (if |due| < limit then |due| else limit) && copy == Fold(old(copy), due[..r.value])
                && cursor == if r.value == 0 then old(cursor) else due[r.value - 1].at
    {
      hide Feed, Fold, Mirrors, StateAt, Fed, Caught;
      CaughtInRange(p.log, copy, cursor);
      FedSize(p.log, p.store, p.trimmed, p.floor);
      var page := p.Read(cursor, limit);
      if page.Err? {
        return Err(page.error);
      }
      PageLeaves(p.log, copy, cursor, limit);
      if page.value != [] {
        copy, cursor := Fold(copy, page.value), page.value[|page.value| - 1].at;
      }
      r := Ok(|page.value|);
      assert page.value == Feed(p.log, old(cursor), |p.log|)[..r.value];
      FoldNothing(old(copy));
      if r.value < limit { MirrorsKeyspace(copy, p.store); }
    }
  }

  lemma FoldNothing(copy: Snapshot)
    ensures Fold(copy, []) == copy
  {
  }

  lemma CaughtInRange(log: seq<Record>, copy: Snapshot, c: Cursor)
    requires Caught(log, copy, c)
    ensures c.sequence <= |log|
  {
  }

  lemma PageLeaves(log: seq<Record>, copy: Snapshot, c: Cursor, limit: nat)
    requires Caught(log, copy, c)
    ensures var page := Take(Feed(log, c, |log|), limit);
            var copy', c' := if page == [] then copy else Fold(copy, page), if page == [] then c
                else page[|page| - 1].at;
            Caught(log, copy', c') && (|page| < limit ==> Mirrors(copy', StateAt(log, |log|)))
  {
    hide Feed, Fold, Mirrors, StateAt, Caught;
    var all := Feed(log, c, |log|);
    var page := Take(all, limit);
    if page == [] {
      if limit > 0 { CaughtMirrors(log, copy, c); }
    } else {
      PageCaught(log, copy, c, limit);
      PagesMeet(log, c, limit);
      if |page| < limit { CaughtMirrors(log, Fold(copy, page), page[|page| - 1].at); }
    }
  }

  // ----- Every run ----------------------------------------------------------

  datatype FeedStep =
    | CommitStep(ops: seq<Operation>, io: bool)
    | TrimStep(at: Cursor, io: bool)
    | PollStep(limit: nat)

  predicate Allowed(step: FeedStep) {
    && (step.CommitStep? ==> Addressable(step.ops) && AvoidsFeed(step.ops))
    && (step.TrimStep? ==> InRange(step.at))
  }

  /** Publisher and subscriber between two steps. */
  datatype Moment = Moment(log: seq<Record>, store: Store, standing: Ledger, readable: bool, copy: Snapshot,
                           cursor: Cursor)

  ghost function Now(p: Publisher, s: Subscriber): Moment
    reads p, p.tree, s
  {
    Moment(p.log, p.store, p.Standing(), p.Readable(), s.copy, s.cursor)
  }

  /** What a step that succeeded or failed makes of the two, and when it must succeed. */
  ghost predicate Stepped(a: Moment, step: FeedStep, done: bool, b: Moment) {
    match step
    case CommitStep(ops, io) =>
      var lsn := |a.log| + 1;
      && b.copy == a.copy && b.cursor == a.cursor
      && ((ops == [] || Acceptable(a.store, ops, lsn)) && io && a.readable ==> done)
      && (done ==> b.store == RedoAll(a.store, Combined(a.store, ops, lsn), lsn))
      && (done ==> ops == [] || Acceptable(a.store, ops, lsn))
      && (!done ==> b.log == a.log && b.standing == a.standing)
    case TrimStep(at, io) =>
      && b.copy == a.copy && b.cursor == a.cursor && (io && |a.log| + 1 < MAX_SEQUENCE && a.readable ==> done)
      && b.standing == if done then Moved(a.standing, Move.Trim(at)) else a.standing
    case PollStep(limit) =>
      var due := Feed(a.log, a.cursor, |a.log|);
      var n := if |due| < limit then |due| else limit;
      && b.log == a.log && b.store == a.store && b.standing == a.standing
      && (a.readable ==> (done <==> NotAfter(a.standing.floor, a.cursor)))
      && (done ==> b.copy == Fold(a.copy, due[..n]) && b.cursor == if n == 0 then a.cursor else due[n - 1].at)
      && (!done ==> b.copy == a.copy && b.cursor == a.cursor)
  }

  /** Takes one step and says whether it succeeded. */
  method Advance(p: Publisher, s: Subscriber, step: FeedStep) returns (done: bool, ghost moved: seq<Move>)
    requires p.Valid() && Caught(p.log, s.copy, s.cursor) && Allowed(step)
    modifies p, p.tree, s
    ensures p.Valid() && Caught(p.log, s.copy, s.cursor) && old(p.log) <= p.log
    ensures p.Standing() == Final(old(p.Standing()), moved)
    ensures forall m :: m in moved && m.Trim? ==> step.TrimStep? && m.at == step.at
    ensures Stepped(old(Now(p, s)), step, done, Now(p, s))
  {
    hide Fed, Caught, StateAt, RedoAll, Effective, PublishedOf, Combined, Acceptable, Moved, CountsOf, Feed, Mirrors,
         NoTombstones, Fold;
    moved := [];
    match step {
      case CommitStep(ops, io) =>
        var r := p.Commit(ops, io);
        done := r.Ok?;
        CaughtGrows(old(p.log), p.log, s.copy, s.cursor);
        if p.log != old(p.log) {
          moved := [Move.Commit(|PublishedOf(p.log[|p.log| - 1].ops)|)];
          OneMove(old(p.Standing()), moved[0]);
        }
      case TrimStep(at, io) =>
        var r := p.Trim(at, io);
        done := r.Ok?;
        CaughtGrows(old(p.log), p.log, s.copy, s.cursor);
        if r.Ok? {
          moved := [Move.Trim(at)];
          OneMove(old(p.Standing()), moved[0]);
        }
      case PollStep(limit) =>
        var r := s.Poll(p, limit);
        done := r.Ok?;
    }
  }

  lemma {:induction false} FinalConcat(l: Ledger, a: seq<Move>, b: seq<Move>)
    ensures Final(l, a + b) == Final(Final(l, a), b)
    decreases |b|
  {
    if b == [] {
      assert a + b == a;
    } else {
      assert (a + b)[..|a + b| - 1] == a + b[..|b| - 1];
      FinalConcat(l, a, b[..|b| - 1]);
    }
  }

  predicate TrimIn(steps: seq<FeedStep>, at: Cursor) {
    exists i :: 0 <= i < |steps| && steps[i].TrimStep? && steps[i].at == at
  }

  /** Whatever the interleaving of commits, trims and polls: the feed is the published history
      past the last trim, the subscriber's copy is that history up to its cursor, and the floor
      never falls if each trim was timely. */
  method Run(p: Publisher, s: Subscriber, steps: seq<FeedStep>)
    returns (done: seq<bool>, ghost moves: seq<Move>, ghost trace: seq<Moment>)
    requires p.Valid() && Caught(p.log, s.copy, s.cursor) && forall i :: 0 <= i < |steps| ==> Allowed(steps[i])
    modifies p, p.tree, s
    ensures p.Valid() && Caught(p.log, s.copy, s.cursor) && old(p.log) <= p.log
    ensures p.Standing() == Final(old(p.Standing()), moves) && forall m :: m in moves && m.Trim? ==> TrimIn(steps, m.at)
    ensures |done| == |steps| && |trace| == |steps| + 1 && trace[0] == old(Now(p, s)) && trace[|steps|] == Now(p, s)
    ensures forall i :: 0 <= i < |steps| ==> Stepped(trace[i], steps[i], done[i], trace[i + 1])
    ensures Safe(old(p.Standing())) && Guarded(old(p.Standing()), moves) ==>
              forall i, j :: 0 <= i <= j <= |moves| ==>
                NotAfter(Final(old(p.Standing()), moves[..i]).floor, Final(old(p.Standing()), moves[..j]).floor)
  {
    hide Caught, Final, Fed, Safe, Guarded, StateAt, Stepped, Now;
    done, moves, trace := [], [], [Now(p, s)];
    ghost var start := p.Standing();
    NoMoves(start);
    for i := 0 to |steps|
      invariant p.Valid() && Caught(p.log, s.copy, s.cursor) && old(p.log) <= p.log
      invariant p.Standing() == Final(start, moves) && forall m :: m in moves && m.Trim? ==> TrimIn(steps, m.at)
      invariant |done| == i && |trace| == i + 1 && trace[0] == old(Now(p, s)) && trace[i] == Now(p, s)
      invariant forall j :: 0 <= j < i ==> Stepped(trace[j], steps[j], done[j], trace[j + 1])
    {
      var ok;
      ghost var moved;
      ok, moved := Advance(p, s, steps[i]);
      FinalConcat(start, moves, moved);
      done, moves, trace := done + [ok], moves + moved, trace + [Now(p, s)];
    }
    if Safe(start) && Guarded(start, moves) {
      forall i, j | 0 <= i <= j <= |moves|
        ensures NotAfter(Final(start, moves[..i]).floor, Final(start, moves[..j]).floor)
      {
        NeverFalls(start, moves, i, j);
      }
    }
  }

  lemma NoMoves(l: Ledger)
    ensures Final(l, []) == l
  {
  }
}
