/** How a commit turns a batch of operations into page mutations, logged operations
    and results, without touching a page.

    Whether a delete hits and whether a put must clear a tombstone depend on what
    earlier operations of the same batch did, so the planner tracks presence in a
    small overlay seeded with one sweep over the keys of the batch. */
module Planning {
  import opened Keys
  import opened Mutations
  import opened Stores
  import opened Replay

  datatype OpResult = PutDone | DeleteDone(existed: bool)

  /** The operations of a batch that are logged: every put, and the deletes that hit. */
  function Effective(m: Store, ops: seq<Operation>, lsn: nat): seq<Operation> {
    if ops == [] then []
    else
      var n := |ops| - 1;
      Effective(m, ops[..n], lsn) + Contribution(RedoAll(m, ops[..n], lsn), ops[n])
  }

  function Contribution(m: Store, op: Operation): seq<Operation> {
    if op.Delete? && op.key !in m then [] else [op]
  }

  /** What a batch reports for its operation `i`. */
  function ResultOf(m: Store, ops: seq<Operation>, lsn: nat, i: nat): OpResult
    requires i < |ops|
  {
    if ops[i].Put? then PutDone else DeleteDone(ops[i].key in RedoAll(m, ops[..i], lsn))
  }

  lemma RedoSnoc(m: Store, ops: seq<Operation>, op: Operation, lsn: nat)
    ensures RedoAll(m, ops + [op], lsn) == Redo(RedoAll(m, ops, lsn), op, lsn)
  {
    assert (ops + [op])[..|ops|] == ops;
  }

  lemma RedoContribution(m: Store, ops: seq<Operation>, op: Operation, lsn: nat)
    ensures RedoAll(m, ops + Contribution(RedoAll(m, ops, lsn), op), lsn) == Redo(RedoAll(m, ops, lsn), op, lsn)
  {
    if op.Delete? && op.key !in RedoAll(m, ops, lsn) {
      assert ops + [] == ops;
    } else {
      RedoSnoc(m, ops, op, lsn);
    }
  }

  lemma {:induction false} EffectiveReplays(m: Store, ops: seq<Operation>, lsn: nat)
    ensures RedoAll(m, Effective(m, ops, lsn), lsn) == RedoAll(m, ops, lsn)
    decreases |ops|
  {
    if ops == [] {
    } else {
      var n := |ops| - 1;
      EffectiveReplays(m, ops[..n], lsn);
      RedoContribution(m, Effective(m, ops[..n], lsn), ops[n], lsn);
    }
  }

  lemma {:induction false} EffectiveHits(m: Store, ops: seq<Operation>, lsn: nat)
    ensures Hits(m, Effective(m, ops, lsn), lsn)
    decreases |ops|
  {
    if ops == [] {
    } else {
      var n := |ops| - 1;
      EffectiveHits(m, ops[..n], lsn);
      EffectiveReplays(m, ops[..n], lsn);
      HitsSnoc(m, Effective(m, ops[..n], lsn), ops[n], lsn);
    }
  }

  lemma {:induction false} EffectiveAddressable(m: Store, ops: seq<Operation>, lsn: nat)
    requires Addressable(ops)
    ensures Addressable(Effective(m, ops, lsn))
    decreases |ops|
  {
    if ops == [] {
    } else {
      EffectiveAddressable(m, ops[..|ops| - 1], lsn);
    }
  }

  lemma HitsSnoc(m: Store, ops: seq<Operation>, op: Operation, lsn: nat)
    requires Hits(m, ops, lsn)
    ensures Hits(m, ops + Contribution(RedoAll(m, ops, lsn), op), lsn)
  {
    var all := ops + Contribution(RedoAll(m, ops, lsn), op);
    forall i | 0 <= i < |all| ensures HitsAt(m, all, lsn, i) {
      if i < |ops| {
        assert HitsAt(m, ops, lsn, i);
        assert all[..i] == ops[..i];
      } else {
        assert all[..i] == ops;
      }
    }
  }

  // ----- Counting user keys -------------------------------------------------

  function UserKeys(m: Store): set<Key> {
    set k | k in m && !Reserved(k)
  }

  function UserDelta(m: Store, op: Operation): int {
    if Reserved(op.key) then 0
    else if op.Put? then (if op.key in m then 0 else 1)
    else (if op.key in m then -1 else 0)
  }

  lemma RedoUserKeys(m: Store, op: Operation, lsn: nat)
    ensures UserKeys(Redo(m, op, lsn)) ==
            if Reserved(op.key) then UserKeys(m) else if op.Put? then UserKeys(m) + {op.key} else UserKeys(m) - {op.key}
  {
    TombstoneShape(op.key);
  }

  lemma RedoCount(m: Store, op: Operation, lsn: nat)
    ensures |UserKeys(Redo(m, op, lsn))| == |UserKeys(m)| + UserDelta(m, op)
  {
    RedoUserKeys(m, op, lsn);
    var keys := UserKeys(m);
    if op.key in m {
      assert !Reserved(op.key) ==> keys + {op.key} == keys;
    } else {
      assert keys - {op.key} == keys;
    }
  }

  // ----- The planning loop --------------------------------------------------

  ghost predicate NoTombstones(m: Store) {
    forall k :: k in m ==> !IsTombstone(k)
  }

  /** What the overlay knows agrees with the state reached, and it knows every key
      the batch addresses; a tombstone it does not know does not exist. */
  ghost predicate Tracks(overlay: map<Key, bool>, m: Store, ops: seq<Operation>) {
    && (forall k :: k in overlay ==> overlay[k] == (k in m))
    && (forall i :: 0 <= i < |ops| ==> ops[i].key in overlay)
    && (forall i :: 0 <= i < |ops| && !Reserved(ops[i].key) ==> Known(overlay, m, TombstoneKey(ops[i].key)))
  }

  ghost predicate Known(overlay: map<Key, bool>, m: Store, k: Key) {
    k in overlay || k !in m
  }

  datatype Plan = Plan(mutations: seq<Edit>, logged: seq<Operation>, results: seq<OpResult>, userDelta: int,
                       overlay: map<Key, bool>, possible: bool)

  /** Every page mutation writes a logged operation's key, or that key's tombstone, and
      stamps it with the commit's revision. */
  ghost predicate OwnedBy(mutations: seq<Edit>, logged: seq<Operation>, revision: nat) {
    forall i :: 0 <= i < |mutations| ==> OwnedEdit(mutations[i], logged, revision)
  }

  ghost predicate OwnedEdit(e: Edit, logged: seq<Operation>, revision: nat) {
    && (e.change.Put? ==> e.change.revision == revision)
    && exists op :: op in logged && (e.key == op.key || (!Reserved(op.key) && e.key == TombstoneKey(op.key)))
  }

  ghost predicate PlannedTo(view: Store, ops: seq<Operation>, i: nat, revision: nat, p: Plan) {
    && i <= |ops| && |p.results| == i
    && ApplyEdits(view, p.mutations) == RedoAll(view, ops[..i], revision)
    && p.logged == Effective(view, ops[..i], revision)
    && OwnedBy(p.mutations, p.logged, revision)
    && (forall j :: 0 <= j < i ==> p.results[j] == ResultOf(view, ops, revision, j))
    && |UserKeys(RedoAll(view, ops[..i], revision))| == |UserKeys(view)| + p.userDelta
    && Tracks(p.overlay, RedoAll(view, ops[..i], revision), ops)
    && (!p.possible ==> NoTombstones(RedoAll(view, ops[..i], revision)))
  }

  /** The keys whose presence the batch must know: its own, and their tombstones
      unless none can exist. */
  function Wanted(ops: seq<Operation>, possible: bool): set<Key> {
    (set i | 0 <= i < |ops| :: ops[i].key) +
    (set i | 0 <= i < |ops| && possible && !Reserved(ops[i].key) :: TombstoneKey(ops[i].key))
  }

  lemma SeedTracks(view: Store, ops: seq<Operation>, possible: bool)
    requires !possible ==> NoTombstones(view)
    ensures Tracks(map k | k in Wanted(ops, possible) :: k in view, view, ops)
  {
    var overlay := map k | k in Wanted(ops, possible) :: k in view;
    forall i | 0 <= i < |ops| && !Reserved(ops[i].key) ensures Known(overlay, view, TombstoneKey(ops[i].key)) {
      TombstoneShape(ops[i].key);
    }
  }

  function PlanPut(p: Plan, key: Key, value: Value, revision: nat): Plan {
    var t := TombstoneKey(key);
    var clears := !Reserved(key) && p.possible && t in p.overlay && p.overlay[t];
    var cleared := if clears then p.overlay[t := false] else p.overlay;
    var existed := key in cleared && cleared[key];
    Plan((if clears then p.mutations + [Edit(t, Mutation.Delete)]
      else p.mutations) + [Edit(key, Mutation.Put(value, revision))],
         p.logged + [Operation.Put(key, value)],
         p.results + [PutDone],
         if !Reserved(key) && !existed then p.userDelta + 1 else p.userDelta,
         cleared[key := true],
         p.possible)
  }

  function PlanDelete(p: Plan, key: Key, revision: nat): Plan {
    var existed := key in p.overlay && p.overlay[key];
    if !existed then p.(results := p.results + [DeleteDone(false)])
    else if Reserved(key) then
      Plan(p.mutations + [Edit(key, Mutation.Delete)], p.logged + [Operation.Delete(key)],
        p.results + [DeleteDone(true)],
           p.userDelta, p.overlay[key := false], p.possible)
    else
      var t := TombstoneKey(key);
      Plan(p.mutations + [Edit(key, Mutation.Delete), Edit(t, Mutation.Put([], revision))],
           p.logged + [Operation.Delete(key)], p.results + [DeleteDone(true)],
           p.userDelta - 1, p.overlay[key := false][t := true], true)
  }

  predicate Reports(results: seq<OpResult>, view: Store, ops: seq<Operation>, lsn: nat) {
    |results| == |ops| && forall i :: 0 <= i < |ops| ==> results[i] == ResultOf(view, ops, lsn, i)
  }

  /** What a finished plan says about its batch. */
  ghost predicate PlanFor(view: Store, ops: seq<Operation>, revision: nat, p: Plan) {
    && p.logged == Effective(view, ops, revision) && Addressable(p.logged) && Hits(view, p.logged, revision)
    && RedoAll(view, p.logged, revision) == RedoAll(view, ops, revision) == ApplyEdits(view, p.mutations)
    && OwnedBy(p.mutations, p.logged, revision)
    && Reports(p.results, view, ops, revision)
    && |UserKeys(RedoAll(view, ops, revision))| == |UserKeys(view)| + p.userDelta
    && (!p.possible ==> NoTombstones(RedoAll(view, ops, revision)))
  }

  /** What planning starts from: the presence of every key the batch may need. */
  function Seed(view: Store, ops: seq<Operation>, possible: bool): Plan {
    Plan([], [], [], 0, map k | k in Wanted(ops, possible) :: k in view, possible)
  }

  function PlanAll(p: Plan, ops: seq<Operation>, revision: nat): Plan {
    if ops == [] then p else PlanNext(PlanAll(p, ops[..|ops| - 1], revision), ops[|ops| - 1], revision)
  }

  /** The plan the loop makes, whatever the view holds. */
  function Planned(view: Store, ops: seq<Operation>, revision: nat, possible: bool): Plan {
    PlanAll(Seed(view, ops, possible), ops, revision)
  }

  /** A batch logs nothing exactly when it only deletes keys that are not there, whatever the
      tombstone flag says. */
  lemma NothingLogged(view: Store, ops: seq<Operation>, revision: nat, possible: bool)
    ensures Planned(view, ops, revision, possible).logged == [] <==>
            forall i :: 0 <= i < |ops| ==> ops[i].Delete? && ops[i].key !in view
  {
    forall i | 0 <= i < |ops| ensures ops[i].key in Wanted(ops, possible) { }
    NothingLoggedTo(view, ops, |ops|, revision, possible);
    assert ops[..|ops|] == ops;
  }

  lemma {:induction false} NothingLoggedTo(view: Store, ops: seq<Operation>, i: nat, revision: nat, possible: bool)
    requires i <= |ops| && forall j :: 0 <= j < |ops| ==> ops[j].key in Wanted(ops, possible)
    ensures var p, seed := PlanAll(Seed(view, ops, possible), ops[..i], revision), Seed(view, ops, possible);
            && (p.logged == [] <==> forall j :: 0 <= j < i ==> ops[j].Delete? && ops[j].key !in view)
            && (p.logged == [] ==> p.overlay == seed.overlay)
    decreases i
  {
    hide Wanted;
    if i == 0 {
      assert ops[..0] == [];
    } else {
      NothingLoggedTo(view, ops, i - 1, revision, possible);
      assert ops[..i][..i - 1] == ops[..i - 1];
    }
  }

  /** While the tombstone flag is right, the page mutations take the view exactly where replaying
      the batch would; the logged operations replay to the same state and their deletes all hit;
      each result reports the state its operation met; and the change in the number of user
      keys is exact. */
  lemma PlannedIs(view: Store, ops: seq<Operation>, revision: nat, possible: bool)
    requires Addressable(ops) && (!possible ==> NoTombstones(view))
    ensures var p := Planned(view, ops, revision, possible);
            PlanFor(view, ops, revision, p) && (possible ==> p.possible)
  {
    hide PlannedTo;
    PlannedPrefix(view, ops, |ops|, revision, possible);
    assert ops[..|ops|] == ops;
    PlannedWhole(view, ops, revision, Planned(view, ops, revision, possible));
  }

  lemma {:induction false} PlannedPrefix(view: Store, ops: seq<Operation>, i: nat, revision: nat, possible: bool)
    requires Addressable(ops) && (!possible ==> NoTombstones(view)) && i <= |ops|
    ensures var p := PlanAll(Seed(view, ops, possible), ops[..i], revision);
            PlannedTo(view, ops, i, revision, p) && (possible ==> p.possible)
    decreases i
  {
    hide PlannedTo, PlanNext, Seed;
    if i == 0 {
      assert ops[..0] == [];
      SeedPlanned(view, ops, revision, possible);
    } else {
      PlannedPrefix(view, ops, i - 1, revision, possible);
      assert ops[..i][..i - 1] == ops[..i - 1];
      StaysPossible(PlanAll(Seed(view, ops, possible), ops[..i - 1], revision), ops[i - 1], revision);
      PlanStep(view, ops, i - 1, revision, PlanAll(Seed(view, ops, possible), ops[..i - 1], revision));
    }
  }

  lemma SeedPlanned(view: Store, ops: seq<Operation>, revision: nat, possible: bool)
    requires !possible ==> NoTombstones(view)
    ensures var p := Seed(view, ops, possible); PlannedTo(view, ops, 0, revision, p) && (possible ==> p.possible)
  {
    hide Wanted;
    assert ops[..0] == [];
    SeedTracks(view, ops, possible);
  }

  lemma StaysPossible(p: Plan, op: Operation, revision: nat)
    ensures p.possible ==> PlanNext(p, op, revision).possible
  {
  }

  lemma PlannedWhole(view: Store, ops: seq<Operation>, revision: nat, p: Plan)
    requires Addressable(ops) && PlannedTo(view, ops, |ops|, revision, p)
    ensures PlanFor(view, ops, revision, p)
  {
    assert ops[..|ops|] == ops;
    EffectiveReplays(view, ops, revision);
    EffectiveHits(view, ops, revision);
    EffectiveAddressable(view, ops, revision);
  }

  /** Plans a whole batch. */
  method PlanBatch(view: Store, ops: seq<Operation>, revision: nat, possible: bool) returns (p: Plan)
    requires Addressable(ops)
    ensures p == Planned(view, ops, revision, possible)
    ensures possible || NoTombstones(view) ==> PlanFor(view, ops, revision, p) && (possible ==> p.possible)
  {
    hide PlanFor, NoTombstones;
    p := Seed(view, ops, possible);
    assert ops[..0] == [];
    for i := 0 to |ops|
      invariant p == PlanAll(Seed(view, ops, possible), ops[..i], revision)
    {
      assert ops[..i + 1][..i] == ops[..i];
      match ops[i]
      case Put(key, value) => p := PlanPut(p, key, value, revision);
      case Delete(key) => p := PlanDelete(p, key, revision);
    }
    assert ops[..|ops|] == ops;
    if possible || NoTombstones(view) { PlannedIs(view, ops, revision, possible); }
  }

  function PlanNext(p: Plan, op: Operation, revision: nat): Plan {
    match op
    case Put(key, value) => PlanPut(p, key, value, revision)
    case Delete(key) => PlanDelete(p, key, revision)
  }

  lemma PlanStep(view: Store, ops: seq<Operation>, i: nat, revision: nat, p: Plan)
    requires Addressable(ops) && i < |ops| && PlannedTo(view, ops, i, revision, p)
    ensures PlannedTo(view, ops, i + 1, revision, PlanNext(p, ops[i], revision))
  {
    var m, op := RedoAll(view, ops[..i], revision), ops[i];
    assert ops[..i + 1][..i] == ops[..i];
    RedoCount(m, op, revision);
    StepMutations(view, m, ops, i, revision, p);
    StepTracks(m, ops, i, revision, p);
    StepReports(view, ops, i, revision, p);
    StepOwned(p, op, revision);
  }

  lemma StepOwned(p: Plan, op: Operation, revision: nat)
    requires OwnedBy(p.mutations, p.logged, revision)
    ensures OwnedBy(PlanNext(p, op, revision).mutations, PlanNext(p, op, revision).logged, revision)
  {
    var q := PlanNext(p, op, revision);
    forall i | 0 <= i < |q.mutations| ensures OwnedEdit(q.mutations[i], q.logged, revision) {
      if i < |p.mutations| {
        assert OwnedEdit(p.mutations[i], p.logged, revision);
      } else {
        assert op in q.logged;
      }
    }
  }

  lemma StepReports(view: Store, ops: seq<Operation>, i: nat, revision: nat, p: Plan)
    requires i < |ops| && PlannedTo(view, ops, i, revision, p)
    ensures var q := PlanNext(p, ops[i], revision);
            && q.logged == Effective(view, ops[..i + 1], revision)
            && q.results == p.results + [ResultOf(view, ops, revision, i)]
            && q.userDelta == p.userDelta + UserDelta(RedoAll(view, ops[..i], revision), ops[i])
  {
    var m, op := RedoAll(view, ops[..i], revision), ops[i];
    assert ops[..i + 1][..i] == ops[..i];
    TombstoneShape(op.key);
    assert op.key in p.overlay && p.overlay[op.key] == (op.key in m);
    assert p.logged + [] == p.logged;
  }

  lemma StepMutations(view: Store, m: Store, ops: seq<Operation>, i: nat, revision: nat, p: Plan)
    requires i < |ops| && ApplyEdits(view, p.mutations) == m && Tracks(p.overlay, m, ops)
    requires !p.possible ==> NoTombstones(m)
    ensures ApplyEdits(view, PlanNext(p, ops[i], revision).mutations) == Redo(m, ops[i], revision)
  {
    var t := TombstoneKey(ops[i].key);
    TombstoneShape(ops[i].key);
    match ops[i]
    case Put(key, value) => StepPut(view, m, key, value, revision, p);
    case Delete(key) => StepDelete(view, m, key, revision, p);
  }

  lemma StepPut(view: Store, m: Store, key: Key, value: Value, revision: nat, p: Plan)
    requires ApplyEdits(view, p.mutations) == m
    requires !Reserved(key) ==> var t := TombstoneKey(key);
               Known(p.overlay, m, t) && (t in p.overlay ==> p.overlay[t] == (t in m)) && (!p.possible ==> t !in m)
    ensures ApplyEdits(view, PlanPut(p, key, value, revision).mutations) == Redo(m, Operation.Put(key, value), revision)
  {
    var t, put := TombstoneKey(key), Edit(key, Mutation.Put(value, revision));
    TombstoneShape(key);
    if !Reserved(key) && t in m {
      var clear := Edit(t, Mutation.Delete);
      EditTwice(view, p.mutations, clear, put);
      assert p.mutations + [clear] + [put] == p.mutations + [clear, put];
      assert t != key && (m - {t})[key := Stamped(value, revision)] == m[key := Stamped(value, revision)] - {t};
    } else {
      EditOnce(view, p.mutations, put);
      assert !Reserved(key) ==>
               t != key && m[key := Stamped(value, revision)] - {t} == m[key := Stamped(value, revision)];
    }
  }

  lemma StepDelete(view: Store, m: Store, key: Key, revision: nat, p: Plan)
    requires ApplyEdits(view, p.mutations) == m && key in p.overlay && p.overlay[key] == (key in m)
    ensures ApplyEdits(view, PlanDelete(p, key, revision).mutations) == Redo(m, Operation.Delete(key), revision)
  {
    if key in m {
      if Reserved(key) {
        EditOnce(view, p.mutations, Edit(key, Mutation.Delete));
      } else {
        EditTwice(view, p.mutations, Edit(key, Mutation.Delete), Edit(TombstoneKey(key), Mutation.Put([], revision)));
      }
    }
  }

  lemma EditOnce(m: Store, edits: seq<Edit>, e: Edit)
    ensures ApplyEdits(m, edits + [e]) == Apply(ApplyEdits(m, edits), e.key, e.change)
  {
    assert (edits + [e])[..|edits|] == edits;
  }

  lemma EditTwice(m: Store, edits: seq<Edit>, e: Edit, f: Edit)
    ensures ApplyEdits(m, edits + [e, f]) == Apply(Apply(ApplyEdits(m, edits), e.key, e.change), f.key, f.change)
  {
    hide ApplyEdits, Apply;
    assert edits + [e] + [f] == edits + [e, f];
    EditOnce(m, edits, e);
    EditOnce(m, edits + [e], f);
  }

  lemma StepTracks(m: Store, ops: seq<Operation>, i: nat, revision: nat, p: Plan)
    requires i < |ops| && Addressable(ops) && Tracks(p.overlay, m, ops)
    requires !p.possible ==> NoTombstones(m)
    ensures var q := PlanNext(p, ops[i], revision);
            Tracks(q.overlay, Redo(m, ops[i], revision), ops) &&
              (!q.possible ==> NoTombstones(Redo(m, ops[i], revision)))
  {
    var op, q, after := ops[i], PlanNext(p, ops[i], revision), Redo(m, ops[i], revision);
    TombstoneShape(op.key);
    assert !Reserved(op.key) ==> Known(p.overlay, m, TombstoneKey(op.key));
    forall j | 0 <= j < |ops| && !Reserved(ops[j].key) ensures Known(q.overlay, after, TombstoneKey(ops[j].key)) {
      assert Known(p.overlay, m, TombstoneKey(ops[j].key));
      TombstoneShape(ops[j].key);
    }
  }
}
