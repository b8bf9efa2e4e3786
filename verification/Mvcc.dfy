/** Snapshot reads: the retained versions of each key, the coverage watermark that says
    which revisions are answerable, and the exact condition under which an answer is
    the state at the snapshot. */
module Mvcc {
  import opened Results
  import opened Keys
  import opened Stores
  import opened Replay
  import opened Revisions

  /** A retained version; no value is a retained delete. */
  datatype Version = Version(revision: nat, value: Option<Value>)

  type Histories = map<Key, seq<Version>>

  predicate Versioned(k: Key) {
    !(CHANGE_LOG_PREFIX <= k) && k != CHANGE_LOG_START_KEY
  }

  lemma UserKeysVersioned(k: Key)
    ensures !Versioned(k) ==> Reserved(k)
  {
    assert CHANGE_LOG_PREFIX[..6] == INTERNAL_PREFIX && CHANGE_LOG_START_KEY[..6] == INTERNAL_PREFIX;
  }

  function VersionsOf(h: Histories, k: Key): seq<Version> {
    if k in h then h[k] else []
  }

  /** The newest retained version at or below `r`. */
  function AtVersion(vs: seq<Version>, r: nat): Option<Value> {
    if vs == [] then None
    else if vs[|vs| - 1].revision <= r then vs[|vs| - 1].value
    else AtVersion(vs[..|vs| - 1], r)
  }

  /** A second version of one revision replaces the first. */
  function Push(vs: seq<Version>, v: Version): seq<Version> {
    if vs != [] && vs[|vs| - 1].revision == v.revision then vs[..|vs| - 1] + [v] else vs + [v]
  }

  /** The value a key holds at a revision. */
  ghost function ValueAt(log: seq<Record>, r: nat, k: Key): Option<Value>
    requires r <= |log|
  {
    ValueIn(StateAt(log, r), k)
  }

  function ValueIn(m: Store, k: Key): Option<Value> {
    if k in m then Some(m[k].value) else None
  }

  // ----- What the retained versions of one key mean -------------------------

  /** Ascending versions, each the key's state at a record that addressed it. */
  ghost predicate Retained(log: seq<Record>, k: Key, vs: seq<Version>) {
    && (forall i, j :: 0 <= i < j < |vs| ==> vs[i].revision < vs[j].revision)
    && (forall i :: 0 <= i < |vs| ==> IsState(log, k, vs[i]))
  }

  ghost predicate IsState(log: seq<Record>, k: Key, v: Version) {
    TouchedAt(log, k, v.revision) && v.value == ValueAt(log, v.revision, k)
  }

  /** Above the watermark the newest version is the newest write. */
  ghost predicate Newest(log: seq<Record>, k: Key, vs: seq<Version>, covered: nat) {
    TouchedAfter(log, k, covered) ==> vs != [] && !TouchedAfter(log, k, vs[|vs| - 1].revision)
  }

  /** Every covered revision a later write displaced is answered by the versions. */
  ghost predicate Answers(log: seq<Record>, k: Key, vs: seq<Version>, covered: nat) {
    forall r :: covered <= r <= |log| ==> AnswersAt(log, k, vs, r)
  }

  ghost predicate AnswersAt(log: seq<Record>, k: Key, vs: seq<Version>, r: nat)
    requires r <= |log|
  {
    TouchedAfter(log, k, r) ==> AtVersion(vs, r) == ValueAt(log, r, k)
  }

  /** A key that is absent now although its newest retained version holds a value: a
      commit without a snapshot deleted it and retained nothing. */
  ghost predicate Stale(log: seq<Record>, k: Key, vs: seq<Version>) {
    ValueAt(log, |log|, k).None? && vs != [] && vs[|vs| - 1].value.Some?
  }

  ghost predicate KeyOk(log: seq<Record>, k: Key, vs: seq<Version>, covered: nat) {
    Retained(log, k, vs) && Newest(log, k, vs, covered) && Answers(log, k, vs, covered)
  }

  // ----- Keys a record does not address -------------------------------------

  lemma {:induction false} UntouchedOps(m: Store, ops: seq<Operation>, lsn: nat, k: Key)
    requires Addressable(ops) && !Reserved(k) && !Touches(ops, k)
    ensures Lookup(RedoAll(m, ops, lsn), k) == Lookup(m, k)
    decreases |ops|
  {
    if ops == [] {
    } else {
      TouchesSnoc(ops, k);
      UntouchedOps(m, ops[..|ops| - 1], lsn, k);
      TombstoneShape(ops[|ops| - 1].key);
      TombstoneShape(k);
    }
  }

  lemma {:induction false} Unchanged(log: seq<Record>, k: Key, r: nat, l: nat)
    requires Faithful(log) && !Reserved(k) && r <= l <= |log| && !TouchedAfter(log, k, r)
    ensures Lookup(StateAt(log, l), k) == Lookup(StateAt(log, r), k)
    decreases l
  {
    if r < l {
      Unchanged(log, k, r, l - 1);
      assert FaithfulAt(log, l - 1);
      StateAtNext(log, l - 1);
      assert !TouchedAt(log, k, l);
      UntouchedOps(StateAt(log, l - 1), log[l - 1].ops, log[l - 1].lsn, k);
    }
  }

  // ----- A commit -----------------------------------------------------------

  /** What one commit adds to a key's versions: the pre-image, when the oldest snapshot
      still needs it and it is not retained yet, and then the new state. */
  function WithPrior(vs: seq<Version>, before: Option<Stamped>, oldest: nat): seq<Version> {
    if before.Some? && before.value.revision <= oldest && (vs == [] || vs[|vs| - 1].revision < before.value.revision)
    then Push(vs, Version(before.value.revision, Some(before.value.value)))
    else vs
  }

  lemma LogGrows(log: seq<Record>, rec: Record, k: Key, r: nat)
    requires r <= |log|
    ensures StateAt(log + [rec], r) == StateAt(log, r)
    ensures TouchedAfter(log + [rec], k, r) <==> TouchedAfter(log, k, r) || Touches(rec.ops, k)
    ensures forall l :: TouchedAt(log, k, l) ==> TouchedAt(log + [rec], k, l)
  {
    var longer := log + [rec];
    StateAtKept(log, longer, r);
    forall l: nat ensures TouchedAt(longer, k, l) <==> TouchedAt(log, k, l) || (l == |log| + 1 && Touches(rec.ops, k)) {
    }
    assert TouchedAt(longer, k, |log| + 1) <==> Touches(rec.ops, k);
  }

  /** The key's revision now is the last record that addressed it. */
  lemma LastTouch(log: seq<Record>, k: Key)
    requires Faithful(log) && !Reserved(k) && k in StateAt(log, |log|)
    ensures var rev := StateAt(log, |log|)[k].revision;
            && TouchedAt(log, k, rev) && !TouchedAfter(log, k, rev)
            && ValueAt(log, rev, k) == ValueAt(log, |log|, k)
  {
    var rev := StateAt(log, |log|)[k].revision;
    assert log[..|log|] == log;
    RevisionIsTouch(log, |log|, k, rev);
    Unchanged(log, k, rev, |log|);
  }

  /** With the pre-image retained, the versions end in the state before the commit. */
  lemma PriorKept(log: seq<Record>, k: Key, vs: seq<Version>, covered: nat, oldest: nat)
    requires Faithful(log) && !Reserved(k) && KeyOk(log, k, vs, covered) && covered <= oldest <= |log|
    ensures var before := Lookup(StateAt(log, |log|), k);
            var vs' := WithPrior(vs, before, oldest);
            && Retained(log, k, vs')
            && (before.Some? ==> vs' != [] && vs'[|vs'| - 1].revision == before.value.revision)
            && (before.None? ==> vs' == vs)
            && (vs' == vs || (before.Some? && vs' == vs + [Version(before.value.revision, Some(before.value.value))]))
  {
    hide StateAt, Answers, AtVersion, Touches, Faithful;
    var before := Lookup(StateAt(log, |log|), k);
    if before.Some? {
      var rev := before.value.revision;
      LastTouch(log, k);
      if vs != [] {
        assert IsState(log, k, vs[|vs| - 1]);
        assert vs[|vs| - 1].revision <= rev;
      }
      if rev > oldest {
        assert TouchedAfter(log, k, covered);
      } else {
        assert IsState(log, k, Version(rev, Some(before.value.value)));
      }
    }
  }

  lemma AtVersionPush(vs: seq<Version>, v: Version, r: nat)
    ensures AtVersion(vs + [v], r) == if v.revision <= r then v.value else AtVersion(vs, r)
  {
    assert (vs + [v])[..|vs|] == vs;
  }

  /** A commit made with a snapshot open keeps every covered revision answerable. */
  lemma CommitKey(log: seq<Record>, rec: Record, k: Key, vs: seq<Version>, covered: nat, oldest: nat)
    requires Faithful(log) && !Reserved(k) && Touches(rec.ops, k)
    requires KeyOk(log, k, vs, covered) && !Stale(log, k, vs) && covered <= oldest <= |log|
    ensures var longer := log + [rec];
            var vs' := Push(WithPrior(vs, Lookup(StateAt(log, |log|), k), oldest),
                Version(|longer|, ValueAt(longer, |longer|, k)));
            KeyOk(longer, k, vs', covered) && !Stale(longer, k, vs')
  {
    hide StateAt, Faithful, WithPrior, AtVersion, Touches, Lookup, Retained, IsState, Newest, Answers, Stale;
    var longer, before := log + [rec], Lookup(StateAt(log, |log|), k);
    var prior := WithPrior(vs, before, oldest);
    var latest := Version(|longer|, ValueAt(longer, |longer|, k));
    PriorKept(log, k, vs, covered, oldest);
    RetainedLonger(log, rec, k, prior);
    LatestIs(log, rec, k, prior, covered);
    assert Push(prior, latest) == prior + [latest];
    RetainedPush(longer, k, prior, latest);
    CommitAnswers(log, rec, k, vs, covered, oldest);
  }

  /** The new version is a true state, the newest, and not stale. */
  lemma LatestIs(log: seq<Record>, rec: Record, k: Key, prior: seq<Version>, covered: nat)
    requires Touches(rec.ops, k)
    ensures var longer := log + [rec];
            var latest := Version(|longer|, ValueAt(longer, |longer|, k));
            && IsState(longer, k, latest) && Newest(longer, k, prior + [latest], covered)
            && !Stale(longer, k, prior + [latest])
  {
    hide StateAt, Touches;
    LogGrows(log, rec, k, |log|);
    assert TouchedAt(log + [rec], k, |log| + 1);
  }

  lemma CommitAnswers(log: seq<Record>, rec: Record, k: Key, vs: seq<Version>, covered: nat, oldest: nat)
    requires Faithful(log) && !Reserved(k) && Touches(rec.ops, k)
    requires KeyOk(log, k, vs, covered) && !Stale(log, k, vs) && covered <= oldest <= |log|
    ensures var longer := log + [rec];
            var latest := Version(|longer|, ValueAt(longer, |longer|, k));
            Answers(longer, k, WithPrior(vs, Lookup(StateAt(log, |log|), k), oldest) + [latest], covered)
  {
    hide StateAt, Faithful, WithPrior, AtVersion, Touches, Lookup, KeyOk, Stale;
    var longer := log + [rec];
    var prior := WithPrior(vs, Lookup(StateAt(log, |log|), k), oldest);
    var latest := Version(|longer|, ValueAt(longer, |longer|, k));
    forall r | covered <= r <= |longer| ensures AnswersAt(longer, k, prior + [latest], r) {
      AtVersionPush(prior, latest, r);
      if r <= |log| {
        LogGrows(log, rec, k, r);
        PriorAnswers(log, k, vs, covered, oldest, r);
      }
    }
  }

  lemma RetainedLonger(log: seq<Record>, rec: Record, k: Key, vs: seq<Version>)
    requires Retained(log, k, vs)
    ensures Retained(log + [rec], k, vs) && (vs != [] ==> vs[|vs| - 1].revision <= |log|)
  {
    forall i | 0 <= i < |vs| ensures IsState(log + [rec], k, vs[i]) {
      assert IsState(log, k, vs[i]);
      LogGrows(log, rec, k, vs[i].revision);
    }
  }

  lemma PriorAnswers(log: seq<Record>, k: Key, vs: seq<Version>, covered: nat, oldest: nat, r: nat)
    requires Faithful(log) && !Reserved(k) && KeyOk(log, k, vs, covered) && !Stale(log, k, vs)
    requires covered <= oldest <= |log| && covered <= r <= |log|
    ensures AtVersion(WithPrior(vs, Lookup(StateAt(log, |log|), k), oldest), r) == ValueAt(log, r, k)
  {
    var before := Lookup(StateAt(log, |log|), k);
    var prior := WithPrior(vs, before, oldest);
    PriorKept(log, k, vs, covered, oldest);
    if before.Some? { LastTouch(log, k); }
    if TouchedAfter(log, k, r) {
      assert AnswersAt(log, k, vs, r);
      if prior != vs { AtVersionPush(vs, Version(before.value.revision, Some(before.value.value)), r); }
    } else {
      Unchanged(log, k, r, |log|);
      if prior != [] {
        assert IsState(log, k, prior[|prior| - 1]);
        assert prior[|prior| - 1].revision <= r;
      }
    }
  }

  /** A commit that does not address a key leaves what is known of it. */
  lemma KeyKept(log: seq<Record>, rec: Record, k: Key, vs: seq<Version>, covered: nat)
    requires Faithful(log) && Faithful(log + [rec]) && !Reserved(k) && !Touches(rec.ops, k)
    requires KeyOk(log, k, vs, covered) && covered <= |log|
    ensures KeyOk(log + [rec], k, vs, covered) && (Stale(log + [rec], k, vs) <==> Stale(log, k, vs))
  {
    var longer := log + [rec];
    RetainedLonger(log, rec, k, vs);
    LogGrows(log, rec, k, covered);
    LogGrows(log, rec, k, |log|);
    assert FaithfulAt(longer, |log|);
    StateAtNext(longer, |log|);
    UntouchedOps(StateAt(log, |log|), rec.ops, rec.lsn, k);
    if vs != [] {
      assert IsState(log, k, vs[|vs| - 1]);
      LogGrows(log, rec, k, vs[|vs| - 1].revision);
    }
    forall r | covered <= r <= |longer| ensures AnswersAt(longer, k, vs, r) {
      if r <= |log| {
        LogGrows(log, rec, k, r);
        assert AnswersAt(log, k, vs, r);
      }
    }
  }

  /** A commit made with no snapshot open retains nothing and covers only itself. */
  lemma KeyUncovered(log: seq<Record>, rec: Record, k: Key, vs: seq<Version>)
    requires Retained(log, k, vs)
    ensures KeyOk(log + [rec], k, vs, |log| + 1)
  {
    RetainedLonger(log, rec, k, vs);
    forall r | |log| + 1 <= r <= |log + [rec]| ensures AnswersAt(log + [rec], k, vs, r) {
    }
  }

  // ----- Collection ---------------------------------------------------------

  /** Drops every version older than the newest one at or below the floor. */
  function Trim(vs: seq<Version>, floor: nat): seq<Version> {
    if |vs| <= 1 then vs
    else if vs[1].revision <= floor then Trim(vs[1..], floor)
    else vs
  }

  /** At most one version at or below the floor is left. */
  lemma {:induction false} TrimmedShort(vs: seq<Version>, floor: nat)
    ensures |Trim(vs, floor)| >= 2 ==> Trim(vs, floor)[1].revision > floor
    decreases |vs|
  {
    if |vs| <= 1 {
    } else {
      TrimmedShort(vs[1..], floor);
    }
  }

  lemma {:induction false} TrimAnswers(vs: seq<Version>, floor: nat, r: nat)
    requires forall i, j :: 0 <= i < j < |vs| ==> vs[i].revision < vs[j].revision
    requires floor <= r
    ensures AtVersion(Trim(vs, floor), r) == AtVersion(vs, r)
    decreases |vs|
  {
    if |vs| > 1 && vs[1].revision <= floor {
      TrimAnswers(vs[1..], floor, r);
      DropFirst(vs, r);
    }
  }

  /** Trimming leaves a suffix that keeps the newest version. */
  lemma {:induction false} TrimSuffix(vs: seq<Version>, floor: nat) returns (n: nat)
    ensures n <= |vs| && Trim(vs, floor) == vs[n..] && (vs != [] ==> n < |vs|)
    decreases |vs|
  {
    n := 0;
    if |vs| > 1 && vs[1].revision <= floor {
      var m := TrimSuffix(vs[1..], floor);
      assert vs[1..][m..] == vs[m + 1..];
      n := m + 1;
    }
  }

  lemma {:induction false} DropFirst(vs: seq<Version>, r: nat)
    requires |vs| > 1 && vs[1].revision <= r
    ensures AtVersion(vs[1..], r) == AtVersion(vs, r)
    decreases |vs|
  {
    var n := |vs| - 1;
    assert vs[1..][..n - 1] == vs[..n][1..];
    if vs[n].revision > r { DropFirst(vs[..n], r); }
  }

  lemma TrimKept(log: seq<Record>, k: Key, vs: seq<Version>, covered: nat, floor: nat)
    requires KeyOk(log, k, vs, covered) && covered <= floor <= |log|
    ensures KeyOk(log, k, Trim(vs, floor), floor) && (Stale(log, k, Trim(vs, floor)) <==> Stale(log, k, vs))
  {
    hide Trim, AtVersion, IsState, TouchedAfter, ValueAt;
    var n := TrimSuffix(vs, floor);
    RetainedSuffix(log, k, vs, n);
    forall r | floor <= r <= |log| ensures AnswersAt(log, k, Trim(vs, floor), r) {
      TrimAnswers(vs, floor, r);
      assert AnswersAt(log, k, vs, r);
    }
    TouchedSooner(log, k, covered, floor);
  }

  lemma RetainedSuffix(log: seq<Record>, k: Key, vs: seq<Version>, n: nat)
    requires Retained(log, k, vs) && n <= |vs|
    ensures Retained(log, k, vs[n..])
  {
    hide IsState;
  }

  lemma TouchedSooner(log: seq<Record>, k: Key, a: nat, b: nat)
    requires a <= b
    ensures TouchedAfter(log, k, b) ==> TouchedAfter(log, k, a)
  {
    hide TouchedAt;
    if TouchedAfter(log, k, b) {
      var l: nat :| TouchedAt(log, k, l) && l > b;
    }
  }

  // ----- Recording one commit -----------------------------------------------

  function OpValue(op: Operation): Option<Value> {
    if op.Put? then Some(op.value) else None
  }

  /** What the last operation on `k` left. */
  function LastValue(ops: seq<Operation>, k: Key): Option<Value> {
    if ops == [] then None
    else if ops[|ops| - 1].key == k then OpValue(ops[|ops| - 1])
    else LastValue(ops[..|ops| - 1], k)
  }

  lemma {:induction false} LastValueIs(m: Store, ops: seq<Operation>, lsn: nat, k: Key)
    requires Addressable(ops) && !Reserved(k) && Touches(ops, k)
    ensures ValueIn(RedoAll(m, ops, lsn), k) == LastValue(ops, k)
    decreases |ops|
  {
    var n := |ops| - 1;
    TouchesSnoc(ops, k);
    TombstoneShape(ops[n].key);
    TombstoneShape(k);
    if ops[n].key != k {
      LastValueIs(m, ops[..n], lsn, k);
    }
  }

  /** A key's versions after a commit with the oldest snapshot at `oldest`. */
  function Maintained(vs: seq<Version>, before: Option<Stamped>, ops: seq<Operation>, oldest: nat, lsn: nat,
                      k: Key): seq<Version> {
    if Versioned(k) && Touches(ops, k) then Push(WithPrior(vs, before, oldest), Version(lsn, LastValue(ops, k))) else vs
  }

  function VersionedKeys(ops: seq<Operation>): set<Key> {
    set i | 0 <= i < |ops| && Versioned(ops[i].key) :: ops[i].key
  }

  method Maintain(h: Histories, view: Store, ops: seq<Operation>, oldest: nat, lsn: nat) returns (h': Histories)
    ensures forall k :: VersionsOf(h', k) == Maintained(VersionsOf(h, k), Lookup(view, k), ops, oldest, lsn, k)
  {
    var prior := RetainPriors(h, view, VersionedKeys(ops), oldest);
    h' := prior;
    for i := 0 to |ops|
      invariant forall k :: VersionsOf(h', k) == Staged(prior, ops[..i], lsn, k)
    {
      ghost var was := h';
      if Versioned(ops[i].key) {
        h' := h'[ops[i].key := Push(VersionsOf(h', ops[i].key), Version(lsn, OpValue(ops[i])))];
      }
      forall k ensures VersionsOf(h', k) == Staged(prior, ops[..i + 1], lsn, k) {
        assert VersionsOf(was, k) == Staged(prior, ops[..i], lsn, k);
        StageOne(prior, ops, i, lsn, k);
      }
    }
    assert ops[..|ops|] == ops;
    forall k ensures VersionsOf(h', k) == Maintained(VersionsOf(h, k), Lookup(view, k), ops, oldest, lsn, k) {
      InVersionedKeys(ops, k);
    }
  }

  lemma InVersionedKeys(ops: seq<Operation>, k: Key)
    ensures k in VersionedKeys(ops) <==> Versioned(k) && Touches(ops, k)
  {
  }

  function Staged(prior: Histories, ops: seq<Operation>, lsn: nat, k: Key): seq<Version> {
    if Versioned(k) && Touches(ops, k) then Push(VersionsOf(prior, k), Version(lsn, LastValue(ops, k)))
        else VersionsOf(prior, k)
  }

  lemma StageOne(prior: Histories, ops: seq<Operation>, i: nat, lsn: nat, k: Key)
    requires i < |ops|
    ensures Staged(prior, ops[..i + 1], lsn, k) ==
            if ops[i].key == k && Versioned(k) then Push(Staged(prior, ops[..i], lsn, k), Version(lsn, OpValue(ops[i])))
            else Staged(prior, ops[..i], lsn, k)
  {
    hide Push, Touches, LastValue;
    assert ops[..i + 1][..i] == ops[..i];
    TouchesSnoc(ops[..i + 1], k);
    LastValueSnoc(ops, i, k);
    if ops[i].key == k {
      PushTwice(VersionsOf(prior, k), lsn, LastValue(ops[..i], k), OpValue(ops[i]));
    }
  }

  lemma LastValueSnoc(ops: seq<Operation>, i: nat, k: Key)
    requires i < |ops|
    ensures LastValue(ops[..i + 1], k) == if ops[i].key == k then OpValue(ops[i]) else LastValue(ops[..i], k)
  {
    assert ops[..i + 1][..i] == ops[..i];
  }

  /** A second version of one commit replaces the first. */
  lemma PushTwice(vs: seq<Version>, lsn: nat, a: Option<Value>, b: Option<Value>)
    ensures Push(Push(vs, Version(lsn, a)), Version(lsn, b)) == Push(vs, Version(lsn, b))
  {
    var once := Push(vs, Version(lsn, a));
    assert once[|once| - 1] == Version(lsn, a);
    if vs != [] && vs[|vs| - 1].revision == lsn {
      assert once[..|once| - 1] == vs[..|vs| - 1];
    } else {
      assert once[..|once| - 1] == vs;
    }
  }

  /** Retains the pre-image of each key the commit writes. */
  method RetainPriors(h: Histories, view: Store, keys: set<Key>, oldest: nat) returns (h': Histories)
    ensures forall k :: VersionsOf(h', k) == if k in keys then WithPrior(VersionsOf(h, k), Lookup(view, k), oldest)
            else VersionsOf(h, k)
  {
    h' := h;
    var left := keys;
    while left != {}
      invariant left <= keys
      invariant forall k :: VersionsOf(h', k) ==
                  if k in keys && k !in left then WithPrior(VersionsOf(h, k), Lookup(view, k), oldest)
                      else VersionsOf(h, k)
      decreases |left|
    {
      var k :| k in left;
      var vs := WithPrior(VersionsOf(h', k), Lookup(view, k), oldest);
      if vs != [] {
        h' := h'[k := vs];
      }
      left := left - {k};
    }
  }

  // ----- The snapshot registry and its history ------------------------------

  ghost predicate AllOk(log: seq<Record>, h: Histories, covered: nat) {
    forall k :: !Reserved(k) ==> KeyOk(log, k, VersionsOf(h, k), covered)
  }

  ghost predicate AllRetained(log: seq<Record>, h: Histories) {
    forall k :: !Reserved(k) ==> Retained(log, k, VersionsOf(h, k))
  }

  ghost predicate NoneStale(log: seq<Record>, h: Histories) {
    forall k :: !Reserved(k) ==> !Stale(log, k, VersionsOf(h, k))
  }

  /** The record deletes a user key whose newest retained version holds a value. */
  ghost predicate Strands(log: seq<Record>, rec: Record, h: Histories) {
    exists k :: !Reserved(k) && Touches(rec.ops, k) && LastValue(rec.ops, k).None? && EndsInValue(VersionsOf(h, k))
  }

  /** Some user key is absent after the record although its newest retained version holds a value:
      the record deletes it, or it was so before and the record does not address it. */
  ghost predicate LeavesStale(log: seq<Record>, rec: Record, h: Histories) {
    exists k :: !Reserved(k) && StaleNext(log, rec, k, VersionsOf(h, k))
  }

  ghost predicate StaleNext(log: seq<Record>, rec: Record, k: Key, vs: seq<Version>) {
    if Touches(rec.ops, k) then LastValue(rec.ops, k).None? && EndsInValue(vs) else Stale(log, k, vs)
  }

  predicate EndsInValue(vs: seq<Version>) {
    vs != [] && vs[|vs| - 1].value.Some?
  }

  lemma StateAfter(log: seq<Record>, rec: Record, k: Key)
    requires Faithful(log + [rec]) && !Reserved(k) && Touches(rec.ops, k)
    ensures ValueAt(log + [rec], |log| + 1, k) == LastValue(rec.ops, k)
  {
    assert FaithfulAt(log + [rec], |log|);
    StateAtNext(log + [rec], |log|);
    LastValueIs(StateAt(log + [rec], |log|), rec.ops, rec.lsn, k);
  }

  /** With a snapshot open, a commit keeps every covered revision answerable and strands
      no key. */
  lemma TrackedCommit(log: seq<Record>, rec: Record, h: Histories, h': Histories, covered: nat, oldest: nat)
    requires Faithful(log) && Faithful(log + [rec]) && AllOk(log, h, covered) && NoneStale(log, h)
    requires covered <= oldest <= |log|
    requires forall k ::
               VersionsOf(h', k) ==
               Maintained(VersionsOf(h, k), Lookup(StateAt(log, |log|), k), rec.ops, oldest, |log| + 1, k)
    ensures AllOk(log + [rec], h', covered) && NoneStale(log + [rec], h')
  {
    hide KeyOk, Stale, Faithful, Touches, LastValue, StateAt, WithPrior;
    forall k | !Reserved(k)
      ensures KeyOk(log + [rec], k, VersionsOf(h', k), covered) && !Stale(log + [rec], k, VersionsOf(h', k))
    {
      UserKeysVersioned(k);
      if Touches(rec.ops, k) {
        StateAfter(log, rec, k);
        CommitKey(log, rec, k, VersionsOf(h, k), covered, oldest);
      } else {
        KeyKept(log, rec, k, VersionsOf(h, k), covered);
      }
    }
  }

  /** Without one, the new watermark is the commit itself, and the result is exact, whatever came
      before, when the commit leaves no key stale. */
  lemma UntrackedCommit(log: seq<Record>, rec: Record, h: Histories)
    requires Faithful(log) && Faithful(log + [rec]) && AllRetained(log, h)
    ensures AllOk(log + [rec], h, |log| + 1)
    ensures NoneStale(log + [rec], h) <==> !LeavesStale(log, rec, h)
    ensures NoneStale(log, h) ==> (LeavesStale(log, rec, h) <==> Strands(log, rec, h))
  {
    hide Faithful, Retained, KeyOk;
    forall k | !Reserved(k)
      ensures KeyOk(log + [rec], k, VersionsOf(h, k), |log| + 1)
      ensures Stale(log + [rec], k, VersionsOf(h, k)) <==> StaleNext(log, rec, k, VersionsOf(h, k))
    {
      assert Retained(log, k, VersionsOf(h, k));
      KeyUncovered(log, rec, k, VersionsOf(h, k));
      StaleStep(log, rec, k, VersionsOf(h, k));
    }
    hide Stale, StaleNext;
    if NoneStale(log, h) { StrandsNew(log, rec, h); }
  }

  lemma StaleStep(log: seq<Record>, rec: Record, k: Key, vs: seq<Version>)
    requires Faithful(log) && Faithful(log + [rec]) && !Reserved(k)
    ensures Stale(log + [rec], k, vs) <==> StaleNext(log, rec, k, vs)
  {
    hide Faithful, LastValue;
    var longer := log + [rec];
    if Touches(rec.ops, k) {
      StateAfter(log, rec, k);
    } else {
      assert FaithfulAt(longer, |log|) by { FaithfulLast(log, rec); }
      LogGrows(log, rec, k, |log|);
      StateAtNext(longer, |log|);
      UntouchedOps(StateAt(longer, |log|), rec.ops, rec.lsn, k);
    }
  }

  lemma FaithfulLast(log: seq<Record>, rec: Record)
    requires Faithful(log + [rec])
    ensures FaithfulAt(log + [rec], |log|)
  {
  }

  lemma StrandsNew(log: seq<Record>, rec: Record, h: Histories)
    requires NoneStale(log, h)
    ensures LeavesStale(log, rec, h) <==> Strands(log, rec, h)
  {
    if LeavesStale(log, rec, h) {
      var k :| !Reserved(k) && StaleNext(log, rec, k, VersionsOf(h, k));
      assert !Stale(log, k, VersionsOf(h, k));
    }
    if Strands(log, rec, h) {
      var k :| !Reserved(k) && Touches(rec.ops, k) && LastValue(rec.ops, k).None? && EndsInValue(VersionsOf(h, k));
      assert StaleNext(log, rec, k, VersionsOf(h, k));
    }
  }

  /** The hypothesis is needed in full: from any state with a stale key, opening a snapshot
      and writing the key makes the snapshot read the old value instead of nothing. */
  lemma StaleMisreads(log: seq<Record>, h: Histories, k: Key, v: Value)
    requires Faithful(log) && !Reserved(k) && Stale(log, k, VersionsOf(h, k)) && Retained(log, k, VersionsOf(h, k))
    ensures var r, rec := |log|, Record(|log| + 1, [Operation.Put(k, v)]);
            var vs := Maintained(VersionsOf(h, k), Lookup(StateAt(log, r), k), rec.ops, r, r + 1, k);
            && Faithful(log + [rec])
            && ValueAt(log + [rec], r, k).None? && AtVersion(vs, r).Some?
  {
    hide StateAt, Faithful;
    var r, rec, vs := |log|, Record(|log| + 1, [Operation.Put(k, v)]), VersionsOf(h, k);
    UserKeysVersioned(k);
    TombstoneShape(k);
    assert rec.ops[0].key == k && Touches(rec.ops, k);
    assert HitsAt(StateAt(log, r), rec.ops, rec.lsn, 0);
    FaithfulExtends(log, rec);
    LogGrows(log, rec, k, r);
    assert IsState(log, k, vs[|vs| - 1]);
    assert WithPrior(vs, Lookup(StateAt(log, r), k), r) == vs;
    AtVersionPush(vs, Version(r + 1, LastValue(rec.ops, k)), r);
  }

  class Snapshots {
    var histories: Histories
    var covered: nat
    var gcFloor: nat
    var open: multiset<nat>
    var lastLsn: nat
    ghost var log: seq<Record>

    /** What every run keeps: the versions are true states, and open revisions are covered. */
    ghost predicate Tracked()
      reads this
    {
      && Faithful(log) && lastLsn == |log| && gcFloor <= covered <= lastLsn && AllRetained(log, histories)
      && forall r :: r in open ==> covered <= r <= lastLsn
    }

    /** Every covered revision is answered exactly. */
    ghost predicate Valid()
      reads this
    {
      Tracked() && AllOk(log, histories, covered) && NoneStale(log, histories)
    }

    constructor ()
      ensures Valid() && log == [] && open == multiset{} && histories == map[] && covered == 0
    {
      histories, covered, gcFloor, open, lastLsn, log := map[], 0, 0, multiset{}, 0, [];
      new;
      forall k | !Reserved(k) ensures KeyOk(log, k, VersionsOf(histories, k), covered) {
        forall r | covered <= r <= |log| ensures AnswersAt(log, k, [], r) {
        }
      }
    }

    /** The oldest revision an open snapshot still needs. */
    method Oldest() returns (r: Option<nat>)
      ensures r.None? <==> open == multiset{}
      ensures r.Some? ==> r.value in open && forall x :: x in open ==> r.value <= x
    {
      if open == multiset{} {
        return None;
      }
      var m :| m in open;
      var rest := open - multiset{m};
      while rest != multiset{}
        invariant rest <= open && m in open
        invariant forall x :: x in open ==> m <= x || x in rest
        decreases |rest|
      {
        var x :| x in rest;
        if x < m { m := x; }
        rest := rest - multiset{x};
      }
      return Some(m);
    }

    method Register() returns (r: nat)
      requires Tracked()
      modifies this`open
      ensures Tracked() && (old(Valid()) ==> Valid()) && r == lastLsn && open == old(open) + multiset{r}
    {
      r := lastLsn;
      open := open + multiset{r};
    }

    /** Pins an explicit revision; an uncovered or future one is refused. */
    method RegisterAt(r: nat) returns (ok: bool)
      requires Tracked()
      modifies this`open
      ensures Tracked() && (old(Valid()) ==> Valid()) && (ok <==> covered <= r <= lastLsn)
      ensures open == if ok then old(open) + multiset{r} else old(open)
    {
      ok := covered <= r && r <= lastLsn;
      if ok {
        open := open + multiset{r};
      }
    }

    method Release(r: nat)
      requires Tracked()
      modifies this`open
      ensures Tracked() && (old(Valid()) ==> Valid()) && open == old(open) - multiset{r}
    {
      open := open - multiset{r};
    }

    /** A commit's history step. It can leave an exact registry inexact only by deleting, with
        no snapshot open, a key whose newest retained version holds a value. */
    method Commit(rec: Record, view: Store)
      requires Tracked() && Faithful(log + [rec]) && view == StateAt(log, |log|)
      modifies this`histories, this`covered, this`lastLsn, this`log
      ensures Tracked() && log == old(log) + [rec]
      ensures covered == if open != multiset{} then old(covered) else lastLsn
      ensures open == multiset{} ==> histories == old(histories)
      ensures forall k, r :: IsOldest(open, r) ==>
                VersionsOf(histories, k) ==
                  Maintained(VersionsOf(old(histories), k), Lookup(view, k), rec.ops, r, lastLsn, k)
      ensures old(Valid()) ==> AllOk(log, histories, covered)
      ensures old(Valid()) ==> (Valid() <==> open != multiset{} || !Strands(old(log), rec, old(histories)))
      ensures open == multiset{} ==> (Valid() <==> !LeavesStale(old(log), rec, old(histories)))
    {
      hide AllOk, NoneStale, Faithful, AllRetained, StateAt, Maintained, Strands, LeavesStale;
      var oldest := Oldest();
      if oldest.Some? {
        var h := Maintain(histories, view, rec.ops, oldest.value, lastLsn + 1);
        RetainedCommit(log, rec, histories, h, oldest.value);
        if Valid() { TrackedCommit(log, rec, histories, h, covered, oldest.value); }
        histories := h;
      } else {
        RetainedGrows(log, rec, histories);
        UntrackedCommit(log, rec, histories);
        covered := lastLsn + 1;
      }
      log := log + [rec];
      lastLsn := lastLsn + 1;
    }

    /** Collection keeps, for every key, what a read at or above the oldest snapshot can
        need; with no snapshot open it keeps nothing, and is then exact whatever came before. */
    method Collect()
      requires Tracked()
      modifies this`histories, this`covered, this`gcFloor
      ensures Tracked() && (open == multiset{} ==> histories == map[] && covered == lastLsn)
      ensures forall r: nat :: IsOldest(open, r) ==>
                histories == TrimAll(old(histories), r) && covered == if old(covered) < r then r else old(covered)
      ensures old(Valid()) || open == multiset{} ==> Valid()
      ensures forall r: nat, k :: IsOldest(open, r) && |VersionsOf(histories, k)| >= 2 ==>
                VersionsOf(histories, k)[1].revision > r
    {
      hide AllOk, NoneStale, Faithful, TrimAll, AllRetained;
      var oldest := Oldest();
      var floor := if oldest.Some? then oldest.value else lastLsn;
      RetainedTrim(log, histories, floor);
      NothingKept(log);
      if Valid() { CollectKeeps(log, histories, covered, floor); }
      if oldest.Some? {
        histories := TrimAll(histories, floor);
      } else {
        histories := map[];
      }
      TrimmedAll(old(histories), floor);
      gcFloor := if gcFloor < floor then floor else gcFloor;
      covered := if covered < floor then floor else covered;
    }
  }

  predicate IsOldest(open: multiset<nat>, r: nat) {
    r in open && forall x | x in open :: r <= x
  }

  lemma RetainedGrows(log: seq<Record>, rec: Record, h: Histories)
    requires AllRetained(log, h)
    ensures AllRetained(log + [rec], h)
  {
    hide Retained;
    forall k | !Reserved(k) ensures Retained(log + [rec], k, VersionsOf(h, k)) {
      RetainedLonger(log, rec, k, VersionsOf(h, k));
    }
  }

  /** Whatever a commit retains is a true state. */
  lemma RetainedCommit(log: seq<Record>, rec: Record, h: Histories, h': Histories, oldest: nat)
    requires Faithful(log) && Faithful(log + [rec]) && AllRetained(log, h)
    requires forall k ::
               VersionsOf(h', k) ==
               Maintained(VersionsOf(h, k), Lookup(StateAt(log, |log|), k), rec.ops, oldest, |log| + 1, k)
    ensures AllRetained(log + [rec], h')
  {
    hide Retained, Faithful, StateAt, Touches, LastValue, WithPrior, Push;
    forall k | !Reserved(k) ensures Retained(log + [rec], k, VersionsOf(h', k)) {
      RetainedLonger(log, rec, k, VersionsOf(h, k));
      if Touches(rec.ops, k) {
        RetainedMore(log, rec, k, VersionsOf(h, k), oldest);
      }
    }
  }

  lemma RetainedMore(log: seq<Record>, rec: Record, k: Key, vs: seq<Version>, oldest: nat)
    requires Faithful(log) && Faithful(log + [rec]) && !Reserved(k) && Touches(rec.ops, k) && Retained(log, k, vs)
    ensures Retained(log + [rec], k,
            Push(WithPrior(vs, Lookup(StateAt(log, |log|), k), oldest), Version(|log| + 1, LastValue(rec.ops, k))))
  {
    hide Faithful, StateAt, Touches, LastValue, Retained, IsState;
    var before, longer := Lookup(StateAt(log, |log|), k), log + [rec];
    var prior := WithPrior(vs, before, oldest);
    if prior != vs {
      PriorState(log, k);
      RetainedPush(log, k, vs, prior[|prior| - 1]);
    }
    RetainedLonger(log, rec, k, prior);
    LatestState(log, rec, k);
    RetainedPush(longer, k, prior, Version(|longer|, LastValue(rec.ops, k)));
  }

  lemma RetainedPush(log: seq<Record>, k: Key, vs: seq<Version>, v: Version)
    requires Retained(log, k, vs) && IsState(log, k, v) && (vs != [] ==> vs[|vs| - 1].revision < v.revision)
    ensures Retained(log, k, vs + [v])
  {
    hide IsState;
    forall i, j | 0 <= i < j < |vs + [v]| ensures (vs + [v])[i].revision < (vs + [v])[j].revision {
      assert j == |vs| && i < |vs| - 1 ==> vs[i].revision < vs[|vs| - 1].revision;
    }
  }

  lemma PriorState(log: seq<Record>, k: Key)
    requires Faithful(log) && !Reserved(k) && k in StateAt(log, |log|)
    ensures var s := StateAt(log, |log|)[k]; IsState(log, k, Version(s.revision, Some(s.value)))
  {
    hide Faithful, StateAt;
    LastTouch(log, k);
  }

  lemma LatestState(log: seq<Record>, rec: Record, k: Key)
    requires Faithful(log + [rec]) && !Reserved(k) && Touches(rec.ops, k)
    ensures IsState(log + [rec], k, Version(|log| + 1, LastValue(rec.ops, k)))
  {
    hide Faithful, StateAt, LastValue;
    StateAfter(log, rec, k);
    LogGrows(log, rec, k, |log|);
  }

  lemma RetainedTrim(log: seq<Record>, h: Histories, floor: nat)
    requires AllRetained(log, h)
    ensures AllRetained(log, TrimAll(h, floor))
  {
    hide Retained, Trim;
    forall k | !Reserved(k) ensures Retained(log, k, VersionsOf(TrimAll(h, floor), k)) {
      var n := TrimSuffix(VersionsOf(h, k), floor);
      assert VersionsOf(TrimAll(h, floor), k) == VersionsOf(h, k)[n..];
      RetainedSuffix(log, k, VersionsOf(h, k), n);
    }
  }

  lemma NothingKept(log: seq<Record>)
    ensures AllRetained(log, map[]) && AllOk(log, map[], |log|) && NoneStale(log, map[])
  {
    forall k ensures KeyOk(log, k, [], |log|) && !Stale(log, k, []) {
      EmptyOk(log, k);
    }
  }

  function TrimAll(h: Histories, floor: nat): Histories {
    map k | k in h :: Trim(h[k], floor)
  }

  lemma TrimmedAll(h: Histories, floor: nat)
    ensures forall k :: |VersionsOf(TrimAll(h, floor), k)| >= 2 ==> VersionsOf(TrimAll(h, floor), k)[1].revision > floor
  {
    forall k | |VersionsOf(TrimAll(h, floor), k)| >= 2 ensures VersionsOf(TrimAll(h, floor), k)[1].revision > floor {
      TrimmedShort(h[k], floor);
    }
  }

  lemma CollectKeeps(log: seq<Record>, h: Histories, covered: nat, floor: nat)
    requires AllOk(log, h, covered) && NoneStale(log, h) && covered <= floor <= |log|
    ensures AllOk(log, TrimAll(h, floor), floor) && NoneStale(log, TrimAll(h, floor))
  {
    hide KeyOk, Stale;
    forall k | !Reserved(k)
      ensures KeyOk(log, k, VersionsOf(TrimAll(h, floor), k), floor) && !Stale(log, k, VersionsOf(TrimAll(h, floor), k))
    {
      assert KeyOk(log, k, VersionsOf(h, k), covered) && !Stale(log, k, VersionsOf(h, k));
      TrimKept(log, k, VersionsOf(h, k), covered, floor);
      assert VersionsOf(TrimAll(h, floor), k) == Trim(VersionsOf(h, k), floor);
    }
  }

  lemma EmptyOk(log: seq<Record>, k: Key)
    ensures KeyOk(log, k, [], |log|) && !Stale(log, k, [])
  {
    forall r | |log| <= r <= |log| ensures AnswersAt(log, k, [], r) {
    }
  }
}
