/** Secondary indexes: entry keys that encode index, value and primary key injectively, and
    the batch check that keeps unique indexes unique. */
module Indexes {
  import opened Results
  import opened Keys
  import opened Bytes
  import opened Pages
  import opened Mutations
  import opened Stores
  import opened Windows
  import opened Overlays
  import opened Replay

  /** The bytes of "\0vyrn:index:entry:". */
  const ENTRY_BASE: Key := INTERNAL_PREFIX + [105, 110, 100, 101, 120, 58, 101, 110, 116, 114, 121, 58]

  predicate ValidName(name: Key) {
    0 < |name| < 0x1_0000
  }

  predicate ValidIndexValue(v: Value) {
    |v| < 0x1_0000_0000
  }

  function EntryPrefix(name: Key): Key {
    ENTRY_BASE + BigEndian(|name|, 2) + name
  }

  function ValuePrefix(name: Key, value: Value): Key {
    EntryPrefix(name) + U32(|value|) + value
  }

  function EntryKey(name: Key, value: Value, primary: Key): Key {
    ValuePrefix(name, value) + primary
  }

  // ----- The encoding is injective ------------------------------------------

  /** A length-prefixed field is determined by any string that starts with it. */
  lemma FieldUnique(a: Key, b: Key, width: nat, restA: Key, restB: Key)
    requires |a| < Pow256(width) && |b| < Pow256(width)
    requires BigEndian(|a|, width) + a + restA == BigEndian(|b|, width) + b + restB
    ensures a == b && restA == restB
  {
    hide BigEndian, ReadBigEndian, Pow256;
    var x, y := BigEndian(|a|, width), BigEndian(|b|, width);
    assert x + a + restA == x + (a + restA) && y + b + restB == y + (b + restB);
    SplitEqual(x, a + restA, y, b + restB);
    ReadBack(|a|, width);
    ReadBack(|b|, width);
    SplitEqual(a, restA, b, restB);
  }

  /** An entry key carries a value's prefix exactly when it files that value, and what
      follows the prefix is the primary key. */
  lemma EntryUnderPrefix(name: Key, value: Value, name': Key, value': Value, primary: Key)
    requires ValidName(name) && ValidName(name') && ValidIndexValue(value) && ValidIndexValue(value')
    ensures ValuePrefix(name, value) <= EntryKey(name', value', primary) <==> name == name' && value == value'
    ensures EntryKey(name, value, primary)[|ValuePrefix(name, value)|..] == primary
  {
    hide BigEndian;
    Widths();
    if ValuePrefix(name, value) <= EntryKey(name', value', primary) {
      var rest := EntryKey(name', value', primary)[|ValuePrefix(name, value)|..];
      assert EntryKey(name', value', primary) == ValuePrefix(name, value) + rest;
      SameEntry(name, value, rest, name', value', primary);
    }
  }

  lemma SameEntry(name: Key, value: Value, rest: Key, name': Key, value': Value, rest': Key)
    requires |name| < Pow256(2) && |name'| < Pow256(2) && |value| < Pow256(4) && |value'| < Pow256(4)
    requires ValuePrefix(name, value) + rest == ValuePrefix(name', value') + rest'
    ensures name == name' && value == value' && rest == rest'
  {
    hide BigEndian, Pow256;
    var n, n', v, v' := BigEndian(|name|, 2), BigEndian(|name'|, 2), U32(|value|), U32(|value'|);
    assert ValuePrefix(name, value) + rest == ENTRY_BASE + (n + name + (v + value + rest));
    assert ValuePrefix(name', value') + rest' == ENTRY_BASE + (n' + name' + (v' + value' + rest'));
    SplitEqual(ENTRY_BASE, n + name + (v + value + rest), ENTRY_BASE, n' + name' + (v' + value' + rest'));
    FieldUnique(name, name', 2, v + value + rest, v' + value' + rest');
    FieldUnique(value, value', 4, rest, rest');
  }

  lemma EntryKeyInjective(name: Key, value: Value, primary: Key, name': Key, value': Value, primary': Key)
    requires ValidName(name) && ValidName(name') && ValidIndexValue(value) && ValidIndexValue(value')
    requires EntryKey(name, value, primary) == EntryKey(name', value', primary')
    ensures name == name' && value == value' && primary == primary'
  {
    assert ValuePrefix(name, value) <= EntryKey(name, value, primary);
    EntryUnderPrefix(name, value, name', value', primary');
    EntryUnderPrefix(name, value, name, value, primary);
  }

  lemma EntryKeyPlain(name: Key, value: Value, primary: Key)
    ensures var k := EntryKey(name, value, primary); Reserved(k) && !IsTombstone(k) && !(CHANGE_LOG_PREFIX <= k)
  {
    var k := EntryKey(name, value, primary);
    assert ENTRY_BASE <= k && k[..18] == ENTRY_BASE;
    assert ENTRY_BASE[6] == 105 && TOMBSTONE_PREFIX[6] == 116 && CHANGE_LOG_PREFIX[6] == 99;
    assert k[6] == k[..18][6] && k[..6] == k[..18][..6];
  }

  // ----- Lookup -------------------------------------------------------------

  /** A bounded scan of the keyspace in key order. */
  method ScanStore(m: Store, lo: Option<Key>, hi: Option<Key>, limit: nat) returns (rows: seq<Entry>)
    ensures FirstRows(rows, limit, m, lo, hi, None)
  {
    var left := set k | k in m && Selected(k, lo, hi, None);
    rows := [];
    while left != {} && |rows| < limit
      invariant |rows| <= limit && Sorted(rows)
      invariant forall e :: e in rows ==> HoldsRow(m, e) && Selected(e.key, lo, hi, None)
      invariant forall k :: k in left ==> k in m && Selected(k, lo, hi, None)
      invariant forall e, k :: e in rows && k in left ==> Less(e.key, k)
      invariant forall k :: k in m && Selected(k, lo, hi, None) ==> k in left || HasKey(rows, k)
      decreases |left|
    {
      var k := Smallest(left);
      ghost var before := rows;
      rows, left := rows + [Entry(k, m[k].value, m[k].revision)], left - {k};
      forall q | q in m && Selected(q, lo, hi, None) ensures q in left || HasKey(rows, q) {
        if HasKey(before, q) {
          HasKeyMore(before, [rows[|before|]], q);
        } else if q == k {
          assert rows[|before|] in rows && rows[|before|].key == q;
        }
      }
    }
  }

  /** The primary keys filed under a value, in key order. */
  method LookupIndex(m: Store, name: Key, value: Value, limit: nat) returns (primaries: seq<Key>)
    ensures forall i, j :: 0 <= i < j < |primaries| ==> Less(primaries[i], primaries[j])
    ensures |primaries| <= limit && |primaries| <= |m| && forall p :: p in primaries ==> EntryKey(name, value, p) in m
    ensures |primaries| < limit ==> forall p :: EntryKey(name, value, p) in m ==> p in primaries
    ensures forall p :: EntryKey(name, value, p) in m && p !in primaries ==> forall q :: q in primaries ==> Less(q, p)
  {
    var prefix := ValuePrefix(name, value);
    var end := PrefixEnd(prefix);
    var rows := ScanStore(m, Some(prefix), end, limit);
    primaries := seq(|rows|, i requires 0 <= i < |rows| => Stripped(rows[i].key, |prefix|));
    RowsFit(rows, limit, m, Some(prefix), PrefixSuccessor(prefix), None);
    LookupExact(m, name, value, limit, rows, primaries);
  }

  function Stripped(k: Key, n: nat): Key {
    if n <= |k| then k[n..] else []
  }

  lemma LookupExact(m: Store, name: Key, value: Value, limit: nat, rows: seq<Entry>, primaries: seq<Key>)
    requires FirstRows(rows, limit, m, Some(ValuePrefix(name, value)), PrefixSuccessor(ValuePrefix(name, value)), None)
    requires |primaries| == |rows|
    requires forall i :: 0 <= i < |rows| ==>
               primaries[i] == Stripped(rows[i].key, |ValuePrefix(name, value)|)
    ensures forall i, j :: 0 <= i < j < |primaries| ==> Less(primaries[i], primaries[j])
    ensures forall p :: p in primaries ==> EntryKey(name, value, p) in m
    ensures |primaries| < limit ==> forall p :: EntryKey(name, value, p) in m ==> p in primaries
    ensures forall p :: EntryKey(name, value, p) in m && p !in primaries ==> forall q :: q in primaries ==> Less(q, p)
  {
    hide ValuePrefix;
    var prefix := ValuePrefix(name, value);
    forall i | 0 <= i < |rows| ensures rows[i].key == prefix + primaries[i] {
      assert rows[i] in rows;
      PrefixIsInterval(prefix, rows[i].key);
      assert rows[i].key == prefix + rows[i].key[|prefix|..];
    }
    forall i, j | 0 <= i < j < |primaries| ensures Less(primaries[i], primaries[j]) {
      LessUnderPrefix(prefix, primaries[i], primaries[j]);
    }
    forall p | EntryKey(name, value, p) in m && p !in primaries ensures PastEnd(rows, limit, prefix + p) {
      PrefixIsInterval(prefix, prefix + p);
      forall i | 0 <= i < |rows| ensures rows[i].key != prefix + p {
        if prefix + primaries[i] == prefix + p { SplitEqual(prefix, p, prefix, primaries[i]); }
      }
    }
    forall p, q | EntryKey(name, value, p) in m && p !in primaries && q in primaries ensures Less(q, p) {
      var i :| 0 <= i < |primaries| && primaries[i] == q;
      assert PastEnd(rows, limit, prefix + p);
      if i < limit - 1 { LessTransitive(rows[i].key, rows[limit - 1].key, prefix + p); }
      LessUnderPrefix(prefix, q, p);
    }
  }

  // ----- Indexed batches ----------------------------------------------------

  /** A primary key leaves one value of an index for another. */
  datatype IndexUpdate = IndexUpdate(index: Key, primary: Key, oldValue: Option<Value>, newValue: Option<Value>)

  datatype IndexError = IndexNotFound | UniqueViolation(index: Key, value: Value)

  predicate ValidUpdate(u: IndexUpdate) {
    && ValidName(u.index) && (u.oldValue.Some? ==> ValidIndexValue(u.oldValue.value))
    && (u.newValue.Some? ==> ValidIndexValue(u.newValue.value))
  }

  predicate Leaves(u: IndexUpdate, index: Key, value: Value, primary: Key) {
    u.oldValue != u.newValue && u.oldValue == Some(value) && u.index == index && u.primary == primary
  }

  predicate Enters(u: IndexUpdate, index: Key, value: Value) {
    u.oldValue != u.newValue && u.newValue == Some(value) && u.index == index
  }

  function UpdateOps(u: IndexUpdate): seq<Operation> {
    if u.oldValue == u.newValue then []
    else
      (if u.oldValue.Some? then [Operation.Delete(EntryKey(u.index, u.oldValue.value, u.primary))] else []) +
      (if u.newValue.Some? then [Operation.Put(EntryKey(u.index, u.newValue.value, u.primary), [])] else [])
  }

  function UpdatesOps(us: seq<IndexUpdate>): seq<Operation> {
    if us == [] then [] else UpdatesOps(us[..|us| - 1]) + UpdateOps(us[|us| - 1])
  }

  predicate Released(us: seq<IndexUpdate>, index: Key, value: Value, primary: Key) {
    exists i :: 0 <= i < |us| && Leaves(us[i], index, value, primary)
  }

  /** A unique value is claimed by one primary only, and every other key that holds it now
      gives it up in the same batch. */
  ghost predicate Claimable(m: Store, us: seq<IndexUpdate>, i: nat)
    requires i < |us|
  {
    us[i].oldValue != us[i].newValue && us[i].newValue.Some? ==>
      && (forall j :: 0 <= j < i && Enters(us[j], us[i].index, us[i].newValue.value) ==> us[j].primary == us[i].primary)
      && (forall q :: EntryKey(us[i].index, us[i].newValue.value, q) in m && q != us[i].primary ==>
            Released(us, us[i].index, us[i].newValue.value, q))
  }

  ghost predicate Accepts(m: Store, unique: map<Key, bool>, us: seq<IndexUpdate>) {
    && (forall i :: 0 <= i < |us| ==> us[i].index in unique)
    && (forall i :: 0 <= i < |us| && us[i].index in unique && unique[us[i].index] ==> Claimable(m, us, i))
  }

  /** Judges a batch of index updates and spells out its operations. It is accepted exactly
      when every index exists and every unique claim stands. */
  method PlanUpdates(m: Store, unique: map<Key, bool>, us: seq<IndexUpdate>)
      returns (r: Result<seq<Operation>, IndexError>)
    ensures r.Ok? <==> Accepts(m, unique, us)
    ensures r.Ok? ==> r.value == UpdatesOps(us)
  {
    hide Claimable, EntryKey;
    for i := 0 to |us|
      invariant forall j :: 0 <= j < i ==> us[j].index in unique
    {
      if us[i].index !in unique {
        return Err(IndexNotFound);
      }
    }
    var released := CollectReleased(us);
    var ops: seq<Operation> := [];
    var claims: map<(Key, Value), Key> := map[];
    for i := 0 to |us|
      invariant ops == UpdatesOps(us[..i]) && ClaimsOf(claims, unique, us[..i])
      invariant forall j :: 0 <= j < i && unique[us[j].index] ==> Claimable(m, us, j)
    {
      assert us[..i + 1][..i] == us[..i];
      var ok;
      ok, claims := Claim(m, unique, us, i, released, claims);
      if !ok {
        return Err(UniqueViolation(us[i].index, us[i].newValue.value));
      }
      ops := ops + UpdateOps(us[i]);
    }
    assert us[..|us|] == us;
    return Ok(ops);
  }

  method CollectReleased(us: seq<IndexUpdate>) returns (released: set<(Key, Value, Key)>)
    ensures forall x, v, p :: (x, v, p) in released <==> Released(us, x, v, p)
  {
    released := {};
    for i := 0 to |us|
      invariant forall x, v, p :: (x, v, p) in released <==> Released(us[..i], x, v, p)
    {
      ghost var before := released;
      if us[i].oldValue != us[i].newValue && us[i].oldValue.Some? {
        released := released + {(us[i].index, us[i].oldValue.value, us[i].primary)};
      }
      forall x, v, p ensures (x, v, p) in released <==> Released(us[..i + 1], x, v, p) {
        ReleasedSnoc(us, i, x, v, p);
      }
    }
    assert us[..|us|] == us;
  }

  lemma ReleasedSnoc(us: seq<IndexUpdate>, i: nat, x: Key, v: Value, p: Key)
    requires i < |us|
    ensures Released(us[..i + 1], x, v, p) <==> Released(us[..i], x, v, p) || Leaves(us[i], x, v, p)
  {
    var a, b := us[..i], us[..i + 1];
    assert forall j :: 0 <= j < i ==> a[j] == b[j];
    if Released(a, x, v, p) {
      var j :| 0 <= j < i && Leaves(a[j], x, v, p);
      assert Leaves(b[j], x, v, p);
    }
    assert b[i] == us[i];
  }

  /** The claims map remembers who entered each unique value. */
  ghost predicate ClaimsOf(claims: map<(Key, Value), Key>, unique: map<Key, bool>, us: seq<IndexUpdate>) {
    forall x, v :: x in unique && unique[x] ==> ClaimOf(claims, us, x, v)
  }

  ghost predicate ClaimOf(claims: map<(Key, Value), Key>, us: seq<IndexUpdate>, x: Key, v: Value) {
    && ((x, v) in claims ==> forall j :: 0 <= j < |us| && Enters(us[j], x, v) ==> us[j].primary == claims[(x, v)])
    && ((x, v) in claims ==> exists j :: 0 <= j < |us| && Enters(us[j], x, v))
    && ((x, v) !in claims ==> forall j :: 0 <= j < |us| ==> !Enters(us[j], x, v))
  }

  /** Judges one update's claim. */
  method Claim(m: Store, unique: map<Key, bool>, us: seq<IndexUpdate>, i: nat, released: set<(Key, Value, Key)>,
               before: map<(Key, Value), Key>)
    returns (ok: bool, claims: map<(Key, Value), Key>)
    requires i < |us| && us[i].index in unique && ClaimsOf(before, unique, us[..i])
    requires forall x, v, p :: (x, v, p) in released <==> Released(us, x, v, p)
    ensures ok <==> (unique[us[i].index] ==> Claimable(m, us, i))
    ensures !ok ==> us[i].newValue.Some?
    ensures ok ==> ClaimsOf(claims, unique, us[..i + 1])
  {
    var u := us[i];
    claims := before;
    if u.oldValue == u.newValue || u.newValue.None? || !unique[u.index] {
      ClaimsKept(before, unique, us, i);
      return true, claims;
    }
    var v := u.newValue.value;
    ClaimsGrow(before, unique, us, i, v);
    if (u.index, v) in before && before[(u.index, v)] != u.primary {
      return false, claims;
    }
    claims := claims[(u.index, v) := u.primary];
    var existing := LookupIndex(m, u.index, v, |m| + 1);
    ok := forall p | p in existing :: p == u.primary || (u.index, v, p) in released;
  }

  lemma ClaimsKept(claims: map<(Key, Value), Key>, unique: map<Key, bool>, us: seq<IndexUpdate>, i: nat)
    requires i < |us| && ClaimsOf(claims, unique, us[..i])
    requires us[i].oldValue == us[i].newValue || us[i].newValue.None? || (us[i].index in unique && !unique[us[i].index])
    ensures ClaimsOf(claims, unique, us[..i + 1])
  {
    var a, b := us[..i], us[..i + 1];
    assert b[i] == us[i] && forall j :: 0 <= j < i ==> a[j] == b[j];
    forall x, v | x in unique && unique[x] ensures ClaimOf(claims, b, x, v) {
      assert ClaimOf(claims, a, x, v);
      if (x, v) in claims {
        var j :| 0 <= j < |a| && Enters(a[j], x, v);
        assert Enters(b[j], x, v);
      }
    }
  }

  lemma ClaimsGrow(claims: map<(Key, Value), Key>, unique: map<Key, bool>, us: seq<IndexUpdate>, i: nat, v: Value)
    requires i < |us| && ClaimsOf(claims, unique, us[..i]) && us[i].index in unique && unique[us[i].index]
    requires us[i].oldValue != us[i].newValue && us[i].newValue == Some(v)
    ensures var x := us[i].index;
            (forall j :: 0 <= j < i && Enters(us[j], x, v) ==> us[j].primary == us[i].primary) <==>
            ((x, v) !in claims || claims[(x, v)] == us[i].primary)
    ensures var x := us[i].index;
            (x, v) !in claims || claims[(x, v)] == us[i].primary ==>
                ClaimsOf(claims[(x, v) := us[i].primary], unique, us[..i + 1])
  {
    var a, b, x := us[..i], us[..i + 1], us[i].index;
    assert b[i] == us[i] && forall j :: 0 <= j < i ==> a[j] == b[j] == us[j];
    assert ClaimOf(claims, a, x, v);
    if (x, v) in claims {
      var j :| 0 <= j < |a| && Enters(a[j], x, v);
      assert Enters(us[j], x, v);
    }
    var more := claims[(x, v) := us[i].primary];
    if (x, v) !in claims || claims[(x, v)] == us[i].primary {
      forall y, w | y in unique && unique[y] ensures ClaimOf(more, b, y, w) {
        assert ClaimOf(claims, a, y, w);
        if (y, w) == (x, v) {
          assert Enters(b[i], x, v);
        } else if (y, w) in claims {
          var j :| 0 <= j < |a| && Enters(a[j], y, w);
          assert Enters(b[j], y, w);
        }
      }
    }
  }

  // ----- Unique stays unique ------------------------------------------------

  /** What the last operation on `k` was: a put, a delete, or none. */
  function LastOn(ops: seq<Operation>, k: Key): Option<bool> {
    if ops == [] then None
    else if ops[|ops| - 1].key == k then Some(ops[|ops| - 1].Put?)
    else LastOn(ops[..|ops| - 1], k)
  }

  lemma {:induction false} PresentAfter(m: Store, ops: seq<Operation>, lsn: nat, k: Key)
    requires !IsTombstone(k)
    ensures k in RedoAll(m, ops, lsn) <==> if LastOn(ops, k).Some? then LastOn(ops, k).value else k in m
    ensures LastOn(ops, k).None? ==> Lookup(RedoAll(m, ops, lsn), k) == Lookup(m, k)
    decreases |ops|
  {
    if ops == [] {
    } else {
      var n := |ops| - 1;
      PresentAfter(m, ops[..n], lsn, k);
      TombstoneShape(ops[n].key);
    }
  }

  lemma {:induction false} LastOnConcat(a: seq<Operation>, b: seq<Operation>, k: Key)
    ensures LastOn(a + b, k) == if LastOn(b, k).Some? then LastOn(b, k) else LastOn(a, k)
    decreases |b|
  {
    if b == [] {
      assert a + b == a;
    } else {
      assert (a + b)[..|a + b| - 1] == a + b[..|b| - 1];
      LastOnConcat(a, b[..|b| - 1], k);
    }
  }

  lemma {:induction false} RedoAllConcat(m: Store, a: seq<Operation>, b: seq<Operation>, lsn: nat)
    ensures RedoAll(m, a + b, lsn) == RedoAll(RedoAll(m, a, lsn), b, lsn)
    decreases |b|
  {
    if b == [] {
      assert a + b == a;
    } else {
      assert (a + b)[..|a + b| - 1] == a + b[..|b| - 1];
      RedoAllConcat(m, a, b[..|b| - 1], lsn);
    }
  }

  lemma {:induction false} NotOn(ops: seq<Operation>, k: Key)
    requires forall j :: 0 <= j < |ops| ==> ops[j].key != k
    ensures LastOn(ops, k) == None
    decreases |ops|
  {
    if ops == [] {
    } else {
      NotOn(ops[..|ops| - 1], k);
    }
  }

  lemma {:induction false} DeletedOn(ops: seq<Operation>, k: Key)
    requires forall j :: 0 <= j < |ops| ==> ops[j].Delete?
    requires exists j :: 0 <= j < |ops| && ops[j].key == k
    ensures LastOn(ops, k) == Some(false)
    decreases |ops|
  {
    var n := |ops| - 1;
    if ops[n].key != k {
      var j :| 0 <= j < |ops| && ops[j].key == k;
      assert ops[..n][j].key == k;
      DeletedOn(ops[..n], k);
    }
  }

  predicate EntersFor(us: seq<IndexUpdate>, x: Key, v: Value, p: Key) {
    exists i :: 0 <= i < |us| && Enters(us[i], x, v) && us[i].primary == p
  }

  lemma OneUpdateOn(u: IndexUpdate, x: Key, v: Value, p: Key)
    requires ValidUpdate(u) && ValidName(x) && ValidIndexValue(v)
    ensures LastOn(UpdateOps(u), EntryKey(x, v, p)) ==
            if Enters(u, x, v) && u.primary == p then Some(true) else if Leaves(u, x, v, p) then Some(false) else None
  {
    hide EntryKey;
    var k := EntryKey(x, v, p);
    if u.oldValue == u.newValue {
      return;
    }
    if u.oldValue.Some? { SameEntryKey(u.index, u.oldValue.value, u.primary, x, v, p); }
    if u.newValue.Some? { SameEntryKey(u.index, u.newValue.value, u.primary, x, v, p); }
    var left: seq<Operation> := if u.oldValue.Some? then [Operation.Delete(EntryKey(u.index, u.oldValue.value,
        u.primary))] else [];
    LastOfOne(left, k);
    if u.newValue.Some? {
      var put := Operation.Put(EntryKey(u.index, u.newValue.value, u.primary), []);
      assert (left + [put])[..|left|] == left;
    } else {
      assert left + [] == left;
    }
  }

  lemma SameEntryKey(x: Key, v: Value, p: Key, x': Key, v': Value, p': Key)
    requires ValidName(x) && ValidName(x') && ValidIndexValue(v) && ValidIndexValue(v')
    ensures EntryKey(x, v, p) == EntryKey(x', v', p') <==> x == x' && v == v' && p == p'
  {
    if EntryKey(x, v, p) == EntryKey(x', v', p') { EntryKeyInjective(x, v, p, x', v', p'); }
  }

  lemma LastOfOne(ops: seq<Operation>, k: Key)
    requires |ops| <= 1
    ensures LastOn(ops, k) == if ops != [] && ops[0].key == k then Some(ops[0].Put?) else None
  {
    assert |ops| == 1 ==> ops[..0] == [];
  }

  /** The last operation on an entry tells whether some update entered or left it. */
  lemma {:induction false} UpdatesOn(us: seq<IndexUpdate>, x: Key, v: Value, p: Key)
    requires ValidName(x) && ValidIndexValue(v) && forall i :: 0 <= i < |us| ==> ValidUpdate(us[i])
    ensures var last := LastOn(UpdatesOps(us), EntryKey(x, v, p));
            && (last == Some(true) ==> EntersFor(us, x, v, p))
            && (last == Some(false) ==> Released(us, x, v, p))
            && (last.None? ==> !EntersFor(us, x, v, p) && !Released(us, x, v, p))
    decreases |us|
  {
    hide EntryKey, UpdateOps, LastOn;
    if us == [] {
      NoneOn(EntryKey(x, v, p));
    } else {
      var n := |us| - 1;
      UpdatesOn(us[..n], x, v, p);
      OneUpdateOn(us[n], x, v, p);
      LastOnConcat(UpdatesOps(us[..n]), UpdateOps(us[n]), EntryKey(x, v, p));
      assert us[..n + 1] == us;
      ReleasedSnoc(us, n, x, v, p);
      EntersSnoc(us, n, x, v, p);
    }
  }

  lemma NoneOn(k: Key)
    ensures LastOn([], k) == None
  {
  }

  lemma EntersSnoc(us: seq<IndexUpdate>, n: nat, x: Key, v: Value, p: Key)
    requires n + 1 == |us|
    ensures EntersFor(us, x, v, p) <==> EntersFor(us[..n], x, v, p) || (Enters(us[n], x, v) && us[n].primary == p)
  {
    var a := us[..n];
    if EntersFor(a, x, v, p) {
      var j :| 0 <= j < n && Enters(a[j], x, v) && a[j].primary == p;
      assert Enters(us[j], x, v);
    }
    if EntersFor(us, x, v, p) && !(Enters(us[n], x, v) && us[n].primary == p) {
      var j :| 0 <= j < |us| && Enters(us[j], x, v) && us[j].primary == p;
      assert Enters(a[j], x, v);
    }
  }

  /** At most one primary per value. */
  ghost predicate UniqueIn(m: Store, x: Key) {
    forall v, p, q :: ValidIndexValue(v) && EntryKey(x, v, p) in m && EntryKey(x, v, q) in m ==> p == q
  }

  /** No entry of the index appears that was not there before. */
  ghost predicate NoNewEntries(m: Store, m1: Store, x: Key) {
    forall v, p :: EntryKey(x, v, p) in m1 ==> EntryKey(x, v, p) in m
  }

  /** Every accepted batch keeps a unique index unique: moves and swaps inside one batch
      included, since releases anywhere in the batch count. The batch's own operations run
      first and may only remove entries. */
  lemma AcceptedKeepsUnique(m: Store, m1: Store, unique: map<Key, bool>, us: seq<IndexUpdate>, lsn: nat, x: Key)
    requires Accepts(m, unique, us) && (forall i :: 0 <= i < |us| ==> ValidUpdate(us[i]))
    requires ValidName(x) && x in unique && unique[x] && UniqueIn(m, x) && NoNewEntries(m, m1, x)
    ensures UniqueIn(RedoAll(m1, UpdatesOps(us), lsn), x)
  {
    hide EntryKey, UpdatesOps, LastOn, RedoAll, Claimable;
    var after := RedoAll(m1, UpdatesOps(us), lsn);
    forall v, p, q | ValidIndexValue(v) && EntryKey(x, v, p) in after && EntryKey(x, v, q) in after ensures p == q {
      EntryAfter(m, m1, us, lsn, x, v, p);
      EntryAfter(m, m1, us, lsn, x, v, q);
      if EntersFor(us, x, v, p) {
        OneClaimant(m, unique, us, x, v, p, q);
      } else if EntersFor(us, x, v, q) {
        OneClaimant(m, unique, us, x, v, q, p);
      }
    }
  }

  lemma EntryAfter(m: Store, m1: Store, us: seq<IndexUpdate>, lsn: nat, x: Key, v: Value, p: Key)
    requires (forall i :: 0 <= i < |us| ==> ValidUpdate(us[i])) && ValidName(x) && ValidIndexValue(v)
    requires NoNewEntries(m, m1, x)
    requires EntryKey(x, v, p) in RedoAll(m1, UpdatesOps(us), lsn)
    ensures EntersFor(us, x, v, p) || (EntryKey(x, v, p) in m && !Released(us, x, v, p))
  {
    hide EntryKey, UpdatesOps, LastOn, RedoAll;
    EntryKeyPlain(x, v, p);
    PresentAfter(m1, UpdatesOps(us), lsn, EntryKey(x, v, p));
    UpdatesOn(us, x, v, p);
  }

  /** When some update enters a value for `p`, any other holder must have left it. */
  lemma OneClaimant(m: Store, unique: map<Key, bool>, us: seq<IndexUpdate>, x: Key, v: Value, p: Key, q: Key)
    requires Accepts(m, unique, us) && x in unique && unique[x] && EntersFor(us, x, v, p)
    ensures EntersFor(us, x, v, q) ==> p == q
    ensures EntryKey(x, v, q) in m && q != p ==> Released(us, x, v, q)
  {
    hide EntryKey;
    var i :| 0 <= i < |us| && Enters(us[i], x, v) && us[i].primary == p;
    assert Claimable(m, us, i);
    if EntersFor(us, x, v, q) {
      var j :| 0 <= j < |us| && Enters(us[j], x, v) && us[j].primary == q;
      assert Claimable(m, us, j);
    }
  }

  // ----- Nothing is refused that would stay unique --------------------------

  /** No two updates speak for the same key of the same index. */
  ghost predicate OneEach(us: seq<IndexUpdate>) {
    forall i, j :: 0 <= i < j < |us| ==> us[i].index != us[j].index || us[i].primary != us[j].primary
  }

  /** What an update enters is there afterwards. */
  lemma EnteredStays(m: Store, us: seq<IndexUpdate>, lsn: nat, i: nat)
    requires i < |us| && OneEach(us) && (forall j :: 0 <= j < |us| ==> ValidUpdate(us[j]))
    requires us[i].oldValue != us[i].newValue && us[i].newValue.Some?
    ensures EntryKey(us[i].index, us[i].newValue.value, us[i].primary) in RedoAll(m, UpdatesOps(us), lsn)
  {
    hide EntryKey, UpdatesOps, LastOn, RedoAll;
    var x, v, p := us[i].index, us[i].newValue.value, us[i].primary;
    EntryKeyPlain(x, v, p);
    PresentAfter(m, UpdatesOps(us), lsn, EntryKey(x, v, p));
    UpdatesOn(us, x, v, p);
    assert Enters(us[i], x, v);
  }

  /** What no update leaves is there afterwards. */
  lemma UnreleasedStays(m: Store, us: seq<IndexUpdate>, lsn: nat, x: Key, v: Value, q: Key)
    requires ValidName(x) && ValidIndexValue(v) && forall j :: 0 <= j < |us| ==> ValidUpdate(us[j])
    requires EntryKey(x, v, q) in m && !Released(us, x, v, q)
    ensures EntryKey(x, v, q) in RedoAll(m, UpdatesOps(us), lsn)
  {
    hide EntryKey, UpdatesOps, LastOn, RedoAll;
    EntryKeyPlain(x, v, q);
    PresentAfter(m, UpdatesOps(us), lsn, EntryKey(x, v, q));
    UpdatesOn(us, x, v, q);
  }

  /** A claim that leaves its index unique stands. */
  lemma UniqueClaim(m: Store, us: seq<IndexUpdate>, lsn: nat, i: nat)
    requires i < |us| && OneEach(us) && (forall j :: 0 <= j < |us| ==> ValidUpdate(us[j]))
    requires UniqueIn(RedoAll(m, UpdatesOps(us), lsn), us[i].index)
    ensures Claimable(m, us, i)
  {
    hide EntryKey, UpdatesOps, RedoAll, OneEach;
    if us[i].oldValue != us[i].newValue && us[i].newValue.Some? {
      var x, v, p := us[i].index, us[i].newValue.value, us[i].primary;
      EnteredStays(m, us, lsn, i);
      forall j | 0 <= j < i && Enters(us[j], x, v) ensures us[j].primary == p {
        EnteredStays(m, us, lsn, j);
      }
      forall q | EntryKey(x, v, q) in m && q != p ensures Released(us, x, v, q) {
        if !Released(us, x, v, q) { UnreleasedStays(m, us, lsn, x, v, q); }
      }
    }
  }

  /** From unique indexes, a batch with one update for each key is accepted exactly when every index
      exists and every unique index is unique in the map the batch leaves: moves, swaps and every
      other rearrangement of values among their holders included. */
  lemma AcceptsExactly(m: Store, unique: map<Key, bool>, us: seq<IndexUpdate>, lsn: nat)
    requires OneEach(us) && forall j :: 0 <= j < |us| ==> ValidUpdate(us[j])
    requires forall x :: x in unique && unique[x] ==> ValidName(x) && UniqueIn(m, x)
    ensures Accepts(m, unique, us) <==>
            && (forall i :: 0 <= i < |us| ==> us[i].index in unique)
            && forall x :: x in unique && unique[x] ==> UniqueIn(RedoAll(m, UpdatesOps(us), lsn), x)
  {
    hide UpdatesOps, RedoAll, OneEach, UniqueIn, Claimable, ValidUpdate;
    if Accepts(m, unique, us) {
      forall x | x in unique && unique[x] ensures UniqueIn(RedoAll(m, UpdatesOps(us), lsn), x) {
        AcceptedKeepsUnique(m, m, unique, us, lsn, x);
      }
    }
    if (forall i :: 0 <= i < |us| ==> us[i].index in unique) &&
       forall x :: x in unique && unique[x] ==> UniqueIn(RedoAll(m, UpdatesOps(us), lsn), x) {
      forall i | 0 <= i < |us| && unique[us[i].index] ensures Claimable(m, us, i) {
        UniqueClaim(m, us, lsn, i);
      }
    }
  }

  /** Two holders of a unique index swap their values in one batch. */
  lemma SwapAccepted(m: Store, x: Key, p: Key, v: Value, q: Key, w: Value)
    requires UniqueIn(m, x) && EntryKey(x, v, p) in m && EntryKey(x, w, q) in m && p != q && v != w
    requires ValidIndexValue(v) && ValidIndexValue(w)
    ensures Accepts(m, map[x := true], [IndexUpdate(x, p, Some(v), Some(w)), IndexUpdate(x, q, Some(w), Some(v))])
  {
    hide EntryKey;
    var us := [IndexUpdate(x, p, Some(v), Some(w)), IndexUpdate(x, q, Some(w), Some(v))];
    assert Leaves(us[0], x, v, p) && Leaves(us[1], x, w, q);
  }
}
