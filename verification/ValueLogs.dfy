/** The value log: spilled values as framed records, read one by one or in coalesced runs,
    through a cache of validated values. */
module ValueLogs {
  import opened Results
  import opened Keys
  import opened Bytes
  import opened Caches

  /** The bytes of "VVAL" and "VEND". */
  const VALUE_MAGIC: seq<Byte> := [86, 86, 65, 76]
  const VALUE_END: seq<Byte> := [86, 69, 78, 68]
  const VALUE_VERSION: Byte := 1
  const VALUE_HEADER_LEN := 24
  const VALUE_FOOTER_LEN := 8
  const MAX_COALESCED_READ := 1048576

  datatype ValueRef = ValueRef(offset: nat, len: nat, revision: nat)

  function Size(len: nat): nat {
    VALUE_HEADER_LEN + len + VALUE_FOOTER_LEN
  }

  // ----- Records ------------------------------------------------------------

  function ValueChecksum(crc: Checksum, revision: nat, value: Value): Crc {
    crc([VALUE_VERSION] + U64(revision) + U32(|value|) + value)
  }

  function EncodeValue(crc: Checksum, revision: nat, value: Value): seq<Byte> {
    VALUE_MAGIC + [VALUE_VERSION] + U64(revision) + U32(|value|) + U32(ValueChecksum(crc, revision, value)) + [0, 0,
      0] +
    value + U32(Size(|value|)) + VALUE_END
  }

  /** Checks a framed record: header, length, checksum and footer. */
  predicate Framed(crc: Checksum, record: seq<Byte>) {
    && |record| >= VALUE_HEADER_LEN + VALUE_FOOTER_LEN && record[..4] == VALUE_MAGIC && record[4] == VALUE_VERSION
    && var len := |record| - VALUE_HEADER_LEN - VALUE_FOOTER_LEN;
       && ReadAt(record, 13, 4) == len <= MAX_VALUE_SIZE
       && ReadAt(record, 17, 4) ==
            ValueChecksum(crc, ReadAt(record, 5, 8), record[VALUE_HEADER_LEN..VALUE_HEADER_LEN + len])
       && ReadAt(record, VALUE_HEADER_LEN + len, 4) == |record| && record[|record| - 4..] == VALUE_END
  }

  /** What a reference names: a framed record of that length and revision, or nothing. */
  function ReadRecord(crc: Checksum, record: seq<Byte>, revision: nat): Option<Value> {
    if Framed(crc, record) && ReadAt(record, 5, 8) ==
        revision then Some(record[VALUE_HEADER_LEN..|record| - VALUE_FOOTER_LEN]) else None
  }

  /** One read, with no cache and no coalescing. */
  function ReadOne(crc: Checksum, file: seq<Byte>, ref: ValueRef): Option<Value> {
    if ref.offset + Size(ref.len) > |file| then None
    else ReadRecord(crc, file[ref.offset..ref.offset + Size(ref.len)], ref.revision)
  }

  lemma RecordParts(m: seq<Byte>, a: seq<Byte>, b: seq<Byte>, c: seq<Byte>, z: seq<Byte>, value: Value, n: seq<Byte>,
                    e: seq<Byte>)
    requires |m| == 5 && |a| == 8 && |b| == 4 && |c| == 4 && |z| == 3 && |n| == 4 && |e| == 4
    ensures var r := m + a + b + c + z + value + n + e;
            && |r| == Size(|value|) && r[..5] == m && r[5..13] == a && r[13..17] == b && r[17..21] == c
            && r[24..24 + |value|] == value && r[24 + |value|..24 + |value| + 4] == n && r[|r| - 4..] == e
  {
  }

  /** An encoded value reads back. */
  lemma ValueRoundTrip(crc: Checksum, revision: nat, value: Value)
    requires |value| <= MAX_VALUE_SIZE && revision < 0x1_0000_0000_0000_0000
    ensures |EncodeValue(crc, revision, value)| == Size(|value|)
    ensures ReadRecord(crc, EncodeValue(crc, revision, value), revision) == Some(value)
  {
    hide BigEndian, ReadBigEndian, ValueChecksum;
    var sum := ValueChecksum(crc, revision, value);
    RecordParts(VALUE_MAGIC + [VALUE_VERSION], U64(revision), U32(|value|), U32(sum), [0, 0, 0], value,
      U32(Size(|value|)), VALUE_END);
    var r := EncodeValue(crc, revision, value);
    assert r[..4] == r[..5][..4] && r[4] == r[..5][4];
    Widths();
    ReadBack(revision, 8);
    ReadBack(|value|, 4);
    ReadBack(sum, 4);
    ReadBack(Size(|value|), 4);
  }

  // ----- Coalesced runs -----------------------------------------------------

  predicate Slots(refs: seq<ValueRef>, slots: seq<nat>) {
    forall i :: 0 <= i < |slots| ==> slots[i] < |refs|
  }

  function RunLen(refs: seq<ValueRef>, slots: seq<nat>): nat
    requires Slots(refs, slots)
  {
    if slots == [] then 0 else RunLen(refs, slots[..|slots| - 1]) + Size(refs[slots[|slots| - 1]].len)
  }

  /** Each record of the run starts where its predecessor ends. */
  ghost predicate Adjacent(refs: seq<ValueRef>, slots: seq<nat>) {
    && Slots(refs, slots)
    && (forall i :: 0 <= i < |slots| ==> refs[slots[i]].offset == refs[slots[0]].offset + RunLen(refs, slots[..i]))
  }

  lemma {:induction false} RunGrows(refs: seq<ValueRef>, slots: seq<nat>, i: nat)
    requires Slots(refs, slots) && i < |slots|
    ensures RunLen(refs, slots[..i]) + Size(refs[slots[i]].len) == RunLen(refs, slots[..i + 1]) <= RunLen(refs, slots)
    decreases |slots| - i
  {
    assert slots[..i + 1][..i] == slots[..i];
    if i + 1 < |slots| {
      RunGrows(refs, slots, i + 1);
    } else {
      assert slots[..i + 1] == slots;
    }
  }

  ghost predicate AllReadable(crc: Checksum, file: seq<Byte>, refs: seq<ValueRef>, slots: seq<nat>)
    requires Slots(refs, slots)
  {
    forall i :: 0 <= i < |slots| ==> ReadOne(crc, file, refs[slots[i]]).Some?
  }

  /** A cached value is what a read of its record would give. */
  predicate Truthful(crc: Checksum, file: seq<Byte>, at: nat, entry: (nat, Value)) {
    ReadOne(crc, file, ValueRef(at, |entry.1|, entry.0)) == Some(entry.1)
  }

  class ValueLog {
    const crc: Checksum
    const cache: ClockCache<nat, (nat, Value)>
    var file: seq<Byte>

    ghost predicate Valid()
      reads this, cache
    {
      cache.Valid() && forall at :: at in cache.entries ==> Truthful(crc, file, at, cache.entries[at].value)
    }

    constructor (crc: Checksum, file: seq<Byte>, budget: nat)
      ensures Valid() && this.file == file && this.crc == crc && fresh(cache)
    {
      cache := new ClockCache<nat, (nat, Value)>(budget, (at: nat, entry: (nat, Value)) => |entry.1|);
      this.crc, this.file := crc, file;
    }

    /** Appends a value. Its reference reads it back, and every older reference still reads
        what it did. */
    method Append(value: Value, revision: nat) returns (ref: ValueRef)
      requires Valid() && |value| <= MAX_VALUE_SIZE && revision < 0x1_0000_0000_0000_0000
      modifies `file
      ensures Valid() && ref == ValueRef(|old(file)|, |value|, revision) && ReadOne(crc, file, ref) == Some(value)
      ensures forall r :: ReadOne(crc, old(file), r).Some? ==> ReadOne(crc, file, r) == ReadOne(crc, old(file), r)
    {
      hide ReadRecord, EncodeValue;
      var record := EncodeValue(crc, revision, value);
      ValueRoundTrip(crc, revision, value);
      ref := ValueRef(|file|, |value|, revision);
      forall r | ReadOne(crc, file, r).Some? ensures ReadOne(crc, file + record, r) == ReadOne(crc, file, r) {
        assert (file + record)[r.offset..r.offset + Size(r.len)] == file[r.offset..r.offset + Size(r.len)];
      }
      assert (file + record)[|file|..|file| + Size(|value|)] == record;
      forall at | at in cache.entries ensures Truthful(crc, file + record, at, cache.entries[at].value) {
        assert Truthful(crc, file, at, cache.entries[at].value);
      }
      file := file + record;
    }

    method Remember(ref: ValueRef, value: Value)
      requires Valid() && ReadOne(crc, file, ref) == Some(value)
      modifies cache
      ensures Valid()
    {
      ReadLength(crc, file, ref);
      cache.Insert(ref.offset, (ref.revision, value));
    }

    /** A read through the cache is the read without it. */
    method ReadShared(ref: ValueRef) returns (r: Option<Value>)
      requires Valid()
      modifies cache
      ensures Valid() && r == ReadOne(crc, file, ref)
    {
      r := CachedValue(ref);
      if r.None? {
        r := ReadOne(crc, file, ref);
        if r.Some? {
          Remember(ref, r.value);
        }
      }
    }

    /** A hit must name the same record: same offset, revision and length. */
    method CachedValue(ref: ValueRef) returns (r: Option<Value>)
      requires Valid()
      modifies cache
      ensures Valid() && (r.Some? ==> r == ReadOne(crc, file, ref))
    {
      if ref.offset !in cache.entries || cache.entries[ref.offset].value.0 != ref.revision ||
          |cache.entries[ref.offset].value.1| != ref.len {
        return None;
      }
      var hit := cache.Get(ref.offset);
      if hit.None? {
        return None;
      }
      return Some(hit.value.1);
    }

    /** Answers what it can from the cache; the other slots are left in order. */
    method TakeHits(refs: seq<ValueRef>) returns (results: map<nat, Value>, misses: seq<nat>)
      requires Valid()
      modifies cache
      ensures Valid() && Slots(refs, misses) && Right(crc, file, refs, results) && Covers(results, misses, |refs|)
    {
      hide ReadOne, Valid;
      results, misses := map[], [];
      for slot := 0 to |refs|
        invariant Valid() && Slots(refs, misses) && Right(crc, file, refs, results) && Covers(results, misses, slot)
      {
        var hit := CachedValue(refs[slot]);
        if hit.Some? {
          results := results[slot := hit.value];
        } else {
          misses := misses + [slot];
        }
      }
    }

    /** Reads the misses in coalesced runs; fails when some record cannot be read. */
    method ReadMisses(refs: seq<ValueRef>, order: seq<nat>, before: map<nat, Value>)
        returns (r: Option<map<nat, Value>>)
      requires Valid() && Slots(refs, order) && Right(crc, file, refs, before)
      modifies cache
      ensures Valid() && (r.Some? <==> AllReadable(crc, file, refs, order))
      ensures r.Some? ==> Right(crc, file, refs, r.value) && Filled(r.value, order) && before.Keys <= r.value.Keys
    {
      hide ReadOne, Valid, Adjacent;
      var results, run: seq<nat>, runBytes := before, [], 0;
      ghost var done := 0;
      for i := 0 to |order|
        invariant Valid() && Right(crc, file, refs, results) && before.Keys <= results.Keys
        invariant done <= i && run == order[done..i] && (run != [] ==> Adjacent(refs, run)) && (i > 0 ==> run != [])
        invariant Filled(results, order[..done])
      {
        var slot := order[i];
        var total := Size(refs[slot].len);
        var grows := run != [] && refs[slot].offset == refs[order[i - 1]].offset + Size(refs[order[i - 1]].len) &&
            runBytes + total <= MAX_COALESCED_READ;
        if !grows && run != [] {
          var values := ReadRun(refs, run);
          RunReadable(crc, file, refs, order, done, i);
          if values.None? {
            return None;
          }
          ghost var earlier := results;
          results := FillRun(crc, file, refs, run, values.value, results);
          FilledOn(earlier, results, order, done, i);
          run, runBytes, done := [], 0, i;
        }
        GrowRun(refs, order, done, i);
        run, runBytes := run + [slot], runBytes + total;
      }
      if run != [] {
        var values := ReadRun(refs, run);
        RunReadable(crc, file, refs, order, done, |order|);
        if values.None? {
          return None;
        }
        ghost var earlier := results;
        results := FillRun(crc, file, refs, run, values.value, results);
        FilledOn(earlier, results, order, done, |order|);
      }
      assert order[..|order|] == order;
      AllFilled(crc, file, refs, order, results);
      return Some(results);
    }

    /** A batch of reads is one read per reference: it succeeds exactly when each would, with
        the same values in the same order. */
    method ReadMany(refs: seq<ValueRef>) returns (r: Option<seq<Value>>)
      requires Valid()
      modifies cache
      ensures Valid() && (r.Some? <==> forall i :: 0 <= i < |refs| ==> ReadOne(crc, file, refs[i]).Some?)
      ensures r.Some? ==> |r.value| == |refs| && forall i :: 0 <= i < |refs| ==>
                ReadOne(crc, file, refs[i]) == Some(r.value[i])
    {
      hide ReadOne, Valid;
      if |refs| < 2 {
        if refs == [] {
          return Some([]);
        }
        var one := ReadShared(refs[0]);
        return if one.None? then None else Some([one.value]);
      }
      var results, misses := TakeHits(refs);
      var order := SortByOffset(refs, misses);
      var all := ReadMisses(refs, order, results);
      if all.None? {
        return None;
      }
      forall s: nat | s < |refs| ensures s in all.value {
        if s in order {
          var i :| 0 <= i < |order| && order[i] == s;
        }
      }
      return Some(seq(|refs|, i requires 0 <= i < |refs| && i in all.value => all.value[i]));
    }

    /** Reads one physically contiguous run of records in a single read. */
    method ReadRun(refs: seq<ValueRef>, slots: seq<nat>) returns (r: Option<seq<Value>>)
      requires Valid() && slots != [] && Adjacent(refs, slots)
      modifies cache
      ensures Valid() && (r.Some? <==> AllReadable(crc, file, refs, slots))
      ensures r.Some? ==> |r.value| == |slots| && forall i :: 0 <= i < |slots| ==>
                ReadOne(crc, file, refs[slots[i]]) == Some(r.value[i])
    {
      hide ReadRecord;
      if |slots| == 1 {
        var one := ReadShared(refs[slots[0]]);
        return if one.None? then None else Some([one.value]);
      }
      var runLen := RunLength(refs, slots);
      RunAt(refs, slots, |slots| - 1);
      assert slots[..|slots| - 1 + 1] == slots;
      if refs[slots[0]].offset + runLen > |file| {
        assert ReadOne(crc, file, refs[slots[|slots| - 1]]).None?;
        return None;
      }
      r := ReadRecords(refs, slots, file[refs[slots[0]].offset..refs[slots[0]].offset + runLen]);
    }

    /** Validates each record of a run and cuts its value out. */
    method ReadRecords(refs: seq<ValueRef>, slots: seq<nat>, buffer: seq<Byte>) returns (r: Option<seq<Value>>)
      requires Valid() && slots != [] && Adjacent(refs, slots)
      requires refs[slots[0]].offset + RunLen(refs, slots) <= |file|
      requires buffer == file[refs[slots[0]].offset..refs[slots[0]].offset + RunLen(refs, slots)]
      modifies cache
      ensures Valid() && (r.Some? <==> AllReadable(crc, file, refs, slots))
      ensures r.Some? ==> |r.value| == |slots| && forall i :: 0 <= i < |slots| ==>
                ReadOne(crc, file, refs[slots[i]]) == Some(r.value[i])
    {
      hide ReadRecord, ReadOne, RunLen, Valid;
      var cursor, values: seq<Value> := 0, [];
      RunEmpty(refs);
      assert slots[..0] == [];
      for i := 0 to |slots|
        invariant Valid() && |values| == i && cursor == RunLen(refs, slots[..i])
        invariant forall j :: 0 <= j < i ==> ReadOne(crc, file, refs[slots[j]]) == Some(values[j])
      {
        var ref := refs[slots[i]];
        RunAt(refs, slots, i);
        SliceOfSlice(file, refs[slots[0]].offset, |buffer|, cursor, cursor + Size(ref.len));
        OneOf(crc, file, ref);
        var value := ReadRecord(crc, buffer[cursor..cursor + Size(ref.len)], ref.revision);
        if value.None? {
          return None;
        }
        Remember(ref, value.value);
        cursor, values := cursor + Size(ref.len), values + [value.value];
      }
      return Some(values);
    }
  }

  // ----- Batched reads ------------------------------------------------------

  ghost predicate ByOffset(refs: seq<ValueRef>, order: seq<nat>) {
    Slots(refs, order) && forall i, j :: 0 <= i < j < |order| ==> refs[order[i]].offset <= refs[order[j]].offset
  }

  /** Misses in physical order. */
  method SortByOffset(refs: seq<ValueRef>, slots: seq<nat>) returns (order: seq<nat>)
    requires Slots(refs, slots)
    ensures ByOffset(refs, order) && forall s :: s in order <==> s in slots
  {
    order := [];
    for i := 0 to |slots|
      invariant ByOffset(refs, order) && forall s :: s in order <==> s in slots[..i]
    {
      var at := |order|;
      while at > 0 && refs[order[at - 1]].offset > refs[slots[i]].offset
        invariant 0 <= at <= |order| && forall b :: at <= b < |order| ==> refs[order[b]].offset > refs[slots[i]].offset
      {
        at := at - 1;
      }
      Inserted(refs, order, at, slots[i]);
      assert slots[..i + 1] == slots[..i] + [slots[i]];
      order := InsertAt(order, at, slots[i]);
    }
    assert slots[..|slots|] == slots;
  }

  function InsertAt(order: seq<nat>, at: nat, slot: nat): (more: seq<nat>)
    requires at <= |order|
    ensures |more| == |order| + 1
    ensures forall k :: 0 <= k < |more| ==>
              more[k] == if k < at then order[k] else if k == at then slot else order[k - 1]
  {
    order[..at] + [slot] + order[at..]
  }

  lemma Inserted(refs: seq<ValueRef>, order: seq<nat>, at: nat, slot: nat)
    requires ByOffset(refs, order) && at <= |order| && slot < |refs|
    requires at > 0 ==> refs[order[at - 1]].offset <= refs[slot].offset
    requires forall b :: at <= b < |order| ==> refs[order[b]].offset > refs[slot].offset
    ensures ByOffset(refs, InsertAt(order, at, slot))
    ensures forall s :: s in InsertAt(order, at, slot) <==> s in order || s == slot
  {
    forall k | 0 <= k < at ensures refs[order[k]].offset <= refs[slot].offset {
      if k < at - 1 { assert refs[order[k]].offset <= refs[order[at - 1]].offset; }
    }
    InsertedMembers(order, at, slot);
  }

  lemma InsertedMembers(order: seq<nat>, at: nat, slot: nat)
    requires at <= |order|
    ensures forall s :: s in InsertAt(order, at, slot) <==> s in order || s == slot
  {
    var more := InsertAt(order, at, slot);
    forall s | s in order ensures s in more {
      var k :| 0 <= k < |order| && order[k] == s;
      assert more[if k < at then k else k + 1] == s;
    }
    assert more[at] == slot;
  }

  /** What has been read so far is right. */
  ghost predicate Right(crc: Checksum, file: seq<Byte>, refs: seq<ValueRef>, results: map<nat, Value>) {
    forall s :: s in results ==> s < |refs| && ReadOne(crc, file, refs[s]) == Some(results[s])
  }

  /** Every slot of `slots` has its result. */
  ghost predicate Filled(results: map<nat, Value>, slots: seq<nat>) {
    forall i :: 0 <= i < |slots| ==> slots[i] in results
  }

  ghost predicate Covers(results: map<nat, Value>, order: seq<nat>, n: nat) {
    forall s: nat :: s < n ==> s in results || s in order
  }

  method FillRun(crc: Checksum, file: seq<Byte>, refs: seq<ValueRef>, slots: seq<nat>, values: seq<Value>,
                 before: map<nat, Value>)
    returns (results: map<nat, Value>)
    requires Slots(refs, slots) && Right(crc, file, refs, before) && |values| == |slots|
    requires forall i :: 0 <= i < |slots| ==> ReadOne(crc, file, refs[slots[i]]) == Some(values[i])
    ensures Right(crc, file, refs, results) && Filled(results, slots) && before.Keys <= results.Keys
  {
    hide ReadOne;
    results := before;
    for i := 0 to |slots|
      invariant Right(crc, file, refs, results) && before.Keys <= results.Keys
      invariant forall j :: 0 <= j < i ==>
                  slots[j] in results
    {
      results := results[slots[i] := values[i]];
    }
  }

  /** A run may grow by a record that starts exactly where it ends. */
  lemma AdjacentGrows(refs: seq<ValueRef>, run: seq<nat>, slot: nat)
    requires Adjacent(refs, run) && slot < |refs| && run != []
    requires refs[slot].offset == refs[run[|run| - 1]].offset + Size(refs[run[|run| - 1]].len)
    ensures Adjacent(refs, run + [slot])
  {
    hide RunLen;
    var more := run + [slot];
    RunAt(refs, run, |run| - 1);
    assert run[..|run|] == run && more[..|run|] == run;
    forall i | 0 <= i < |more| ensures refs[more[i]].offset == refs[more[0]].offset + RunLen(refs, more[..i]) {
      if i < |run| {
        assert more[..i] == run[..i];
        RunAt(refs, run, i);
      }
    }
  }

  lemma AdjacentOne(refs: seq<ValueRef>, slot: nat)
    requires slot < |refs|
    ensures Adjacent(refs, [slot])
  {
    assert [slot][..0] == [];
  }

  /** The run from `done` to `i` takes in the next slot. */
  lemma GrowRun(refs: seq<ValueRef>, order: seq<nat>, done: nat, i: nat)
    requires Slots(refs, order) && done <= i < |order|
    requires done < i ==>
               Adjacent(refs, order[done..i]) &&
               refs[order[i]].offset == refs[order[i - 1]].offset + Size(refs[order[i - 1]].len)
    ensures order[done..i] + [order[i]] == order[done..i + 1] && Adjacent(refs, order[done..i + 1])
  {
    hide Adjacent;
    assert order[done..i] + [order[i]] == order[done..i + 1];
    if done == i {
      assert order[i..i + 1] == [order[i]];
      AdjacentOne(refs, order[i]);
    } else {
      AdjacentGrows(refs, order[done..i], order[i]);
    }
  }

  lemma RunReadable(crc: Checksum, file: seq<Byte>, refs: seq<ValueRef>, order: seq<nat>, a: nat, b: nat)
    requires Slots(refs, order) && a <= b <= |order|
    ensures Slots(refs, order[a..b])
    ensures (AllReadable(crc, file, refs, order) ==> AllReadable(crc, file, refs, order[a..b]))
  {
    hide ReadOne;
  }

  lemma FilledOn(before: map<nat, Value>, results: map<nat, Value>, order: seq<nat>, a: nat, b: nat)
    requires a <= b <= |order| && Filled(before, order[..a]) && before.Keys <= results.Keys
    requires Filled(results, order[a..b])
    ensures Filled(results, order[..b])
  {
    forall i | 0 <= i < b ensures order[..b][i] in results {
      if i < a {
        assert order[..a][i] in before.Keys;
      } else {
        assert order[a..b][i - a] in results;
      }
    }
  }

  lemma AllFilled(crc: Checksum, file: seq<Byte>, refs: seq<ValueRef>, order: seq<nat>, results: map<nat, Value>)
    requires Slots(refs, order) && Right(crc, file, refs, results) && Filled(results, order)
    ensures AllReadable(crc, file, refs, order)
  {
    hide ReadOne;
  }

  lemma RunEmpty(refs: seq<ValueRef>)
    ensures RunLen(refs, []) == 0
  {
  }

  lemma RunAt(refs: seq<ValueRef>, slots: seq<nat>, i: nat)
    requires Adjacent(refs, slots) && i < |slots|
    ensures refs[slots[i]].offset == refs[slots[0]].offset + RunLen(refs, slots[..i])
    ensures RunLen(refs, slots[..i]) + Size(refs[slots[i]].len) == RunLen(refs, slots[..i + 1]) <= RunLen(refs, slots)
  {
    hide RunLen;
    RunGrows(refs, slots, i);
  }

  lemma OneOf(crc: Checksum, file: seq<Byte>, ref: ValueRef)
    ensures ref.offset + Size(ref.len) <= |file| ==>
              ReadOne(crc, file, ref) == ReadRecord(crc, file[ref.offset..ref.offset + Size(ref.len)], ref.revision)
  {
    hide ReadRecord;
  }

  lemma ReadLength(crc: Checksum, file: seq<Byte>, ref: ValueRef)
    requires ReadOne(crc, file, ref).Some?
    ensures |ReadOne(crc, file, ref).value| == ref.len
  {
  }

  method RunLength(refs: seq<ValueRef>, slots: seq<nat>) returns (n: nat)
    requires Slots(refs, slots)
    ensures n == RunLen(refs, slots)
  {
    n := 0;
    for i := 0 to |slots|
      invariant n == RunLen(refs, slots[..i])
    {
      RunGrows(refs, slots, i);
      n := n + Size(refs[slots[i]].len);
    }
    assert slots[..|slots|] == slots;
  }
}
