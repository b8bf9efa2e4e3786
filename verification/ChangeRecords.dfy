/** Change records: how the published mutations of one commit become one value, and how a
    position in the feed becomes a key that sorts like the position. */
module ChangeRecords {
  import opened Results
  import opened Keys
  import opened Bytes
  import opened Replay

  /** One published mutation; no value is a delete. */
  datatype Mutated = Mutated(key: Key, value: Option<Value>)

  /** A position in the feed: a commit and a mutation inside it. */
  datatype Cursor = Cursor(sequence: nat, index: nat)

  const START := Cursor(0, 0)

  predicate Before(a: Cursor, b: Cursor) {
    a.sequence < b.sequence || (a.sequence == b.sequence && a.index < b.index)
  }

  predicate NotAfter(a: Cursor, b: Cursor) {
    !Before(b, a)
  }

  // ----- Batch values -------------------------------------------------------

  predicate ValidMutated(m: Mutated) {
    0 < |m.key| <= MAX_KEY_SIZE && (m.value.Some? ==> |m.value.value| < 0x1_0000_0000)
  }

  function ValueBytes(m: Mutated): Value {
    if m.value.Some? then m.value.value else []
  }

  function EncodeOne(m: Mutated): seq<Byte> {
    [if m.value.Some? then 1 else 0] + U32(|m.key|) + U32(|ValueBytes(m)|) + m.key + ValueBytes(m)
  }

  function EncodeEach(ms: seq<Mutated>): seq<Byte> {
    if ms == [] then [] else EncodeOne(ms[0]) + EncodeEach(ms[1..])
  }

  function EncodeBatch(ms: seq<Mutated>): seq<Byte> {
    U32(|ms|) + EncodeEach(ms)
  }

  function ParseEach(encoded: seq<Byte>, count: nat): Option<seq<Mutated>> {
    if count == 0 then (if encoded == [] then Some([]) else None)
    else if |encoded| < 9 then None
    else
      var flag, keyLen, valueLen := encoded[0], ReadAt(encoded, 1, 4), ReadAt(encoded, 5, 4);
      if flag !in {0, 1} || keyLen == 0 || keyLen > MAX_KEY_SIZE || (flag == 0 && valueLen != 0) then None
      else if 9 + keyLen + valueLen > |encoded| then None
      else
        var key, value := encoded[9..9 + keyLen], encoded[9 + keyLen..9 + keyLen + valueLen];
        match ParseEach(encoded[9 + keyLen + valueLen..], count - 1)
        case None => None
        case Some(rest) => Some([Mutated(key, if flag == 1 then Some(value) else None)] + rest)
  }

  function DecodeBatch(encoded: seq<Byte>): Option<seq<Mutated>> {
    if |encoded| < 4 then None else ParseEach(encoded[4..], ReadAt(encoded, 0, 4))
  }

  lemma OneFields(m: Mutated, rest: seq<Byte>)
    requires ValidMutated(m)
    ensures var p := EncodeOne(m) + rest;
            var k, v := |m.key|, |ValueBytes(m)|;
            && |p| >= 9 + k + v && p[0] == (if m.value.Some? then 1 else 0)
            && ReadAt(p, 1, 4) == k && ReadAt(p, 5, 4) == v
            && p[9..9 + k] == m.key && p[9 + k..9 + k + v] == ValueBytes(m) && p[9 + k + v..] == rest
  {
    hide BigEndian, ReadBigEndian;
    OneSlices(if m.value.Some? then 1 else 0, U32(|m.key|), U32(|ValueBytes(m)|), m.key, ValueBytes(m), rest);
    Widths();
    ReadBack(|m.key|, 4);
    ReadBack(|ValueBytes(m)|, 4);
  }

  lemma OneSlices(flag: Byte, k: seq<Byte>, v: seq<Byte>, key: seq<Byte>, value: seq<Byte>, rest: seq<Byte>)
    requires |k| == 4 && |v| == 4
    ensures var p := [flag] + k + v + key + value + rest;
            && |p| == 9 + |key| + |value| + |rest| && p[0] == flag && p[1..5] == k && p[5..9] == v
            && p[9..9 + |key|] == key && p[9 + |key|..9 + |key| + |value|] == value && p[9 + |key| + |value|..] == rest
  {
  }

  lemma ParseNext(m: Mutated, rest: seq<Byte>, ms: seq<Mutated>)
    requires ValidMutated(m) && ParseEach(rest, |ms|) == Some(ms)
    ensures ParseEach(EncodeOne(m) + rest, |ms| + 1) == Some([m] + ms)
  {
    hide EncodeOne, ReadAt;
    OneFields(m, rest);
  }

  lemma EncodeNext(ms: seq<Mutated>)
    requires ms != []
    ensures EncodeEach(ms) == EncodeOne(ms[0]) + EncodeEach(ms[1..])
  {
  }

  lemma NoneEach()
    ensures ParseEach(EncodeEach([]), 0) == Some([])
  {
  }

  lemma {:induction false} EachRoundTrip(ms: seq<Mutated>)
    requires forall i :: 0 <= i < |ms| ==> ValidMutated(ms[i])
    ensures ParseEach(EncodeEach(ms), |ms|) == Some(ms)
    decreases |ms|
  {
    hide EncodeOne, ParseEach, EncodeEach;
    if ms == [] {
      NoneEach();
    } else {
      EachRoundTrip(ms[1..]);
      EncodeNext(ms);
      ParseNext(ms[0], EncodeEach(ms[1..]), ms[1..]);
      assert ms == [ms[0]] + ms[1..];
    }
  }

  /** Decoding a commit's record gives back its mutations, in order. */
  lemma BatchRoundTrip(ms: seq<Mutated>)
    requires |ms| < 0x1_0000_0000 && forall i :: 0 <= i < |ms| ==> ValidMutated(ms[i])
    ensures DecodeBatch(EncodeBatch(ms)) == Some(ms)
  {
    var e := EncodeBatch(ms);
    hide BigEndian, ReadBigEndian, EncodeEach, ParseEach;
    assert e[0..4] == U32(|ms|) && e[4..] == EncodeEach(ms);
    Widths();
    ReadBack(|ms|, 4);
    EachRoundTrip(ms);
  }

  // ----- Keys and the retention floor ---------------------------------------

  function ChangeKey(sequence: nat): Key {
    CHANGE_LOG_PREFIX + U64(sequence)
  }

  function SequenceOf(key: Key): Option<nat> {
    if |key| != |CHANGE_LOG_PREFIX| + 8 then None else Some(ReadBigEndian(key[|CHANGE_LOG_PREFIX|..]))
  }

  /** Change keys sort by commit, and the commit reads back from the key. */
  lemma ChangeKeys(a: nat, b: nat)
    requires a < 0x1_0000_0000_0000_0000 && b < 0x1_0000_0000_0000_0000
    ensures Less(ChangeKey(a), ChangeKey(b)) <==> a < b
    ensures SequenceOf(ChangeKey(a)) == Some(a) && CHANGE_LOG_PREFIX <= ChangeKey(a)
    ensures ChangeKey(a) == ChangeKey(b) ==> a == b
  {
    hide BigEndian, ReadBigEndian, Less;
    Widths();
    BigEndianOrder(a, b, 8);
    LessUnderPrefix(CHANGE_LOG_PREFIX, U64(a), U64(b));
    ReadBack(a, 8);
    ReadBack(b, 8);
    assert ChangeKey(a)[|CHANGE_LOG_PREFIX|..] == U64(a) && ChangeKey(b)[|CHANGE_LOG_PREFIX|..] == U64(b);
  }

  function Suffix(c: Cursor): seq<Byte> {
    U64(c.sequence) + U32(c.index)
  }

  function FromSuffix(s: seq<Byte>): Option<Cursor> {
    if |s| != 12 then None else Some(Cursor(ReadAt(s, 0, 8), ReadAt(s, 8, 4)))
  }

  lemma SuffixRoundTrip(c: Cursor)
    requires c.sequence < 0x1_0000_0000_0000_0000 && c.index < 0x1_0000_0000
    ensures FromSuffix(Suffix(c)) == Some(c)
  {
    hide BigEndian, ReadBigEndian;
    assert Suffix(c)[0..8] == U64(c.sequence) && Suffix(c)[8..12] == U32(c.index);
    Widths();
    ReadBack(c.sequence, 8);
    ReadBack(c.index, 4);
  }
}
