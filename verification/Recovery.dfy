/** Point-in-time recovery: a restored base backup is merged with a log archive, the log is
    physically cut at the bound, and an ordinary replay rolls the checkpoint forward. */
module Recovery {
  import opened Results
  import opened Keys
  import opened Bytes
  import opened Replay
  import opened WalRecords
  import opened SegmentFiles
  import Retention

  type Directory = map<nat, seq<Byte>>

  datatype RecoveryError =
    | DamagedArchive(id: nat)
    | OtherTimeline(id: nat)
    | NoSegments
    | MissingSegments
    | BadHeader(id: nat)
    | Reordered(id: nat)
    | BelowBase
    | BeyondLog
    | Disconnected
    | Unreplayable(id: nat)
    | StoppedAt(lsn: nat)

  // ----- One history, in segments -------------------------------------------

  /** Every record ever logged, and the LSN each segment starts at. */
  datatype Timeline = Timeline(frames: seq<Frame>, start: nat -> nat)

  ghost predicate ValidTimeline(t: Timeline) {
    && Consecutive(t.frames, 1)
    && (forall i: nat, j: nat :: i <= j ==> 1 <= t.start(i) <= t.start(j) < 0x1_0000_0000_0000_0000)
  }

  /** How much of a segment a file holds: whole records, then a cut one. */
  datatype Shape = Shape(count: nat, last: Frame, cut: nat)

  ghost predicate Within(t: Timeline, id: nat, count: nat) {
    1 <= t.start(id) && t.start(id) + count <= t.start(id + 1) && t.start(id) - 1 + count <= |t.frames|
  }

  ghost function Part(t: Timeline, id: nat, count: nat): seq<Frame>
    requires Within(t, id, count)
  {
    t.frames[t.start(id) - 1..t.start(id) - 1 + count]
  }

  ghost predicate ImageOf(crc: Checksum, t: Timeline, id: nat, file: seq<Byte>, s: Shape) {
    && id < 0x1_0000_0000_0000_0000 && Within(t, id, s.count) && |file| >= SEGMENT_HEADER_LEN
    && file[..SEGMENT_HEADER_LEN] == EncodeSegmentHeader(crc, Header(id, t.start(id)))
    && CrashImage(crc, file, Part(t, id, s.count), s.last, s.cut)
  }

  /** Every file is some prefix of its segment of the timeline, torn tail included. */
  ghost predicate Images(crc: Checksum, t: Timeline, dir: Directory, shapes: map<nat, Shape>) {
    forall id :: id in dir ==> id in shapes && ImageOf(crc, t, id, dir[id], shapes[id])
  }

  lemma PartConsecutive(t: Timeline, id: nat, count: nat)
    requires ValidTimeline(t) && Within(t, id, count)
    ensures Consecutive(Part(t, id, count), t.start(id)) && |Part(t, id, count)| == count
  {
  }

  lemma ImageHeader(crc: Checksum, t: Timeline, id: nat, file: seq<Byte>, s: Shape)
    requires ValidTimeline(t) && ImageOf(crc, t, id, file, s)
    ensures ReadHeader(crc, file) == Some(Header(id, t.start(id)))
  {
    hide CrashImage, ReadHeader, EncodeSegmentHeader;
    assert file == file[..SEGMENT_HEADER_LEN] + file[SEGMENT_HEADER_LEN..];
    assert t.start(id) <= t.start(id);
    HeaderRoundTrip(crc, Header(id, t.start(id)), file[SEGMENT_HEADER_LEN..]);
  }

  // ----- An ordinary replay -------------------------------------------------

  /** Sealed segments are complete and the log reaches back to the checkpoint. */
  ghost predicate Connected(t: Timeline, shapes: map<nat, Shape>, low: nat, high: nat, base: nat) {
    && t.start(low) <= base + 1
    && (forall id: nat :: low <= id < high ==>
           id in shapes && shapes[id].cut == 0 && t.start(id) + shapes[id].count == t.start(id + 1))
  }

  /** One segment rolls the state from `lsn` to where its records end. */
  lemma PartRolls(t: Timeline, id: nat, count: nat, base: nat, lsn: nat)
    requires ValidTimeline(t) && Within(t, id, count) && base <= lsn <= |t.frames|
    requires Part(t, id, count) == [] || t.start(id) <= lsn + 1
    ensures var lsn' := LastLsn(Part(t, id, count), t.start(id), lsn);
            && lsn <= lsn' <= |t.frames| &&
                 lsn' == (if t.start(id) + count > lsn + 1 && count > 0 then t.start(id) + count - 1 else lsn)
            && t.frames[base..lsn] + Past(Part(t, id, count), t.start(id), lsn) == t.frames[base..lsn']
  {
    hide ValidTimeline;
    SliceRolls(t.frames, t.start(id) - 1, count, base, lsn);
  }

  lemma SliceRolls(frames: seq<Frame>, a: nat, count: nat, base: nat, lsn: nat)
    requires a + count <= |frames| && base <= lsn <= |frames| && (count == 0 || a <= lsn)
    ensures var part := frames[a..a + count];
            var lsn' := LastLsn(part, a + 1, lsn);
            && lsn' == (if a + count > lsn && count > 0 then a + count else lsn)
            && frames[base..lsn] + Past(part, a + 1, lsn) == frames[base..lsn']
  {
    var part := frames[a..a + count];
    if count > 0 && a + count > lsn {
      assert Past(part, a + 1, lsn) == part[lsn - a..];
      SliceTail(frames, a, a + count, lsn);
    } else {
      assert Past(part, a + 1, lsn) == [];
    }
  }

  lemma SliceTail(frames: seq<Frame>, a: nat, end: nat, from: nat)
    requires a <= from <= end <= |frames|
    ensures frames[a..end][from - a..] == frames[from..end]
  {
  }

  datatype Rolled = Rolled(lsn: nat, redo: seq<Frame>)

  ghost predicate RolledTo(t: Timeline, base: nat, lsn: nat, redo: seq<Frame>) {
    base <= lsn <= |t.frames| && redo == t.frames[base..lsn]
  }

  lemma Sealed(t: Timeline, shapes: map<nat, Shape>, low: nat, high: nat, base: nat, id: nat)
    requires ValidTimeline(t) && Connected(t, shapes, low, high, base) && low <= id <= high
    ensures id < high ==> id in shapes && shapes[id].cut == 0 && t.start(id) + shapes[id].count == t.start(id + 1)
    ensures 1 <= t.start(low) <= t.start(id) && t.start(low) <= base + 1 && t.start(id) <= t.start(id + 1)
  {
  }

  lemma ImageAt(crc: Checksum, t: Timeline, dir: Directory, shapes: map<nat, Shape>, id: nat)
    requires ValidTimeline(t) && Images(crc, t, dir, shapes) && id in dir
    ensures id in shapes && ImageOf(crc, t, id, dir[id], shapes[id])
    ensures ReadHeader(crc, dir[id]) == Some(Header(id, t.start(id)))
    ensures Consecutive(Part(t, id, shapes[id].count), t.start(id))
    ensures |Part(t, id, shapes[id].count)| == shapes[id].count
  {
    hide CrashImage, ReadHeader, EncodeSegmentHeader;
    ImageHeader(crc, t, id, dir[id], shapes[id]);
    PartConsecutive(t, id, shapes[id].count);
  }

  lemma ShapeAt(crc: Checksum, t: Timeline, dir: Directory, shapes: map<nat, Shape>, id: nat)
    requires Images(crc, t, dir, shapes) && id in dir
    ensures id in shapes
  {
  }

  lemma RolledAtLeast(t: Timeline, base: nat, lsn: nat, redo: seq<Frame>)
    requires RolledTo(t, base, lsn, redo)
    ensures base <= lsn
  {
  }

  lemma RollStarts(t: Timeline, base: nat)
    requires base <= |t.frames|
    ensures RolledTo(t, base, base, [])
  {
  }

  /** Replays one segment unless its successor says it ends at or below the state. */
  method ReplayOne(crc: Checksum, dir: Directory, id: nat, high: nat, ghost base: nat, lsn: nat, redo: seq<Frame>,
                   ghost t: Timeline, ghost shapes: map<nat, Shape>)
    returns (r: Result<Rolled, RecoveryError>)
    requires id in dir && id <= high && (id < high ==> id + 1 in dir)
    ensures ValidTimeline(t) && Images(crc, t, dir, shapes) && RolledTo(t, base, lsn, redo) ==>
              && (r.Ok? ==> RolledTo(t, base, r.value.lsn, r.value.redo))
              && (t.start(id) <= lsn + 1 && (id == high || shapes[id].cut == 0) ==>
                     r.Ok? && r.value.lsn == Max(lsn, t.start(id) + shapes[id].count - 1))
  {
    hide ValidTimeline, Images, CrashImage, ReadHeader, EncodeAll, Past, LastLsn, Consecutive, Part, RolledTo,
         EncodeSegmentHeader;
    ghost var ok := ValidTimeline(t) && Images(crc, t, dir, shapes) && RolledTo(t, base, lsn, redo);
    if ok {
      ImageAt(crc, t, dir, shapes, id);
      if id < high { ImageAt(crc, t, dir, shapes, id + 1); }
    }
    var h := ReadHeader(crc, dir[id]);
    var next := if id < high then ReadHeader(crc, dir[id + 1]) else h;
    if h.None? || next.None? || h.value.id != id {
      return Err(BadHeader(id));
    }
    if id < high && next.value.first <= lsn + 1 {
      return Ok(Rolled(lsn, redo));
    }
    HeaderLong(crc, dir[id]);
    ghost var s := if ok then shapes[id] else Shape(0, Frame(0, [], 0, 0), 0);
    ghost var part := if ok then Part(t, id, s.count) else [];
    var replayed := ReplaySegment(crc, dir[id], h.value.first, id == high, lsn, part, s.last, s.cut);
    if replayed.Err? {
      return Err(Unreplayable(id));
    }
    if ok { Rolls(t, id, s.count, base, lsn, redo); }
    return Ok(Rolled(replayed.value.lsn, redo + replayed.value.redo));
  }

  lemma HeaderLong(crc: Checksum, file: seq<Byte>)
    requires ReadHeader(crc, file).Some?
    ensures |file| >= SEGMENT_HEADER_LEN
  {
  }

  lemma Rolls(t: Timeline, id: nat, count: nat, base: nat, lsn: nat, redo: seq<Frame>)
    requires ValidTimeline(t) && Within(t, id, count) && RolledTo(t, base, lsn, redo)
    requires (Part(t, id, count) == [] || t.start(id) <= lsn + 1)
    ensures RolledTo(t, base, LastLsn(Part(t, id, count), t.start(id), lsn),
            redo + Past(Part(t, id, count), t.start(id), lsn))
    ensures t.start(id) <= lsn + 1 ==>
              LastLsn(Part(t, id, count), t.start(id), lsn) == Max(lsn, t.start(id) + count - 1)
  {
    hide Past, LastLsn, ValidTimeline, Part;
    PartRolls(t, id, count, base, lsn);
  }

  /** Replays the segments `low` to `high` from the checkpoint at `base`. */
  method ReplayWal(crc: Checksum, dir: Directory, low: nat, high: nat, base: nat, ghost t: Timeline,
                   ghost shapes: map<nat, Shape>)
    returns (r: Result<Rolled, RecoveryError>)
    requires low <= high && forall id: nat :: low <= id <= high ==> id in dir
    ensures ValidTimeline(t) && Images(crc, t, dir, shapes) && base <= |t.frames| ==>
              && (r.Ok? ==> RolledTo(t, base, r.value.lsn, r.value.redo))
              && (Connected(t, shapes, low, high, base) ==>
                    r.Ok? && r.value.lsn == Max(base, t.start(high) + shapes[high].count - 1))
  {
    hide ValidTimeline, Images, Connected, RolledTo;
    ghost var ok := ValidTimeline(t) && Images(crc, t, dir, shapes) && base <= |t.frames|;
    ghost var whole := ok && Connected(t, shapes, low, high, base);
    var lsn, redo: seq<Frame> := base, [];
    if ok {
      RollStarts(t, base);
      ShapeAt(crc, t, dir, shapes, high);
    }
    if whole { Sealed(t, shapes, low, high, base, low); }
    for id := low to high + 1
      invariant ok ==> RolledTo(t, base, lsn, redo)
      invariant whole && id <= high ==> lsn == Max(base, t.start(id) - 1)
      invariant whole && id > high ==> lsn == Max(base, t.start(high) + shapes[high].count - 1)
    {
      if whole { Sealed(t, shapes, low, high, base, id); }
      var next :- ReplayOne(crc, dir, id, high, base, lsn, redo, t, shapes);
      lsn, redo := next.lsn, next.redo;
    }
    return Ok(Rolled(lsn, redo));
  }

  function Max(a: int, b: int): int {
    if a < b then b else a
  }

  // ----- Cutting the log at the bound ---------------------------------------

  ghost predicate Spans(dir: Directory, low: nat, high: nat) {
    low <= high && forall id: nat :: id in dir <==> low <= id <= high
  }

  /** Headers strictly increase: no segment but the last is empty. */
  ghost predicate Strict(t: Timeline, low: nat, high: nat) {
    forall id: nat :: low <= id < high ==> Grows(t, id)
  }

  ghost predicate Grows(t: Timeline, id: nat) {
    t.start(id) < t.start(id + 1)
  }

  lemma StrictMeans(t: Timeline, low: nat, high: nat)
    ensures Strict(t, low, high) <==> forall id: nat :: low <= id < high ==> t.start(id) < t.start(id + 1)
  {
    if forall id: nat :: low <= id < high ==> t.start(id) < t.start(id + 1) {
      forall id: nat | low <= id < high ensures Grows(t, id) { assert t.start(id) < t.start(id + 1); }
    }
    if Strict(t, low, high) {
      forall id: nat | low <= id < high ensures t.start(id) < t.start(id + 1) { assert Grows(t, id); }
    }
  }

  /** The first LSNs of all headers, refused unless they strictly increase. */
  method CheckHeaders(crc: Checksum, dir: Directory, low: nat, high: nat, ghost t: Timeline,
                      ghost shapes: map<nat, Shape>)
    returns (r: Result<seq<nat>, RecoveryError>)
    requires Spans(dir, low, high)
    ensures r.Ok? ==> |r.value| == high - low + 1 && forall id: nat :: low <= id <= high ==>
              ReadHeader(crc, dir[id]).Some?
    ensures ValidTimeline(t) && Images(crc, t, dir, shapes) ==>
              (r.Ok? <==> Strict(t, low, high)) &&
                (r.Ok? ==> forall i :: 0 <= i < |r.value| ==> r.value[i] == t.start(low + i))
  {
    hide ReadHeader, Images, ValidTimeline, ImageOf, CrashImage, Part, Consecutive;
    ghost var ok := ValidTimeline(t) && Images(crc, t, dir, shapes);
    var firsts: seq<nat> := [];
    for id := low to high + 1
      invariant |firsts| == id - low && forall j: nat :: low <= j < id ==> ReadHeader(crc, dir[j]).Some?
      invariant ok ==> forall i :: 0 <= i < |firsts| ==> firsts[i] == t.start(low + i)
    {
      if ok { ImageAt(crc, t, dir, shapes, id); }
      var h := ReadHeader(crc, dir[id]);
      if h.None? {
        return Err(BadHeader(id));
      }
      firsts := firsts + [h.value.first];
    }
    for i := 1 to |firsts|
      invariant ok ==> forall id: nat :: low <= id < low + i - 1 ==> Grows(t, id)
    {
      if firsts[i] <= firsts[i - 1] {
        assert ok ==> !Grows(t, low + i - 1);
        return Err(Reordered(low + i));
      }
      assert ok ==> Grows(t, low + i - 1);
    }
    return Ok(firsts);
  }

  /** The last segment that can hold the first record past the bound. */
  method Locate(firsts: seq<nat>, bound: nat) returns (p: Option<nat>)
    ensures p.None? <==> forall i :: 0 <= i < |firsts| ==> firsts[i] > bound + 1
    ensures p.Some? ==> p.value < |firsts| && firsts[p.value] <= bound + 1 && forall i :: p.value < i < |firsts| ==>
              firsts[i] > bound + 1
  {
    var i := |firsts|;
    while i > 0
      invariant 0 <= i <= |firsts| && forall j :: i <= j < |firsts| ==> firsts[j] > bound + 1
    {
      i := i - 1;
      if firsts[i] <= bound + 1 {
        return Some(i);
      }
    }
    return None;
  }

  datatype Recovered = Recovered(lsn: nat, wal: Directory, redo: seq<Frame>)

  /** Every record the directory still holds is at or below `bound`. */
  ghost predicate NoneAbove(t: Timeline, dir: Directory, shapes: map<nat, Shape>, bound: nat) {
    forall id :: id in dir ==> id in shapes && t.start(id) + shapes[id].count <= bound + 1
  }

  ghost predicate Recovers(crc: Checksum, t: Timeline, base: nat, until: Option<nat>, partial: bool, got: Recovered,
                           left: map<nat, Shape>) {
    && RolledTo(t, base, got.lsn, got.redo)
    && Images(crc, t, got.wal, left) && NoneAbove(t, got.wal, left, got.lsn)
    && (until.Some? ==> got.lsn <= until.value && (partial || got.lsn == until.value))
  }

  /** The LSN of the last complete record of the last segment. */
  method ReachOf(crc: Checksum, dir: Directory, high: nat, first: nat, ghost t: Timeline, ghost shapes: map<nat, Shape>)
      returns (reach: nat)
    requires high in dir && ReadHeader(crc, dir[high]).Some?
    ensures ValidTimeline(t) && Images(crc, t, dir, shapes) && first == t.start(high) ==>
              high in shapes && reach == t.start(high) + shapes[high].count - 1
  {
    hide ValidTimeline, Images, CrashImage, ReadHeader, Part, Consecutive, EncodeAll;
    HeaderLong(crc, dir[high]);
    ghost var ok := ValidTimeline(t) && Images(crc, t, dir, shapes) && first == t.start(high);
    ghost var s, part := Described(crc, t, dir, shapes, high, ok);
    var _, lsn := LastRecord(crc, dir[high], first, part, s.last, s.cut);
    reach := lsn;
  }

  method ChooseBound(base: nat, until: Option<nat>, partial: bool, reach: nat) returns (r: Result<nat, RecoveryError>)
    ensures until.None? ==> (r.Ok? <==> base <= reach) && (r.Ok? ==> r.value == reach)
    ensures until.Some? ==> (r.Ok? <==> base <= until.value && (until.value <= reach || partial))
    ensures until.Some? && r.Ok? ==> r.value == if until.value <= reach then until.value else reach
  {
    var bound := if until.Some? then until.value else reach;
    if bound < base {
      return Err(BelowBase);
    }
    if bound > reach {
      if !partial {
        return Err(BeyondLog);
      }
      bound := reach;
    }
    return Ok(bound);
  }

  /** Finds the segment to cut, and rolls forward to the bound. */
  method RollWithin(crc: Checksum, dir: Directory, low: nat, high: nat, base: nat, bound: nat, firsts: seq<nat>,
                    ghost t: Timeline, ghost shapes: map<nat, Shape>)
    returns (r: Result<Recovered, RecoveryError>, ghost left: map<nat, Shape>)
    requires Spans(dir, low, high) && |firsts| == high - low + 1
    requires forall id: nat :: low <= id <= high ==>
               ReadHeader(crc, dir[id]).Some?
    ensures ValidTimeline(t) && Images(crc, t, dir, shapes) && base <= |t.frames| ==>
              (forall i :: 0 <= i < |firsts| ==> firsts[i] == t.start(low + i)) ==>
              && (r.Ok? ==>
                    && base <= bound && RolledTo(t, base, bound, r.value.redo) && r.value.lsn == bound
                    && r.value.wal.Keys <= dir.Keys && Images(crc, t, r.value.wal, left)
                    && NoneAbove(t, r.value.wal, left, bound))
              && (Connected(t, shapes, low, high, base) ==>
                    base <= bound <= t.start(high) + shapes[high].count - 1 ==> r.Ok?)
  {
    hide ValidTimeline, Images, Connected, ReadHeader, Spans, RolledTo, NoneAbove;
    left := shapes;
    SpanEnds(dir, low, high);
    var p := Locate(firsts, bound);
    if p.None? {
      if firsts[0] == t.start(low) && base <= bound { LowReaches(t, shapes, low, high, base, bound, firsts); }
      return Err(Disconnected), left;
    }
    assert p.value + 1 < |firsts| ==> firsts[p.value + 1] > bound + 1;
    InSpan(dir, low, high, low + p.value);
    r, left := RollTo(crc, dir, low, high, base, bound, low + p.value, t, shapes);
  }

  /** Cuts the log at the bound and replays it. Whatever images of one timeline it starts from, a
      success means the state is exactly the checkpoint rolled forward to the LSN it reports, and no record
      past that is left. A connected log succeeds exactly when its headers strictly increase and the
      bound is in reach; without a bound it lands on the last record, with one on the bound, or on
      the last record when the log is shorter and a shorter recovery is allowed. */
  method RollForward(crc: Checksum, dir: Directory, low: nat, high: nat, base: nat, until: Option<nat>, partial: bool,
                     ghost t: Timeline, ghost shapes: map<nat, Shape>)
    returns (r: Result<Recovered, RecoveryError>, ghost left: map<nat, Shape>)
    requires Spans(dir, low, high)
    ensures ValidTimeline(t) && Images(crc, t, dir, shapes) && base <= |t.frames| ==>
              && (r.Ok? ==> Recovers(crc, t, base, until, partial, r.value, left))
              && (Connected(t, shapes, low, high, base) ==>
                    var reach := t.start(high) + shapes[high].count - 1;
                    var strict := forall id: nat :: low <= id < high ==> t.start(id) < t.start(id + 1);
                    && (until.None? ==>
                          && (r.Ok? <==> strict && base <= reach)
                          && (r.Ok? ==> r.value.lsn == reach <= |t.frames| && r.value.redo == t.frames[base..reach]))
                    && (until.Some? && until.value <= reach ==>
                          && (r.Ok? <==> strict && base <= until.value)
                          && (r.Ok? ==> r.value.lsn == until.value <= |t.frames|)
                          && (r.Ok? ==> r.value.redo == t.frames[base..until.value]))
                    && (until.Some? && until.value > reach ==>
                          && (r.Ok? <==> strict && base <= reach && partial)
                          && (r.Ok? ==> r.value.lsn == reach <= |t.frames| && r.value.redo == t.frames[base..reach])))
  {
    StrictMeans(t, low, high);
    hide ValidTimeline, Images, Connected, Strict, ReadHeader, Spans, NoneAbove;
    left := shapes;
    SpanEnds(dir, low, high);
    var firsts :- CheckHeaders(crc, dir, low, high, t, shapes);
    var reach := ReachOf(crc, dir, high, firsts[|firsts| - 1], t, shapes);
    var bound :- ChooseBound(base, until, partial, reach);
    r, left := RollWithin(crc, dir, low, high, base, bound, firsts, t, shapes);
  }

  lemma SpanEnds(dir: Directory, low: nat, high: nat)
    requires Spans(dir, low, high)
    ensures low in dir && high in dir && low <= high
  {
  }

  lemma InSpan(dir: Directory, low: nat, high: nat, id: nat)
    requires Spans(dir, low, high)
    ensures id in dir <==> low <= id <= high
  {
  }

  /** What a file is known to hold, when the directory is known to be images of a timeline. */
  lemma Described(crc: Checksum, t: Timeline, dir: Directory, shapes: map<nat, Shape>, id: nat, ok: bool)
      returns (s: Shape, part: seq<Frame>)
    requires ok ==> ValidTimeline(t) && Images(crc, t, dir, shapes) && id in dir
    ensures ok ==>
              id in dir && id in shapes && s == shapes[id] && Within(t, id, s.count) && part == Part(t, id, s.count) &&
              |part| == s.count
    ensures ok ==>
              CrashImage(crc, dir[id], part, s.last, s.cut) && Consecutive(part, t.start(id)) &&
              ReadHeader(crc, dir[id]) == Some(Header(id, t.start(id)))
  {
    hide CrashImage, ReadHeader, Images, Consecutive, Part, ValidTimeline, EncodeSegmentHeader;
    s, part := Shape(0, Frame(0, [], 0, 0), 0), [];
    if ok {
      ImageAt(crc, t, dir, shapes, id);
      s := shapes[id];
      part := Part(t, id, s.count);
    }
  }

  lemma LowReaches(t: Timeline, shapes: map<nat, Shape>, low: nat, high: nat, base: nat, bound: nat, firsts: seq<nat>)
    requires low <= high && |firsts| == high - low + 1 && firsts[0] == t.start(low) && base <= bound
    requires firsts[0] > bound + 1
    ensures !Connected(t, shapes, low, high, base)
  {
  }

  /** Cuts the log inside segment `trim`, drops its successors, and replays the rest. */
  method RollTo(crc: Checksum, dir: Directory, low: nat, high: nat, base: nat, bound: nat, trim: nat, ghost t: Timeline,
                ghost shapes: map<nat, Shape>)
    returns (r: Result<Recovered, RecoveryError>, ghost left: map<nat, Shape>)
    requires Spans(dir, low, high) && low <= trim <= high && ReadHeader(crc, dir[trim]).Some?
    ensures ValidTimeline(t) && Images(crc, t, dir, shapes) && base <= |t.frames| ==>
              t.start(trim) <= bound + 1 && (trim < high ==> t.start(trim + 1) > bound + 1) ==>
              && (r.Ok? ==>
                    && base <= bound && RolledTo(t, base, bound, r.value.redo) && r.value.lsn == bound
                    && r.value.wal.Keys <= dir.Keys && Images(crc, t, r.value.wal, left)
                    && NoneAbove(t, r.value.wal, left, bound))
              && (Connected(t, shapes, low, high, base) ==>
                    base <= bound <= t.start(high) + shapes[high].count - 1 ==> r.Ok?)
  {
    hide ValidTimeline, Images, Connected, CrashImage, ReadHeader, Spans, ImageOf, Part, Consecutive, RolledTo,
         NoneAbove;
    ghost var ok := ValidTimeline(t) && Images(crc, t, dir, shapes) && base <= |t.frames| &&
        t.start(trim) <= bound + 1 && (trim < high ==> t.start(trim + 1) > bound + 1);
    left := shapes;
    InSpan(dir, low, high, trim);
    InSpan(dir, low, high, high);
    ghost var s, part := Described(crc, t, dir, shapes, trim, ok);
    if ReadHeader(crc, dir[trim]).value.id != trim {
      return Err(BadHeader(trim)), left;
    }
    HeaderLong(crc, dir[trim]);
    var kept, cut := CutPast(crc, dir[trim], bound, part, s.last, s.cut, t.start(trim));
    var wal := Remaining(dir, trim, kept);
    left := shapes[trim := Shape(UpTo(part, t.start(trim), bound), s.last, cut)];
    SpanKept(dir, low, high, trim, kept);
    if ok {
      CutImages(crc, t, dir, shapes, low, high, trim, bound, kept, cut);
      ShapeAt(crc, t, dir, shapes, high);
      CutConnects(crc, t, dir, shapes, low, high, trim, bound, base, cut);
    }
    var rolled :- ReplayWal(crc, wal, low, trim, base, t, left);
    if rolled.lsn != bound {
      return Err(StoppedAt(rolled.lsn)), left;
    }
    if ok { RolledAtLeast(t, base, bound, rolled.redo); }
    r := Ok(Recovered(bound, wal, rolled.redo));
  }

  /** The directory with segment `trim` cut and every later one removed. */
  function Remaining(dir: Directory, trim: nat, kept: seq<Byte>): Directory {
    (map id | id in dir && id <= trim :: dir[id])[trim := kept]
  }

  lemma SpanKept(dir: Directory, low: nat, high: nat, trim: nat, kept: seq<Byte>)
    requires Spans(dir, low, high) && low <= trim <= high
    ensures Spans(Remaining(dir, trim, kept), low, trim) && Remaining(dir, trim, kept).Keys <= dir.Keys
    ensures forall id: nat :: low <= id <= trim ==> id in Remaining(dir, trim, kept)
  {
  }

  lemma CutImages(crc: Checksum, t: Timeline, dir: Directory, shapes: map<nat, Shape>, low: nat, high: nat, trim: nat,
                  bound: nat, kept: seq<Byte>, cut: nat)
    requires ValidTimeline(t) && Images(crc, t, dir, shapes) && Spans(dir, low, high) && low <= trim <= high
    requires t.start(trim) <= bound + 1
    requires trim in dir && trim in shapes && Within(t, trim, shapes[trim].count)
    requires SEGMENT_HEADER_LEN <= |kept| <= |dir[trim]| && kept == dir[trim][..|kept|]
    requires var part := Part(t, trim, shapes[trim].count);
             CrashImage(crc, kept, part[..UpTo(part, t.start(trim), bound)], shapes[trim].last, cut)
    ensures var left := shapes[trim := Shape(UpTo(Part(t, trim, shapes[trim].count), t.start(trim), bound),
            shapes[trim].last, cut)];
            Images(crc, t, Remaining(dir, trim, kept), left) && NoneAbove(t, Remaining(dir, trim, kept), left, bound)
  {
    hide CrashImage, Spans, ImageOf, ValidTimeline, Part, UpTo;
    var u := UpTo(Part(t, trim, shapes[trim].count), t.start(trim), bound);
    var left := shapes[trim := Shape(u, shapes[trim].last, cut)];
    var wal := Remaining(dir, trim, kept);
    CutImage(crc, t, trim, dir[trim], shapes[trim], bound, kept, cut);
    forall id | id in wal
      ensures id in left && ImageOf(crc, t, id, wal[id], left[id]) && t.start(id) + left[id].count <= bound + 1
    {
      if id != trim { EarlierBelow(crc, t, id, dir[id], shapes[id], trim); }
    }
  }

  lemma CutImage(crc: Checksum, t: Timeline, trim: nat, file: seq<Byte>, s: Shape, bound: nat, kept: seq<Byte>,
                 cut: nat)
    requires ImageOf(crc, t, trim, file, s) && t.start(trim) <= bound + 1
    requires SEGMENT_HEADER_LEN <= |kept| <= |file| && kept == file[..|kept|]
    requires var part := Part(t, trim, s.count); CrashImage(crc, kept, part[..UpTo(part, t.start(trim), bound)], s.last,
             cut)
    ensures var u := UpTo(Part(t, trim, s.count), t.start(trim), bound);
            ImageOf(crc, t, trim, kept, Shape(u, s.last, cut)) && t.start(trim) + u <= bound + 1
  {
    hide CrashImage, EncodeSegmentHeader;
    var part := Part(t, trim, s.count);
    var u := UpTo(part, t.start(trim), bound);
    assert part[..u] == Part(t, trim, u);
    assert kept[..SEGMENT_HEADER_LEN] == file[..SEGMENT_HEADER_LEN];
  }

  lemma EarlierBelow(crc: Checksum, t: Timeline, id: nat, file: seq<Byte>, s: Shape, trim: nat)
    requires ValidTimeline(t) && ImageOf(crc, t, id, file, s) && id < trim
    ensures t.start(id) + s.count <= t.start(trim)
  {
    hide CrashImage;
    assert t.start(id + 1) <= t.start(trim);
  }

  lemma CutConnects(crc: Checksum, t: Timeline, dir: Directory, shapes: map<nat, Shape>, low: nat, high: nat, trim: nat,
                    bound: nat, base: nat, cut: nat)
    requires ValidTimeline(t) && Images(crc, t, dir, shapes) && Spans(dir, low, high) && low <= trim <= high
    requires t.start(trim) <= bound + 1
    requires trim in dir && trim in shapes && high in shapes && Within(t, trim, shapes[trim].count)
    requires (trim < high ==> t.start(trim + 1) > bound + 1)
    ensures var u := UpTo(Part(t, trim, shapes[trim].count), t.start(trim), bound);
            var left := shapes[trim := Shape(u, shapes[trim].last, cut)];
            Connected(t, shapes, low, high, base) && base <= bound <= t.start(high) + shapes[high].count - 1 ==>
              Connected(t, left, low, trim, base) && Max(base, t.start(trim) + u - 1) == bound
  {
    hide Images;
  }

  // ----- Merging the archive ------------------------------------------------

  datatype Archive = Archive(files: Directory, index: map<nat, int>)

  /** The index names only files that are there and still have the checksum it recorded. */
  predicate Undamaged(crc: Checksum, archive: Archive) {
    forall id :: id in archive.index ==> Intact(crc, archive, id)
  }

  predicate Intact(crc: Checksum, archive: Archive, id: nat)
    requires id in archive.index
  {
    id in archive.files && crc(archive.files[id]) == archive.index[id]
  }

  /** How much of segment `id` the two copies hold together. */
  ghost function Held(wal: Directory, ws: map<nat, Shape>, archive: Archive, fs: map<nat, Shape>, id: nat): int {
    Max(if id in wal && id in ws then ws[id].count else 0, if id in archive.index && id in fs then fs[id].count else 0)
  }

  /** Unions the archive into the restored log: each segment keeps its longer history. */
  method MergeArchive(crc: Checksum, wal: Directory, archive: Archive, ghost t: Timeline, ghost ws: map<nat, Shape>,
                      ghost fs: map<nat, Shape>)
    returns (r: Result<Directory, RecoveryError>, ghost shapes: map<nat, Shape>)
    ensures r.Ok? ==> r.value.Keys == wal.Keys + archive.index.Keys
    ensures ValidTimeline(t) && Images(crc, t, wal, ws) && Images(crc, t, archive.files, fs) ==>
              && (r.Ok? <==>
                    forall id :: id in archive.index ==>
                      id in archive.files && crc(archive.files[id]) == archive.index[id])
              && (r.Ok? ==> Images(crc, t, r.value, shapes))
              && (r.Ok? ==> forall id :: id in wal ==> id in shapes && id in ws && ws[id].count <= shapes[id].count)
              && (r.Ok? ==> forall id :: id in archive.index ==>
                    id in shapes && id in fs && fs[id].count <= shapes[id].count)
              && (r.Ok? ==> forall id :: id in r.value ==>
                    || (id in wal && shapes[id].count == ws[id].count)
                    || (id in archive.index && shapes[id].count == fs[id].count))
  {
    hide ValidTimeline, Images, ImageOf, Held, Merged, Visited;
    VisitedNone(crc, wal, archive);
    ghost var ok := ValidTimeline(t) && Images(crc, t, wal, ws) && Images(crc, t, archive.files, fs);
    var merged: Directory, left: set<nat> := wal, archive.index.Keys;
    shapes := ws;
    if ok { NothingMerged(crc, t, wal, ws, archive, fs); }
    while left != {}
      invariant left <= archive.index.Keys && Visited(crc, merged, wal, archive, left)
      invariant ok ==> Merged(crc, t, merged, shapes, wal, ws, archive, fs, left)
      decreases |left|
    {
      var id: nat :| id in left;
      if !Intact(crc, archive, id) {
        DamagedOne(crc, archive, id);
        return Err(DamagedArchive(id)), shapes;
      }
      ghost var s;
      var file;
      file, s := MergeOne(crc, wal, archive, id, t, ws, fs);
      if file.Err? {
        return Err(file.error), shapes;
      }
      if ok { MergeStep(crc, t, merged, shapes, wal, ws, archive, fs, left, id, file.value, s); }
      VisitOne(crc, merged, wal, archive, left, id, file.value);
      merged, shapes, left := merged[id := file.value], shapes[id := s], left - {id};
    }
    VisitedAll(crc, merged, wal, archive);
    if ok {
      MergeDone(crc, t, merged, shapes, wal, ws, archive, fs);
      HasShapes(crc, t, wal, ws);
      HasShapes(crc, t, archive.files, fs);
      forall id | id in merged ensures Kept(wal, ws, archive, fs, id, shapes[id].count) {
        KeptLonger(wal, ws, archive, fs, id);
      }
    }
    return Ok(merged), shapes;
  }

  /** The copies of a segment and the one that was kept. */
  ghost predicate Kept(wal: Directory, ws: map<nat, Shape>, archive: Archive, fs: map<nat, Shape>, id: nat, count: int)
    requires id in wal ==> id in ws
    requires id in archive.index ==> id in fs
  {
    && (id in wal ==> ws[id].count <= count) && (id in archive.index ==> fs[id].count <= count)
    && ((id in wal && count == ws[id].count) || (id in archive.index && count == fs[id].count))
  }

  lemma KeptLonger(wal: Directory, ws: map<nat, Shape>, archive: Archive, fs: map<nat, Shape>, id: nat)
    requires (id in wal ==> id in ws) && (id in archive.index ==> id in fs) && (id in wal || id in archive.index)
    ensures Kept(wal, ws, archive, fs, id, Held(wal, ws, archive, fs, id))
  {
  }

  /** One indexed segment: the archived copy, unless the restored one holds as much. */
  method MergeOne(crc: Checksum, wal: Directory, archive: Archive, id: nat, ghost t: Timeline,
                  ghost ws: map<nat, Shape>, ghost fs: map<nat, Shape>)
    returns (r: Result<seq<Byte>, RecoveryError>, ghost s: Shape)
    requires id in archive.index && Intact(crc, archive, id)
    ensures ValidTimeline(t) && Images(crc, t, wal, ws) && Images(crc, t, archive.files, fs) ==>
              r.Ok? && ImageOf(crc, t, id, r.value, s) && s.count == Held(wal, ws, archive, fs, id)
  {
    hide ValidTimeline, Images, CrashImage, ReadHeader, Part, Consecutive, EncodeSegmentHeader;
    ghost var ok := ValidTimeline(t) && Images(crc, t, wal, ws) && Images(crc, t, archive.files, fs);
    var archived := archive.files[id];
    ghost var sa, pa := Described(crc, t, archive.files, fs, id, ok);
    s := sa;
    if ok { ImageAt(crc, t, archive.files, fs, id); }
    if id !in wal {
      return Ok(archived), s;
    }
    ghost var sb, pb := Described(crc, t, wal, ws, id, ok);
    var chosen := MergeSegment(crc, wal[id], archived, pb, sb.last, sb.cut, pa, sa.last, sa.cut);
    if ok {
      ImageAt(crc, t, wal, ws, id);
      PartsShare(t, id, sb.count, sa.count);
      if sa.count <= sb.count { s := sb; }
    }
    if chosen.None? {
      return Err(OtherTimeline(id)), s;
    }
    return Ok(chosen.value), s;
  }

  /** Two prefixes of one segment share their history. */
  lemma PartsShare(t: Timeline, id: nat, a: nat, b: nat)
    requires Within(t, id, a) && Within(t, id, b)
    ensures ShareHistory(Part(t, id, a), Part(t, id, b))
  {
    if a <= b {
      assert Part(t, id, a) == Part(t, id, b)[..a];
    } else {
      assert Part(t, id, b) == Part(t, id, a)[..b];
    }
  }

  lemma NothingMerged(crc: Checksum, t: Timeline, wal: Directory, ws: map<nat, Shape>, archive: Archive,
                      fs: map<nat, Shape>)
    requires Images(crc, t, wal, ws)
    ensures Merged(crc, t, wal, ws, wal, ws, archive, fs, archive.index.Keys)
  {
    hide ImageOf;
  }

  lemma MergeStep(crc: Checksum, t: Timeline, merged: Directory, shapes: map<nat, Shape>, wal: Directory,
                  ws: map<nat, Shape>,
                  archive: Archive, fs: map<nat, Shape>, left: set<nat>, id: nat, file: seq<Byte>, s: Shape)
    requires Merged(crc, t, merged, shapes, wal, ws, archive, fs, left) && ImageOf(crc, t, id, file, s)
    requires s.count == Held(wal, ws, archive, fs, id)
    ensures Merged(crc, t, merged[id := file], shapes[id := s], wal, ws, archive, fs, left - {id})
  {
    hide ImageOf, Held;
  }

  /** The ids merged so far, and the archive checked so far. */
  ghost predicate Visited(crc: Checksum, merged: Directory, wal: Directory, archive: Archive, left: set<nat>) {
    && (forall id :: id in merged <==> id in wal || (id in archive.index && id !in left))
    && (forall id :: id in archive.index && id !in left ==> Intact(crc, archive, id))
  }

  lemma VisitedNone(crc: Checksum, wal: Directory, archive: Archive)
    ensures Visited(crc, wal, wal, archive, archive.index.Keys)
  {
  }

  lemma VisitOne(crc: Checksum, merged: Directory, wal: Directory, archive: Archive, left: set<nat>, id: nat,
                 file: seq<Byte>)
    requires Visited(crc, merged, wal, archive, left) && id in archive.index && Intact(crc, archive, id)
    ensures Visited(crc, merged[id := file], wal, archive, left - {id})
  {
    hide Intact;
  }

  lemma VisitedAll(crc: Checksum, merged: Directory, wal: Directory, archive: Archive)
    requires Visited(crc, merged, wal, archive, {})
    ensures merged.Keys == wal.Keys + archive.index.Keys && Undamaged(crc, archive)
  {
    hide Intact;
  }

  lemma DamagedOne(crc: Checksum, archive: Archive, id: nat)
    requires id in archive.index && !Intact(crc, archive, id)
    ensures !Undamaged(crc, archive)
  {
  }

  /** The merge so far: images of the timeline, already longest where the index was visited. */
  ghost predicate Merged(crc: Checksum, t: Timeline, merged: Directory, shapes: map<nat, Shape>, wal: Directory,
                         ws: map<nat, Shape>,
                         archive: Archive, fs: map<nat, Shape>, left: set<nat>) {
    && Images(crc, t, merged, shapes)
    && forall id :: id in merged && id !in left ==> id in shapes && shapes[id].count == Held(wal, ws, archive, fs, id)
  }

  lemma MergeDone(crc: Checksum, t: Timeline, merged: Directory, shapes: map<nat, Shape>, wal: Directory,
                  ws: map<nat, Shape>, archive: Archive, fs: map<nat, Shape>)
    requires Merged(crc, t, merged, shapes, wal, ws, archive, fs, {})
    ensures Images(crc, t, merged, shapes)
    ensures forall id :: id in merged ==>
              id in shapes && shapes[id].count == Held(wal, ws, archive, fs, id)
  {
    hide ImageOf, Held;
  }

  // ----- The whole recovery -------------------------------------------------

  /** The lowest and highest segment, refused unless every id between is there. */
  method SpanOf(dir: Directory) returns (r: Result<(nat, nat), RecoveryError>)
    ensures r.Ok? ==> Spans(dir, r.value.0, r.value.1)
    ensures r.Err? ==> forall low, high :: !Spans(dir, low, high)
  {
    if dir == map[] {
      EmptySpan(dir);
      return Err(NoSegments);
    }
    var low := Retention.Least(dir.Keys);
    var high := Retention.MaxId(dir.Keys);
    for id := low to high + 1
      invariant forall j: nat :: low <= j < id ==> j in dir
    {
      if id !in dir {
        GapSpan(dir, low, id, high);
        return Err(MissingSegments);
      }
    }
    return Ok((low, high));
  }

  lemma EmptySpan(dir: Directory)
    requires dir == map[]
    ensures forall low, high :: !Spans(dir, low, high)
  {
    forall low: nat, high: nat ensures !Spans(dir, low, high) {
      assert low !in dir;
    }
  }

  lemma GapSpan(dir: Directory, a: nat, gap: nat, b: nat)
    requires a in dir && b in dir && a <= gap <= b && gap !in dir
    ensures forall low, high :: !Spans(dir, low, high)
  {
    forall low: nat, high: nat ensures !Spans(dir, low, high) {
      assert a in dir && gap !in dir && b in dir;
    }
  }

  /** The segments the two directories hold between them. */
  function Together(wal: Directory, archive: Option<Archive>): set<nat> {
    if archive.Some? then wal.Keys + archive.value.index.Keys else wal.Keys
  }

  ghost predicate Ranges(ids: set<nat>, low: nat, high: nat) {
    low <= high && forall id: nat :: id in ids <==> low <= id <= high
  }

  /** Rolls a restored base forward to `until`, or as far as the log reaches. Whatever torn
      tails and partial copies of one timeline the two directories hold, a success reports the LSN
      the state is at, that state is the checkpoint plus exactly the records in between, and no
      record past it is left on disk. When the longer copies connect, it succeeds exactly when the
      archive is undamaged, the headers strictly increase and the bound is in reach. */
  method RecoverTo(crc: Checksum, base: nat, wal: Directory, archive: Option<Archive>, until: Option<nat>,
                   partial: bool,
                   ghost t: Timeline, ghost ws: map<nat, Shape>, ghost fs: map<nat, Shape>)
    returns (r: Result<Recovered, RecoveryError>, ghost left: map<nat, Shape>, ghost shapes: map<nat, Shape>)
    ensures ValidTimeline(t) && base <= |t.frames| && Images(crc, t, wal, ws) ==>
              (archive.Some? ==> Images(crc, t, archive.value.files, fs)) ==>
              && (r.Ok? ==> Recovers(crc, t, base, until, partial, r.value, left))
              && (archive.None? ==> shapes == ws)
              && (archive.Some? && r.Ok? ==>
                    var a := archive.value;
                    forall id :: id in a.index ==> id in a.files && crc(a.files[id]) == a.index[id])
              && (archive.None? ||
                  (var a := archive.value;
                   forall id :: id in a.index ==> id in a.files && crc(a.files[id]) == a.index[id]) ==>
                    && (archive.Some? ==>
                          && (forall id :: id in wal ==> id in shapes && ws[id].count <= shapes[id].count)
                          && (forall id :: id in archive.value.index ==>
                                id in shapes && id in fs && fs[id].count <= shapes[id].count)
                          && (forall id :: id in Together(wal, archive) ==>
                                || (id in wal && shapes[id].count == ws[id].count)
                                || (id in archive.value.index && shapes[id].count == fs[id].count)))
                    && forall low: nat, high: nat ::
                         Ranges(Together(wal, archive), low, high) && Connected(t, shapes, low, high, base) ==>
                           && high in shapes
                           && var reach := t.start(high) + shapes[high].count - 1;
                              var strict := forall id: nat :: low <= id < high ==> t.start(id) < t.start(id + 1);
                              && (until.None? ==>
                                    && (r.Ok? <==> strict && base <= reach)
                                    && (r.Ok? ==> r.value.lsn == reach <= |t.frames|)
                                    && (r.Ok? ==> r.value.redo == t.frames[base..reach]))
                              && (until.Some? && until.value <= reach ==>
                                    && (r.Ok? <==> strict && base <= until.value)
                                    && (r.Ok? ==> r.value.lsn == until.value <= |t.frames|)
                                    && (r.Ok? ==> r.value.redo == t.frames[base..until.value]))
                              && (until.Some? && until.value > reach ==>
                                    && (r.Ok? <==> strict && base <= reach && partial)
                                    && (r.Ok? ==> r.value.lsn == reach <= |t.frames|)
                                    && (r.Ok? ==> r.value.redo == t.frames[base..reach])))
  {
    hide ValidTimeline, Images, Connected, Recovers, Spans, Ranges;
    var merged := wal;
    left, shapes := ws, ws;
    ghost var ok := ValidTimeline(t) && base <= |t.frames| && Images(crc, t, wal, ws) &&
    (archive.Some? ==> Images(crc, t, archive.value.files, fs));
    if archive.Some? {
      var m;
      m, shapes := MergeArchive(crc, wal, archive.value, t, ws, fs);
      if m.Err? {
        return Err(m.error), left, shapes;
      }
      merged := m.value;
    }
    if ok { HasShapes(crc, t, merged, shapes); }
    var span := SpanOf(merged);
    SpansOnly(merged, Together(wal, archive));
    if span.Err? {
      return Err(span.error), left, shapes;
    }
    r, left := RollForward(crc, merged, span.value.0, span.value.1, base, until, partial, t, shapes);
  }

  lemma HasShapes(crc: Checksum, t: Timeline, dir: Directory, shapes: map<nat, Shape>)
    requires Images(crc, t, dir, shapes)
    ensures forall id :: id in dir ==> id in shapes
  {
  }

  /** A directory has one range of ids, if any. */
  lemma SpansOnly(dir: Directory, ids: set<nat>)
    requires dir.Keys == ids
    ensures forall low, high :: Ranges(ids, low, high) <==> Spans(dir, low, high)
    ensures forall a, b, c, d :: Spans(dir, a, b) && Spans(dir, c, d) ==> a == c && b == d && b in dir
  {
    forall a: nat, b: nat, c: nat, d: nat | Spans(dir, a, b) && Spans(dir, c, d) ensures a == c && b == d && b in dir {
      assert a in dir && b in dir && c in dir && d in dir;
    }
    forall low: nat, high: nat ensures Ranges(ids, low, high) <==> Spans(dir, low, high) {
      assert forall id: nat :: id in ids <==> id in dir;
    }
  }

  function RecordsOf(frames: seq<Frame>): (log: seq<Record>)
    ensures |log| == |frames| && forall i :: 0 <= i < |frames| ==> log[i] == Record(frames[i].lsn, frames[i].ops)
  {
    seq(|frames|, i requires 0 <= i < |frames| => Record(frames[i].lsn, frames[i].ops))
  }

  /** The redone map: the checkpoint at `base` rolled forward is the timeline's own state at
      the recovered LSN. */
  lemma RecoveredState(t: Timeline, base: nat, lsn: nat, redo: seq<Frame>)
    requires RolledTo(t, base, lsn, redo)
    ensures var log := RecordsOf(t.frames); RedoLog(StateAt(log, base), RecordsOf(redo)) == StateAt(log, lsn)
  {
    var log := RecordsOf(t.frames);
    assert log[..base] + RecordsOf(redo) == log[..lsn];
    RedoLogConcat(map[], log[..base], RecordsOf(redo));
  }
}
