/** Log records as bytes: how a commit is framed, and how a segment is replayed when its
    last write was cut at an arbitrary byte. The checksum is any function of bytes. */
module WalRecords {
  import opened Results
  import opened Keys
  import opened Bytes
  import opened Replay

  const SEGMENT_HEADER_LEN := 32
  const RECORD_HEADER_LEN := 45
  const RECORD_FOOTER_LEN := 8
  const OP_HEADER_LEN := 9
  /** The bytes of "VTXN" and "VEND". */
  const RECORD_MAGIC: seq<Byte> := [86, 84, 88, 78]
  const RECORD_END: seq<Byte> := [86, 69, 78, 68]
  const RECORD_VERSION: Byte := 5
  const CHECKSUM_VERSION: Byte := 4

  /** A record as it is framed: the commit's operations with the root they produced. */
  datatype Frame = Frame(lsn: nat, ops: seq<Operation>, root: nat, len: nat)

  // ----- Operations ---------------------------------------------------------

  function OpCode(op: Operation): Byte {
    if op.Put? then 1 else 2
  }

  function OpValue(op: Operation): Value {
    if op.Put? then op.value else []
  }

  function EncodeOp(op: Operation): seq<Byte> {
    [OpCode(op)] + U32(|op.key|) + U32(|OpValue(op)|) + op.key + OpValue(op)
  }

  function EncodeOps(ops: seq<Operation>): seq<Byte> {
    if ops == [] then [] else EncodeOp(ops[0]) + EncodeOps(ops[1..])
  }

  /** Checks a payload and splits it back into its operations. */
  function ParseOps(payload: seq<Byte>, count: nat): Option<seq<Operation>> {
    if count == 0 then (if payload == [] then Some([]) else None)
    else if |payload| < OP_HEADER_LEN then None
    else
      var code, keyLen, valueLen := payload[0], ReadAt(payload, 1, 4), ReadAt(payload, 5, 4);
      if code !in {1, 2} || keyLen == 0 || keyLen > MAX_KEY_SIZE || valueLen > MAX_VALUE_SIZE ||
          (code == 2 && valueLen != 0) then None
      else if |payload| < OP_HEADER_LEN + keyLen + valueLen then None
      else
        var key := payload[OP_HEADER_LEN..OP_HEADER_LEN + keyLen];
        var value := payload[OP_HEADER_LEN + keyLen..OP_HEADER_LEN + keyLen + valueLen];
        match ParseOps(payload[OP_HEADER_LEN + keyLen + valueLen..], count - 1)
        case None => None
        case Some(rest) => Some([if code == 1 then Operation.Put(key, value) else Operation.Delete(key)] + rest)
  }

  lemma OpFields(op: Operation, rest: seq<Byte>)
    requires ValidOp(op)
    ensures var p := EncodeOp(op) + rest;
            var k, v := |op.key|, |OpValue(op)|;
            && |p| >= OP_HEADER_LEN + k + v && p[0] == OpCode(op)
            && ReadAt(p, 1, 4) == k && ReadAt(p, 5, 4) == v
            && p[OP_HEADER_LEN..OP_HEADER_LEN + k] == op.key
            && p[OP_HEADER_LEN + k..OP_HEADER_LEN + k + v] == OpValue(op)
            && p[OP_HEADER_LEN + k + v..] == rest
  {
    hide BigEndian, ReadBigEndian;
    var k, v := |op.key|, |OpValue(op)|;
    OpSlices(OpCode(op), U32(k), U32(v), op.key, OpValue(op), rest);
    Widths();
    ReadBack(k, 4);
    ReadBack(v, 4);
  }

  lemma OpSlices(code: Byte, k: seq<Byte>, v: seq<Byte>, key: seq<Byte>, value: seq<Byte>, rest: seq<Byte>)
    requires |k| == 4 && |v| == 4
    ensures var p := [code] + k + v + key + value + rest;
            var at := OP_HEADER_LEN + |key|;
            && |p| == at + |value| + |rest| && p[0] == code && p[1..5] == k && p[5..9] == v
            && p[OP_HEADER_LEN..at] == key && p[at..at + |value|] == value && p[at + |value|..] == rest
  {
  }

  lemma ParseNext(op: Operation, rest: seq<Byte>, ops: seq<Operation>)
    requires ValidOp(op) && ParseOps(rest, |ops|) == Some(ops)
    ensures ParseOps(EncodeOp(op) + rest, |ops| + 1) == Some([op] + ops)
  {
    hide EncodeOp, ReadAt;
    OpFields(op, rest);
  }

  lemma EncodeNext(ops: seq<Operation>)
    requires ops != []
    ensures EncodeOps(ops) == EncodeOp(ops[0]) + EncodeOps(ops[1..])
  {
  }

  lemma NoOps()
    ensures ParseOps(EncodeOps([]), 0) == Some([])
  {
  }

  /** Operations with keys of 1 to 65536 bytes and values of up to 16 MiB read back. */
  lemma {:induction false} OpsRoundTrip(ops: seq<Operation>)
    requires forall i :: 0 <= i < |ops| ==> 1 <= |ops[i].key| <= 65536 && (ops[i].Put? ==> |ops[i].value| <= 16777216)
    ensures ParseOps(EncodeOps(ops), |ops|) == Some(ops)
    decreases |ops|
  {
    hide EncodeOp, ParseOps, EncodeOps;
    if ops == [] {
      NoOps();
    } else {
      OpsRoundTrip(ops[1..]);
      EncodeNext(ops);
      ParseNext(ops[0], EncodeOps(ops[1..]), ops[1..]);
      assert ops == [ops[0]] + ops[1..];
    }
  }

  lemma {:induction false} OpsAtLeast(ops: seq<Operation>)
    ensures |EncodeOps(ops)| >= OP_HEADER_LEN * |ops|
    decreases |ops|
  {
    if ops == [] {
    } else {
      OpsAtLeast(ops[1..]);
    }
  }

  // ----- Frames -------------------------------------------------------------

  function TransactionChecksum(crc: Checksum, lsn: nat, count: nat, payload: seq<Byte>, root: nat, len: nat): Crc {
    crc([CHECKSUM_VERSION] + U64(lsn) + U32(count) + U32(|payload|) + U64(root) + U64(len) + payload)
  }

  function HeaderFields(crc: Checksum, f: Frame): seq<Byte> {
    var payload := EncodeOps(f.ops);
    RECORD_MAGIC + [RECORD_VERSION] + U64(f.lsn) + U32(|f.ops|) + U32(|payload|) +
    U32(TransactionChecksum(crc, f.lsn, |f.ops|, payload, f.root, f.len)) + U64(f.root) + U64(f.len)
  }

  /** The header guards itself with its own checksum. */
  function EncodeHeader(crc: Checksum, f: Frame): seq<Byte> {
    HeaderFields(crc, f) + U32(crc(HeaderFields(crc, f)))
  }

  function FrameLen(f: Frame): nat {
    RECORD_HEADER_LEN + |EncodeOps(f.ops)| + RECORD_FOOTER_LEN
  }

  function Encode(crc: Checksum, f: Frame): seq<Byte> {
    EncodeHeader(crc, f) + EncodeOps(f.ops) + U32(FrameLen(f)) + RECORD_END
  }

  /** What the commit path guarantees of a record it frames. */
  predicate ValidFrame(f: Frame) {
    && f.ops != [] && ValidOps(f.ops)
    && f.lsn < 0x1_0000_0000_0000_0000 && f.root < 0x1_0000_0000_0000_0000 && f.len < 0x1_0000_0000_0000_0000
    && FrameLen(f) < 0x1_0000_0000
  }

  lemma FrameShape(crc: Checksum, f: Frame)
    ensures |HeaderFields(crc, f)| == 41 && |EncodeHeader(crc, f)| == RECORD_HEADER_LEN
    ensures |Encode(crc, f)| == FrameLen(f)
    ensures Encode(crc, f)[..RECORD_HEADER_LEN] == EncodeHeader(crc, f)
    ensures EncodeHeader(crc, f)[..41] == HeaderFields(crc, f)
    ensures FrameLen(f) >= 53 && Encode(crc, f)[0] == 86 && Encode(crc, f)[FrameLen(f) - 1] == 68
  {
  }

  /** Every header field reads back where the parser looks for it. */
  lemma HeaderReads(crc: Checksum, f: Frame)
    requires ValidFrame(f)
    ensures var h, payload := EncodeHeader(crc, f), EncodeOps(f.ops);
            && |h| == RECORD_HEADER_LEN && h[..4] == RECORD_MAGIC && h[4] == RECORD_VERSION
            && ReadAt(h, 5, 8) == f.lsn && ReadAt(h, 13, 4) == |f.ops| && ReadAt(h, 17, 4) == |payload|
            && ReadAt(h, 21, 4) == TransactionChecksum(crc, f.lsn, |f.ops|, payload, f.root, f.len)
            && ReadAt(h, 25, 8) == f.root && ReadAt(h, 33, 8) == f.len
            && ReadAt(h, 41, 4) == crc(h[..41])
  {
    hide EncodeOps, TransactionChecksum, BigEndian, ReadBigEndian, FrameLen;
    var payload := EncodeOps(f.ops);
    var sum := TransactionChecksum(crc, f.lsn, |f.ops|, payload, f.root, f.len);
    HeaderSizes(crc, f);
    HeaderSlices(RECORD_MAGIC + [RECORD_VERSION], U64(f.lsn), U32(|f.ops|), U32(|payload|), U32(sum), U64(f.root),
      U64(f.len),
                 U32(crc(HeaderFields(crc, f))));
    ReadBack(f.lsn, 8);
    ReadBack(|f.ops|, 4);
    ReadBack(|payload|, 4);
    ReadBack(sum, 4);
    ReadBack(f.root, 8);
    ReadBack(f.len, 8);
    ReadBack(crc(HeaderFields(crc, f)), 4);
  }

  lemma HeaderSizes(crc: Checksum, f: Frame)
    requires ValidFrame(f)
    ensures f.lsn < Pow256(8) && f.root < Pow256(8) && f.len < Pow256(8) && |f.ops| < Pow256(4)
    ensures |EncodeOps(f.ops)| < Pow256(4)
    ensures Pow256(4) == 0x1_0000_0000
    ensures |HeaderFields(crc, f)| == 41 && EncodeHeader(crc, f)[..41] == HeaderFields(crc, f)
  {
    Widths();
    OpsAtLeast(f.ops);
    FrameShape(crc, f);
  }

  lemma HeaderSlices(m: seq<Byte>, a: seq<Byte>, b: seq<Byte>, c: seq<Byte>, d: seq<Byte>, e: seq<Byte>, g: seq<Byte>,
                     s: seq<Byte>)
    requires |m| == 5 && |a| == 8 && |b| == 4 && |c| == 4 && |d| == 4 && |e| == 8 && |g| == 8 && |s| == 4
    ensures var h := m + a + b + c + d + e + g + s;
            && |h| == 45 && h[..5] == m && h[5..13] == a && h[13..17] == b && h[17..21] == c && h[21..25] == d
            && h[25..33] == e && h[33..41] == g && h[41..45] == s
  {
  }

  // ----- Reading one frame --------------------------------------------------

  datatype Outcome =
    | Ended
    | Torn
    | Corrupt
    | Whole(frame: Frame, size: nat)

  /** Reads the frame at the front of `rest`, of which the first `written` bytes were ever
      written. A frame that reaches past them is torn; one that does not and fails a
      check is corrupt. */
  function ReadFrame(crc: Checksum, rest: seq<Byte>, written: int): Outcome {
    if written <= 0 then Ended
    else if |rest| < RECORD_HEADER_LEN || written < RECORD_HEADER_LEN then Torn
    else
      var h := rest[..RECORD_HEADER_LEN];
      if h[..4] != RECORD_MAGIC || h[4] !in {4, RECORD_VERSION} then (if Zeros(h) then Torn else Corrupt)
      else if h[4] == RECORD_VERSION && crc(h[..41]) != ReadAt(h, 41, 4) then Corrupt
      else
        var lsn, count, payloadLen := ReadAt(h, 5, 8), ReadAt(h, 13, 4), ReadAt(h, 17, 4);
        if count == 0 || payloadLen < count * OP_HEADER_LEN then Corrupt
        else ReadBody(crc, rest, written, lsn, count, payloadLen, ReadAt(h, 21, 4), ReadAt(h, 25, 8), ReadAt(h, 33, 8))
  }

  function ReadBody(crc: Checksum, rest: seq<Byte>, written: int, lsn: nat, count: nat, payloadLen: nat, sum: nat,
                    root: nat, len: nat): Outcome {
    var total := RECORD_HEADER_LEN + payloadLen + RECORD_FOOTER_LEN;
    if total > |rest| || total > written then Torn
    else
      var payload := rest[RECORD_HEADER_LEN..RECORD_HEADER_LEN + payloadLen];
      var footer := rest[RECORD_HEADER_LEN + payloadLen..total];
      match ParseOps(payload, count)
      case None => Corrupt
      case Some(ops) =>
        if ReadAt(footer, 0, 4) != total || footer[4..8] != RECORD_END ||
            TransactionChecksum(crc, lsn, count, payload, root, len) != sum
        then Corrupt
        else Whole(Frame(lsn, ops, root, len), total)
  }

  lemma HeaderPasses(crc: Checksum, f: Frame, rest: seq<Byte>, written: int)
    requires ValidFrame(f) && |rest| >= RECORD_HEADER_LEN && written >= RECORD_HEADER_LEN
    requires rest[..RECORD_HEADER_LEN] == EncodeHeader(crc, f)
    ensures var payload := EncodeOps(f.ops);
            ReadFrame(crc, rest, written) ==
            ReadBody(crc, rest, written, f.lsn, |f.ops|, |payload|,
                     TransactionChecksum(crc, f.lsn, |f.ops|, payload, f.root, f.len), f.root, f.len)
  {
    hide ReadBody, TransactionChecksum, EncodeOps, EncodeHeader;
    HeaderReads(crc, f);
    OpsAtLeast(f.ops);
  }

  /** A frame that is wholly present decodes to exactly what was encoded. */
  lemma WholeReads(crc: Checksum, f: Frame, tail: seq<Byte>, written: int)
    requires ValidFrame(f) && written >= FrameLen(f)
    ensures ReadFrame(crc, Encode(crc, f) + tail, written) == Whole(f, FrameLen(f))
  {
    hide EncodeHeader, EncodeOps, HeaderFields, ReadFrame, ParseOps, TransactionChecksum, BigEndian, ReadBigEndian;
    var rest, payload := Encode(crc, f) + tail, EncodeOps(f.ops);
    FrameShape(crc, f);
    assert rest == EncodeHeader(crc, f) + payload + U32(FrameLen(f)) + RECORD_END + tail;
    assert rest[..RECORD_HEADER_LEN] == EncodeHeader(crc, f);
    HeaderPasses(crc, f, rest, written);
    BodyReads(crc, f, EncodeHeader(crc, f), tail, written);
  }

  /** Every record a commit may write reads back whole: operations with keys of 1 to 65536 bytes and
      values of up to 16 MiB, 64-bit fields, and fewer than 4 GiB in all. */
  lemma FrameRoundTrip(crc: Checksum, f: Frame, tail: seq<Byte>, written: int)
    requires f.ops != [] && forall i :: 0 <= i < |f.ops| ==>
               1 <= |f.ops[i].key| <= 65536 && (f.ops[i].Put? ==> |f.ops[i].value| <= 16777216)
    requires f.lsn < 0x1_0000_0000_0000_0000 && f.root < 0x1_0000_0000_0000_0000 && f.len < 0x1_0000_0000_0000_0000
    requires |Encode(crc, f)| < 0x1_0000_0000 && written >= |Encode(crc, f)|
    ensures ValidFrame(f) && ReadFrame(crc, Encode(crc, f) + tail, written) == Whole(f, |Encode(crc, f)|)
  {
    hide Encode, EncodeHeader, ReadFrame, HeaderFields;
    FrameShape(crc, f);
    WholeReads(crc, f, tail, written);
  }

  lemma BodyReads(crc: Checksum, f: Frame, h: seq<Byte>, tail: seq<Byte>, written: int)
    requires ValidFrame(f) && written >= FrameLen(f) && |h| == RECORD_HEADER_LEN
    ensures var rest, payload := h + EncodeOps(f.ops) + U32(FrameLen(f)) + RECORD_END + tail, EncodeOps(f.ops);
            ReadBody(crc, rest, written, f.lsn, |f.ops|, |payload|,
                     TransactionChecksum(crc, f.lsn, |f.ops|, payload, f.root, f.len), f.root, f.len) ==
                       Whole(f, FrameLen(f))
  {
    hide EncodeOps, ParseOps, TransactionChecksum, BigEndian, ReadBigEndian;
    BodySlices(h, EncodeOps(f.ops), U32(FrameLen(f)), RECORD_END, tail);
    OpsRoundTrip(f.ops);
    Widths();
    ReadBack(FrameLen(f), 4);
  }

  lemma BodySlices(h: seq<Byte>, payload: seq<Byte>, n: seq<Byte>, e: seq<Byte>, tail: seq<Byte>)
    requires |h| == RECORD_HEADER_LEN && |n| == 4 && |e| == 4
    ensures var rest := h + payload + n + e + tail;
            var total := RECORD_HEADER_LEN + |payload| + RECORD_FOOTER_LEN;
            && total <= |rest| && rest[RECORD_HEADER_LEN..RECORD_HEADER_LEN + |payload|] == payload
            && rest[RECORD_HEADER_LEN + |payload|..total] == n + e
            && (n + e)[0..4] == n && (n + e)[4..8] == e
  {
  }

  /** A frame cut before its last byte, followed by untouched runway, never decodes: it
      ends the replay as torn, or leaves no trace at all. */
  lemma CutStops(crc: Checksum, f: Frame, n: nat, rest: seq<Byte>, written: int)
    requires ValidFrame(f) && n < FrameLen(f) && n <= |rest| && rest[..n] == Encode(crc, f)[..n] && written <= n
    ensures ReadFrame(crc, rest, written) == if written <= 0 then Ended else Torn
  {
    FrameShape(crc, f);
    hide Encode, EncodeHeader, EncodeOps, HeaderFields, ParseOps, TransactionChecksum, ReadAt;
    if written >= RECORD_HEADER_LEN {
      assert rest[..RECORD_HEADER_LEN] == rest[..n][..RECORD_HEADER_LEN] == Encode(crc, f)[..n][..RECORD_HEADER_LEN];
      HeaderPasses(crc, f, rest, written);
      BodyTorn(crc, f, rest, written);
    }
  }

  lemma BodyTorn(crc: Checksum, f: Frame, rest: seq<Byte>, written: int)
    requires written < FrameLen(f)
    ensures ReadBody(crc, rest, written, f.lsn, |f.ops|, |EncodeOps(f.ops)|,
                     TransactionChecksum(crc, f.lsn, |f.ops|, EncodeOps(f.ops), f.root, f.len), f.root, f.len) == Torn
  {
    hide EncodeOps, TransactionChecksum, ParseOps;
  }

  // ----- Segments -----------------------------------------------------------

  function EncodeAll(crc: Checksum, frames: seq<Frame>): seq<Byte> {
    if frames == [] then [] else Encode(crc, frames[0]) + EncodeAll(crc, frames[1..])
  }

  lemma NoFrames(crc: Checksum)
    ensures EncodeAll(crc, []) == []
  {
  }

  lemma {:induction false} EncodeAllSplit(crc: Checksum, a: seq<Frame>, b: seq<Frame>)
    ensures EncodeAll(crc, a + b) == EncodeAll(crc, a) + EncodeAll(crc, b)
    decreases |a|
  {
    hide Encode;
    if a == [] {
      assert a + b == b;
    } else {
      assert (a + b)[1..] == a[1..] + b;
      EncodeAllSplit(crc, a[1..], b);
    }
  }

  /** One past the last non-zero byte past the segment header. */
  function LastWritten(file: seq<Byte>): (end: nat)
    ensures SEGMENT_HEADER_LEN <= end && (|file| >= SEGMENT_HEADER_LEN ==> end <= |file|)
  {
    if |file| <= SEGMENT_HEADER_LEN then SEGMENT_HEADER_LEN
    else if file[|file| - 1] != 0 then |file|
    else LastWritten(file[..|file| - 1])
  }

  method LastWrittenByte(file: seq<Byte>) returns (end: nat)
    ensures end == LastWritten(file)
  {
    end := |file|;
    assert file[..|file|] == file;
    while end > SEGMENT_HEADER_LEN && file[end - 1] == 0
      invariant 0 <= end <= |file| && LastWritten(file[..end]) == LastWritten(file)
    {
      assert file[..end][..end - 1] == file[..end - 1];
      end := end - 1;
    }
    if end <= SEGMENT_HEADER_LEN {
      end := SEGMENT_HEADER_LEN;
    }
  }

  lemma {:induction false} LastWrittenAtMost(file: seq<Byte>, p: nat)
    requires SEGMENT_HEADER_LEN <= p <= |file| && forall i :: p <= i < |file| ==> file[i] == 0
    ensures LastWritten(file) <= p
    decreases |file|
  {
    if |file| > p { LastWrittenAtMost(file[..|file| - 1], p); }
  }

  lemma {:induction false} LastWrittenAtLeast(file: seq<Byte>, p: nat)
    requires SEGMENT_HEADER_LEN < p <= |file| && file[p - 1] != 0
    ensures LastWritten(file) >= p
    decreases |file|
  {
    if |file| > p { LastWrittenAtLeast(file[..|file| - 1], p); }
  }

  /** A segment file after a crash: its header, whole frames, and a last frame cut after
      `n` bytes with nothing but runway behind it. */
  ghost predicate CrashImage(crc: Checksum, file: seq<Byte>, frames: seq<Frame>, last: Frame, n: nat) {
    && |file| >= SEGMENT_HEADER_LEN && ValidFrame(last) && n < FrameLen(last)
    && (forall i :: 0 <= i < |frames| ==> ValidFrame(frames[i]))
    && Tail(crc, file[SEGMENT_HEADER_LEN..], frames, last, n)
  }

  ghost predicate Tail(crc: Checksum, rest: seq<Byte>, frames: seq<Frame>, last: Frame, n: nat) {
    var all := EncodeAll(crc, frames);
    && |all| + n <= |rest| && n <= |Encode(crc, last)| && rest[..|all|] == all &&
         rest[|all|..|all| + n] == Encode(crc, last)[..n]
    && Zeros(rest[|all| + n..])
  }

  predicate Consecutive(frames: seq<Frame>, first: nat) {
    forall i :: 0 <= i < |frames| ==> frames[i].lsn == first + i
  }

  datatype SegmentError = CorruptSegment(offset: nat)

  /** What replaying a segment leaves: the records to redo, where the records end, and the
      last LSN. */
  datatype Replayed = Replayed(redo: seq<Frame>, end: nat, lsn: nat)

  /** The frames of a run that starts at LSN `first` and lie past `lsn`. */
  function Past(frames: seq<Frame>, first: nat, lsn: nat): seq<Frame> {
    if lsn < first then frames
    else if lsn - first + 1 >= |frames| then []
    else frames[lsn - first + 1..]
  }

  function LastLsn(frames: seq<Frame>, first: nat, lsn: nat): nat {
    if lsn >= first + |frames| || frames == [] then lsn else first + |frames| - 1
  }

  /** Replays one segment into the state at `lsn`. Whatever byte the last write was cut at,
      exactly the complete records are decoded, in order, and the end offset is where they
      end. It fails exactly on a torn tail of a sealed segment or a gap before the first record. */
  method ReplaySegment(crc: Checksum, file: seq<Byte>, first: nat, isLast: bool, lsn: nat, ghost frames: seq<Frame>,
                       ghost last: Frame, ghost n: nat)
    returns (r: Result<Replayed, SegmentError>)
    requires |file| >= SEGMENT_HEADER_LEN
    ensures CrashImage(crc, file, frames, last, n) && Consecutive(frames, first) ==>
              && (r.Ok? ==>
                     r.value == Replayed(Past(frames, first, lsn), SEGMENT_HEADER_LEN + |EncodeAll(crc, frames)|,
                     LastLsn(frames, first, lsn)))
              && (r.Ok? <==> (frames == [] || first <= lsn + 1) && (isLast || n == 0))
  {
    hide ReadFrame, CrashImage, Consecutive, ReplayedTo, EncodeAll, LastWritten, Tail, Past, LastLsn;
    ghost var ok := CrashImage(crc, file, frames, last, n) && Consecutive(frames, first);
    var written := LastWrittenByte(file);
    var offset, state, sawRecord, redo: seq<Frame> := SEGMENT_HEADER_LEN, lsn, false, [];
    ghost var i := 0;
    if ok { ReplayBegins(crc, file, frames, last, n, first, lsn); }
    while offset < |file|
      invariant SEGMENT_HEADER_LEN <= offset
      invariant ok ==>
                  ReplayedTo(crc, file, frames, last, n, first, lsn, i, offset, state, sawRecord, redo) &&
                  (i == 0 || first <= lsn + 1)
      decreases |file| - offset
    {
      FrameFits(crc, file[offset..], written - offset);
      if ok { NextFrame(crc, file, frames, last, n, first, lsn, i, offset, state, sawRecord, redo); }
      match ReadFrame(crc, file[offset..], written - offset)
      case Ended =>
        break;
      case Torn =>
        if !isLast {
          return Err(CorruptSegment(offset));
        }
        break;
      case Corrupt =>
        return Err(CorruptSegment(offset));
      case Whole(frame, size) =>
        if ok {
          ReplayStarts(crc, file, frames, last, n, first, lsn, i, offset, state, sawRecord, redo);
          if first <= lsn + 1 { ReplayAdvances(crc, file, frames, last, n, first, lsn, i, offset, state, sawRecord,
              redo); }
        }
        if !sawRecord && frame.lsn != first {
          return Err(CorruptSegment(offset));
        }
        if frame.lsn > state && frame.lsn != state + 1 {
          return Err(CorruptSegment(offset));
        }
        if frame.lsn > state {
          state, redo := frame.lsn, redo + [frame];
        }
        sawRecord, offset, i := true, offset + size, i + 1;
    }
    if ok { ReplayEnds(crc, file, frames, last, n, first, lsn, i, offset, state, sawRecord, redo); }
    return Ok(Replayed(redo, offset, state));
  }

  /** The first `i` frames end at `offset`. */
  ghost predicate FramesBehind(crc: Checksum, file: seq<Byte>, frames: seq<Frame>, last: Frame, n: nat, i: nat,
                               offset: nat) {
    && i <= |frames| && SEGMENT_HEADER_LEN <= offset <= |file|
    && offset == SEGMENT_HEADER_LEN + |EncodeAll(crc, frames)| - |EncodeAll(crc, frames[i..])|
    && Tail(crc, file[offset..], frames[i..], last, n)
  }

  ghost predicate ReplayedTo(crc: Checksum, file: seq<Byte>, frames: seq<Frame>, last: Frame, n: nat, first: nat,
                             lsn: nat,
                             i: nat, offset: nat, state: nat, sawRecord: bool, redo: seq<Frame>) {
    && FramesBehind(crc, file, frames, last, n, i, offset)
    && sawRecord == (i > 0)
    && redo == Past(frames[..i], first, lsn) && state == LastLsn(frames[..i], first, lsn)
  }

  lemma FramesBegin(crc: Checksum, file: seq<Byte>, frames: seq<Frame>, last: Frame, n: nat)
    requires CrashImage(crc, file, frames, last, n)
    ensures FramesBehind(crc, file, frames, last, n, 0, SEGMENT_HEADER_LEN)
  {
    assert frames[0..] == frames;
  }

  lemma FramesAdvance(crc: Checksum, file: seq<Byte>, frames: seq<Frame>, last: Frame, n: nat, i: nat, offset: nat)
    requires FramesBehind(crc, file, frames, last, n, i, offset) && i < |frames|
    ensures FramesBehind(crc, file, frames, last, n, i + 1, offset + FrameLen(frames[i]))
  {
    hide Tail, EncodeAll, Encode, FrameLen;
    var f, rest := frames[i], file[offset..];
    assert frames[i..][0] == f && frames[i..][1..] == frames[i + 1..];
    EncodeAllNext(crc, frames[i..]);
    TailAdvances(crc, rest, frames[i..], last, n);
    assert rest[FrameLen(f)..] == file[offset + FrameLen(f)..];
  }

  lemma FramesEnd(crc: Checksum, file: seq<Byte>, frames: seq<Frame>, last: Frame, n: nat, i: nat, offset: nat)
    requires FramesBehind(crc, file, frames, last, n, i, offset) && (i == |frames| || offset >= |file|)
    ensures i == |frames| && offset == SEGMENT_HEADER_LEN + |EncodeAll(crc, frames)|
  {
    hide FrameLen, Encode;
    if i < |frames| {
      EncodeAllNext(crc, frames[i..]);
      FrameShape(crc, frames[i]);
    }
    assert frames[|frames|..] == [];
  }

  lemma ReplayBegins(crc: Checksum, file: seq<Byte>, frames: seq<Frame>, last: Frame, n: nat, first: nat, lsn: nat)
    requires CrashImage(crc, file, frames, last, n)
    ensures ReplayedTo(crc, file, frames, last, n, first, lsn, 0, SEGMENT_HEADER_LEN, lsn, false, [])
  {
    FramesBegin(crc, file, frames, last, n);
    assert frames[..0] == [];
  }

  /** At `offset` the parser meets the next whole frame, or the end. */
  lemma NextFrame(crc: Checksum, file: seq<Byte>, frames: seq<Frame>, last: Frame, n: nat, first: nat, lsn: nat,
                  i: nat, offset: nat, state: nat, sawRecord: bool, redo: seq<Frame>)
    requires CrashImage(crc, file, frames, last, n)
    requires ReplayedTo(crc, file, frames, last, n, first, lsn, i, offset, state, sawRecord, redo)
    ensures i <= |frames| && offset <= |file|
    ensures var o := ReadFrame(crc, file[offset..], LastWritten(file) - offset);
            if i < |frames| then o == Whole(frames[i], FrameLen(frames[i]))
            else o == if n == 0 then Ended else Torn
  {
    hide ReadFrame, LastWritten, ValidFrame, Encode, FrameLen, EncodeAll, Past, LastLsn;
    if i < |frames| {
      WholeNext(crc, file, frames, last, n, i, offset);
    } else {
      assert frames[i..] == [];
      CutNext(crc, file, last, n, offset);
    }
  }

  lemma FrameFits(crc: Checksum, rest: seq<Byte>, written: int)
    ensures var o := ReadFrame(crc, rest, written); o.Whole? ==> 0 < o.size <= |rest|
  {
    hide ParseOps, TransactionChecksum, ReadAt;
  }

  lemma WholeNext(crc: Checksum, file: seq<Byte>, frames: seq<Frame>, last: Frame, n: nat, i: nat, offset: nat)
    requires i < |frames| && ValidFrame(frames[i]) && SEGMENT_HEADER_LEN <= offset <= |file|
    requires Tail(crc, file[offset..], frames[i..], last, n)
    ensures ReadFrame(crc, file[offset..], LastWritten(file) - offset) == Whole(frames[i], FrameLen(frames[i]))
  {
    hide ReadFrame, LastWritten, Encode, FrameLen, ValidFrame, Tail, EncodeAll;
    var f, rest := frames[i], file[offset..];
    assert 0 < FrameLen(f) <= |rest| && rest[FrameLen(f) - 1] == 68 && rest == Encode(crc, f) + rest[FrameLen(f)..] by {
      assert frames[i..][0] == f;
      FrameShape(crc, f);
      FrontTail(crc, rest, frames[i..], last, n);
    }
    LastWrittenAtLeast(file, offset + FrameLen(f));
    WholeReads(crc, f, rest[FrameLen(f)..], LastWritten(file) - offset);
  }

  lemma FrontTail(crc: Checksum, rest: seq<Byte>, frames: seq<Frame>, last: Frame, n: nat)
    requires frames != [] && Tail(crc, rest, frames, last, n)
    ensures var a := Encode(crc, frames[0]);
            |a| <= |rest| && rest == a + rest[|a|..] && (|a| > 0 ==> rest[|a| - 1] == a[|a| - 1])
  {
    hide Encode;
    StartsWith(rest, EncodeAll(crc, frames), Encode(crc, frames[0]), EncodeAll(crc, frames[1..]));
  }

  lemma StartsWith(rest: seq<Byte>, all: seq<Byte>, a: seq<Byte>, b: seq<Byte>)
    requires |all| <= |rest| && rest[..|all|] == all && all == a + b
    ensures rest == a + rest[|a|..] && |a| <= |rest|
    ensures forall j :: 0 <= j < |a| ==> rest[j] == a[j]
  {
    assert forall j :: 0 <= j < |all| ==> rest[j] == rest[..|all|][j];
  }

  lemma EmptyTail(crc: Checksum, rest: seq<Byte>, last: Frame, n: nat)
    requires Tail(crc, rest, [], last, n)
    ensures n <= |rest| && n <= |Encode(crc, last)| && rest[..n] == Encode(crc, last)[..n] && Zeros(rest[n..])
  {
    hide Encode;
    assert EncodeAll(crc, []) == [] && rest[0..n] == rest[..n];
  }

  lemma ZeroPast(file: seq<Byte>, offset: nat, n: nat)
    requires offset + n <= |file| && Zeros(file[offset..][n..])
    ensures forall j :: offset + n <= j < |file| ==> file[j] == 0
  {
    forall j | offset + n <= j < |file| ensures file[j] == 0 {
      assert file[j] == file[offset..][n..][j - offset - n];
    }
  }

  lemma CutNext(crc: Checksum, file: seq<Byte>, last: Frame, n: nat, offset: nat)
    requires ValidFrame(last) && n < FrameLen(last) && SEGMENT_HEADER_LEN <= offset <= |file|
    requires Tail(crc, file[offset..], [], last, n)
    ensures var o := ReadFrame(crc, file[offset..], LastWritten(file) - offset);
            o == if n == 0 then Ended else Torn
  {
    hide ReadFrame, LastWritten, Encode, FrameLen, ValidFrame, Tail, EncodeAll;
    EmptyTail(crc, file[offset..], last, n);
    ZeroPast(file, offset, n);
    LastWrittenAtMost(file, offset + n);
    if n > 0 {
      FrameShape(crc, last);
      assert file[offset] == file[offset..][..n][0] == Encode(crc, last)[..n][0] == 86;
      LastWrittenAtLeast(file, offset + 1);
    }
    CutStops(crc, last, n, file[offset..], LastWritten(file) - offset);
  }

  lemma ReplayStarts(crc: Checksum, file: seq<Byte>, frames: seq<Frame>, last: Frame, n: nat, first: nat, lsn: nat,
                     i: nat, offset: nat, state: nat, sawRecord: bool, redo: seq<Frame>)
    requires Consecutive(frames, first)
    requires ReplayedTo(crc, file, frames, last, n, first, lsn, i, offset, state, sawRecord, redo)
    ensures i == 0 ==> state == lsn && (frames != [] ==> frames[0].lsn == first)
  {
  }

  lemma ReplayAdvances(crc: Checksum, file: seq<Byte>, frames: seq<Frame>, last: Frame, n: nat, first: nat, lsn: nat,
                       i: nat, offset: nat, state: nat, sawRecord: bool, redo: seq<Frame>)
    requires Consecutive(frames, first) && first <= lsn + 1 && i < |frames|
    requires ReplayedTo(crc, file, frames, last, n, first, lsn, i, offset, state, sawRecord, redo)
    ensures var f := frames[i];
            var more := f.lsn > state;
            && (more ==> f.lsn == state + 1) && (!sawRecord ==> f.lsn == first)
            && ReplayedTo(crc, file, frames, last, n, first, lsn, i + 1, offset + FrameLen(f),
                          if more then f.lsn else state, true, if more then redo + [f] else redo)
  {
    hide FramesBehind, Past, LastLsn;
    FramesAdvance(crc, file, frames, last, n, i, offset);
    PastStep(frames, first, lsn, i);
  }

  lemma EncodeAllNext(crc: Checksum, frames: seq<Frame>)
    requires frames != []
    ensures |EncodeAll(crc, frames)| == FrameLen(frames[0]) + |EncodeAll(crc, frames[1..])|
  {
    FrameShape(crc, frames[0]);
  }

  lemma PastStep(frames: seq<Frame>, first: nat, lsn: nat, i: nat)
    requires Consecutive(frames, first) && first <= lsn + 1 && i < |frames|
    ensures var f, state := frames[i], LastLsn(frames[..i], first, lsn);
            var more := f.lsn > state;
            && (more ==> f.lsn == state + 1)
            && Past(frames[..i + 1], first, lsn) ==
                 (if more then Past(frames[..i], first, lsn) + [f] else Past(frames[..i], first, lsn))
            && LastLsn(frames[..i + 1], first, lsn) == if more then f.lsn else state
  {
    assert frames[..i + 1] == frames[..i] + [frames[i]];
  }

  lemma TailAdvances(crc: Checksum, rest: seq<Byte>, frames: seq<Frame>, last: Frame, n: nat)
    requires frames != [] && Tail(crc, rest, frames, last, n)
    ensures FrameLen(frames[0]) <= |rest| && Tail(crc, rest[FrameLen(frames[0])..], frames[1..], last, n)
  {
    hide Encode, FrameLen;
    var m, all, more := FrameLen(frames[0]), EncodeAll(crc, frames), EncodeAll(crc, frames[1..]);
    FrameShape(crc, frames[0]);
    assert all == Encode(crc, frames[0]) + more && |Encode(crc, frames[0])| == m;
    hide EncodeAll;
    assert all[m..] == more && |all| == m + |more|;
    assert rest[m..][..|more|] == rest[..|all|][m..];
    assert rest[m..][|more|..|more| + n] == rest[|all|..|all| + n];
    assert rest[m..][|more| + n..] == rest[|all| + n..];
  }

  lemma ReplayEnds(crc: Checksum, file: seq<Byte>, frames: seq<Frame>, last: Frame, n: nat, first: nat, lsn: nat,
                   i: nat, offset: nat, state: nat, sawRecord: bool, redo: seq<Frame>)
    requires ReplayedTo(crc, file, frames, last, n, first, lsn, i, offset, state, sawRecord, redo)
    requires i == |frames| || offset >= |file|
    ensures i == |frames| && offset == SEGMENT_HEADER_LEN + |EncodeAll(crc, frames)|
    ensures redo == Past(frames, first, lsn) && state == LastLsn(frames, first, lsn)
    ensures offset >= |file| ==> n == 0
  {
    hide Past, LastLsn, EncodeAll;
    FramesEnd(crc, file, frames, last, n, i, offset);
    assert frames[..i] == frames;
  }
}
