/** Log segments as files: their headers, walking their frames without validating bodies,
    cutting them at an LSN, and merging a backed-up copy with an archived one. */
module SegmentFiles {
  import opened Results
  import opened Keys
  import opened Bytes
  import opened WalRecords

  /** The bytes of "VSEG". */
  const SEGMENT_MAGIC: seq<Byte> := [86, 83, 69, 71]
  const SEGMENT_VERSION: Byte := 4

  // ----- Headers ------------------------------------------------------------

  datatype Header = Header(id: nat, first: nat)

  function HeaderBytes(h: Header): seq<Byte> {
    SEGMENT_MAGIC + [SEGMENT_VERSION, 0, 0, 0] + U64(h.id) + U64(h.first)
  }

  function EncodeSegmentHeader(crc: Checksum, h: Header): seq<Byte> {
    HeaderBytes(h) + U32(crc(HeaderBytes(h))) + [0, 0, 0, 0]
  }

  /** What a segment's header claims, when its checksum holds. */
  function ReadHeader(crc: Checksum, file: seq<Byte>): Option<Header> {
    if |file| < SEGMENT_HEADER_LEN || file[..4] != SEGMENT_MAGIC || file[4] != SEGMENT_VERSION ||
        crc(file[..24]) != ReadAt(file, 24, 4) then None
    else Some(Header(ReadAt(file, 8, 8), ReadAt(file, 16, 8)))
  }

  lemma HeaderRoundTrip(crc: Checksum, h: Header, rest: seq<Byte>)
    requires h.id < 0x1_0000_0000_0000_0000 && h.first < 0x1_0000_0000_0000_0000
    ensures ReadHeader(crc, EncodeSegmentHeader(crc, h) + rest) == Some(h)
  {
    hide BigEndian, ReadBigEndian;
    HeaderParts(SEGMENT_MAGIC, [SEGMENT_VERSION, 0, 0, 0], U64(h.id), U64(h.first), U32(crc(HeaderBytes(h))),
      [0, 0, 0, 0], rest);
    Widths();
    ReadBack(h.id, 8);
    ReadBack(h.first, 8);
    ReadBack(crc(HeaderBytes(h)), 4);
  }

  lemma HeaderParts(m: seq<Byte>, v: seq<Byte>, a: seq<Byte>, b: seq<Byte>, c: seq<Byte>, z: seq<Byte>, rest: seq<Byte>)
    requires |m| == 4 && |v| == 4 && |a| == 8 && |b| == 8 && |c| == 4 && |z| == 4
    ensures var f := m + v + a + b + c + z + rest;
            |f| >= 32 && f[..4] == m && f[4] == v[0] && f[8..16] == a && f[16..24] == b && f[24..28] == c &&
              f[..24] == m + v + a + b
  {
  }

  // ----- Walking frames -----------------------------------------------------

  /** A record header whose lengths may be stepped by. */
  predicate Steppable(crc: Checksum, h: seq<Byte>)
    requires |h| == RECORD_HEADER_LEN
  {
    h[..4] == RECORD_MAGIC && h[4] in {4, RECORD_VERSION} &&
      (h[4] == RECORD_VERSION ==> crc(h[..41]) == ReadAt(h, 41, 4))
  }

  function DeclaredLen(h: seq<Byte>): nat
    requires |h| == RECORD_HEADER_LEN
  {
    RECORD_HEADER_LEN + ReadAt(h, 17, 4) + RECORD_FOOTER_LEN
  }

  /** The length of the frame at `offset`, or nothing where the records end. */
  function FrameAt(crc: Checksum, file: seq<Byte>, offset: nat, written: nat): Option<nat>
    requires offset <= |file|
  {
    if |file| - offset < RECORD_HEADER_LEN || offset + RECORD_HEADER_LEN > written then None
    else
      var h := file[offset..offset + RECORD_HEADER_LEN];
      if Steppable(crc, h) && offset + DeclaredLen(h) <= written then Some(DeclaredLen(h)) else None
  }

  lemma WholeHeader(crc: Checksum, f: Frame, h: seq<Byte>)
    requires ValidFrame(f) && h == EncodeHeader(crc, f)
    ensures |h| == RECORD_HEADER_LEN && Steppable(crc, h) && DeclaredLen(h) == FrameLen(f) && ReadAt(h, 5, 8) == f.lsn
  {
    HeaderReads(crc, f);
  }

  /** At a whole frame the bytes start with its header. */
  lemma HeaderAt(crc: Checksum, file: seq<Byte>, frames: seq<Frame>, last: Frame, n: nat, i: nat, offset: nat)
    requires FramesBehind(crc, file, frames, last, n, i, offset) && i < |frames|
    ensures offset + FrameLen(frames[i]) <= |file| && RECORD_HEADER_LEN <= FrameLen(frames[i])
    ensures file[offset..offset + RECORD_HEADER_LEN] == EncodeHeader(crc, frames[i])
    ensures offset + FrameLen(frames[i]) <= LastWritten(file)
  {
    hide Encode, EncodeHeader, EncodeAll, Tail, FrameLen, LastWritten;
    var f, rest := frames[i], file[offset..];
    assert frames[i..] != [] && frames[i..][0] == f;
    FrontTail(crc, rest, frames[i..], last, n);
    FrameShape(crc, f);
    assert file[offset..offset + RECORD_HEADER_LEN] == rest[..RECORD_HEADER_LEN] == Encode(crc, f)[..RECORD_HEADER_LEN];
    assert file[offset + FrameLen(f) - 1] == rest[FrameLen(f) - 1] == 68;
    LastWrittenAtLeast(file, offset + FrameLen(f));
  }

  /** Past the whole frames only `n` bytes of the cut one were ever written. */
  lemma CutAt(crc: Checksum, file: seq<Byte>, frames: seq<Frame>, last: Frame, n: nat, offset: nat)
    requires ValidFrame(last) && n < FrameLen(last) && FramesBehind(crc, file, frames, last, n, |frames|, offset)
    ensures offset + n <= |file| && LastWritten(file) <= offset + n
    ensures forall j :: offset + n <= j < |file| ==>
              file[j] == 0
    ensures n >= RECORD_HEADER_LEN ==> file[offset..offset + RECORD_HEADER_LEN] == EncodeHeader(crc, last)
  {
    hide Encode, EncodeHeader, EncodeAll, Tail, FrameLen, LastWritten, ValidFrame;
    assert frames[|frames|..] == [];
    EmptyTail(crc, file[offset..], last, n);
    ZeroPast(file, offset, n);
    LastWrittenAtMost(file, offset + n);
    FrameShape(crc, last);
    if n >= RECORD_HEADER_LEN {
      assert file[offset..offset + RECORD_HEADER_LEN] == file[offset..][..n][..RECORD_HEADER_LEN] ==
             Encode(crc, last)[..n][..RECORD_HEADER_LEN];
    }
  }

  /** The walk meets every whole frame and stops at the cut one. */
  lemma WalkNext(crc: Checksum, file: seq<Byte>, frames: seq<Frame>, last: Frame, n: nat, i: nat, offset: nat)
    requires CrashImage(crc, file, frames, last, n) && FramesBehind(crc, file, frames, last, n, i, offset)
    ensures i <= |frames| && offset <= |file|
    ensures FrameAt(crc, file, offset, LastWritten(file)) == if i < |frames| then Some(FrameLen(frames[i])) else None
    ensures i < |frames| ==> offset + 13 <= |file| && ReadAt(file, offset + 5, 8) == frames[i].lsn
  {
    hide Encode, EncodeHeader, EncodeAll, Tail, FrameLen, LastWritten, ValidFrame, ReadBigEndian;
    if i < |frames| {
      HeaderAt(crc, file, frames, last, n, i, offset);
      var h := file[offset..offset + RECORD_HEADER_LEN];
      WholeHeader(crc, frames[i], h);
      SliceOfSlice(file, offset, RECORD_HEADER_LEN, 5, 13);
    } else {
      CutAt(crc, file, frames, last, n, offset);
      if n >= RECORD_HEADER_LEN { WholeHeader(crc, last, file[offset..offset + RECORD_HEADER_LEN]); }
    }
  }

  /** The end of the last complete record and its LSN; one below the header's first LSN when
      there is none. */
  method LastRecord(crc: Checksum, file: seq<Byte>, first: nat, ghost frames: seq<Frame>, ghost last: Frame,
                    ghost n: nat) returns (end: nat, lsn: nat)
    ensures end <= |file|
    ensures CrashImage(crc, file, frames, last, n) ==>
              end == SEGMENT_HEADER_LEN + |EncodeAll(crc, frames)| &&
                (Consecutive(frames, first) ==> lsn == LastOf(frames, first))
  {
    hide CrashImage, FramesBehind, EncodeAll, LastWritten, FrameLen, ReadBigEndian;
    ghost var ok, i := CrashImage(crc, file, frames, last, n), 0;
    var written := LastWrittenByte(file);
    end, lsn := if |file| < SEGMENT_HEADER_LEN then |file| else SEGMENT_HEADER_LEN, if first > 0 then first - 1 else 0;
    if ok { FramesBegin(crc, file, frames, last, n); }
    while true
      invariant end <= |file|
      invariant ok ==>
                  i <= |frames| && FramesBehind(crc, file, frames, last, n, i, end) &&
                  (Consecutive(frames, first) ==> lsn == LastOf(frames[..i], first))
      decreases |file| - end
    {
      if ok { WalkNext(crc, file, frames, last, n, i, end); }
      match FrameAt(crc, file, end, written)
      case None =>
        break;
      case Some(total) =>
        if ok { FramesAdvance(crc, file, frames, last, n, i, end); }
        lsn := ReadAt(file, end + 5, 8);
        end, i := end + total, i + 1;
    }
    if ok {
      FramesEnd(crc, file, frames, last, n, i, end);
      assert frames[..|frames|] == frames;
    }
  }

  function LastOf(frames: seq<Frame>, first: nat): nat {
    if frames != [] then first + |frames| - 1 else if first > 0 then first - 1 else 0
  }

  // ----- Cutting a segment at an LSN ----------------------------------------

  /** How many frames of a run that starts at LSN `first` are at or below `bound`. */
  function UpTo(frames: seq<Frame>, first: nat, bound: nat): (k: nat)
    ensures k <= |frames|
  {
    if bound < first then 0 else if bound - first + 1 >= |frames| then |frames| else bound - first + 1
  }

  /** Removes every record past `bound`. What is left holds exactly the records up to it, and
      perhaps the same torn tail; bodies are not validated. */
  method CutPast(crc: Checksum, file: seq<Byte>, bound: nat, ghost frames: seq<Frame>, ghost last: Frame, ghost n: nat,
                 ghost first: nat)
    returns (kept: seq<Byte>, ghost n': nat)
    requires |file| >= SEGMENT_HEADER_LEN
    ensures SEGMENT_HEADER_LEN <= |kept| <= |file| && kept == file[..|kept|]
    ensures CrashImage(crc, file, frames, last, n) && Consecutive(frames, first) ==>
              CrashImage(crc, kept, frames[..UpTo(frames, first, bound)], last, n') && n' <= n
  {
    hide CrashImage, FramesBehind, EncodeAll, LastWritten, FrameLen, ReadBigEndian, Steppable, DeclaredLen;
    ghost var ok, i := CrashImage(crc, file, frames, last, n) && Consecutive(frames, first), 0;
    var offset := SEGMENT_HEADER_LEN;
    n' := 0;
    if ok { FramesBegin(crc, file, frames, last, n); }
    while offset < |file|
      invariant SEGMENT_HEADER_LEN <= offset <= |file| && 0 <= i
      invariant ok ==> i <= UpTo(frames, first, bound)
      invariant ok ==>
                  FramesBehind(crc, file, frames, last, n, i, offset) ||
                  (i == |frames| && PastCut(crc, file, frames, n, offset))
      decreases |file| - offset
    {
      if |file| - offset < RECORD_HEADER_LEN {
        break;
      }
      var h := file[offset..offset + RECORD_HEADER_LEN];
      if ok { CutStep(crc, file, frames, last, n, first, bound, i, offset); }
      if !Steppable(crc, h) || ReadAt(h, 5, 8) > bound || DeclaredLen(h) > |file| - offset {
        break;
      }
      DeclaredPositive(h);
      offset, i := offset + DeclaredLen(h), if ok && i < |frames| then i + 1 else i;
    }
    kept := file[..offset];
    if ok { n' := CutIs(crc, file, frames, last, n, first, bound, i, offset); }
  }

  lemma DeclaredPositive(h: seq<Byte>)
    requires |h| == RECORD_HEADER_LEN
    ensures DeclaredLen(h) > 0
  {
  }

  /** Past everything that was written of the cut frame, with only zeros ahead. */
  ghost predicate PastCut(crc: Checksum, file: seq<Byte>, frames: seq<Frame>, n: nat, offset: nat) {
    SEGMENT_HEADER_LEN + |EncodeAll(crc, frames)| + n <= offset <= |file|
  }

  lemma CutStep(crc: Checksum, file: seq<Byte>, frames: seq<Frame>, last: Frame, n: nat, first: nat, bound: nat, i: nat,
                offset: nat)
    requires CrashImage(crc, file, frames, last, n) && Consecutive(frames, first) && i <= UpTo(frames, first, bound)
    requires FramesBehind(crc, file, frames, last, n, i, offset) ||
             (i == |frames| && PastCut(crc, file, frames, n, offset))
    requires offset + RECORD_HEADER_LEN <= |file|
    ensures var h := file[offset..offset + RECORD_HEADER_LEN];
            var goes := Steppable(crc, h) && ReadAt(h, 5, 8) <= bound && DeclaredLen(h) <= |file| - offset;
            && (goes && i < |frames| ==>
                   i < UpTo(frames, first, bound) &&
                   FramesBehind(crc, file, frames, last, n, i + 1, offset + DeclaredLen(h)))
            && (goes && i == |frames| ==> PastCut(crc, file, frames, n, offset + DeclaredLen(h)))
            && (!goes && i < |frames| ==> i == UpTo(frames, first, bound))
  {
    hide CrashImage, FramesBehind, EncodeAll, LastWritten, FrameLen, ReadBigEndian, EncodeHeader, ValidFrame;
    var h := file[offset..offset + RECORD_HEADER_LEN];
    ImageFrames(crc, file, frames, last, n);
    if i < |frames| {
      HeaderAt(crc, file, frames, last, n, i, offset);
      WholeHeader(crc, frames[i], h);
      FramesAdvance(crc, file, frames, last, n, i, offset);
    } else if FramesBehind(crc, file, frames, last, n, i, offset) {
      FramesEnd(crc, file, frames, last, n, i, offset);
      CutAt(crc, file, frames, last, n, offset);
      if n >= RECORD_HEADER_LEN { WholeHeader(crc, last, h); }
    } else {
      ZerosAhead(crc, file, frames, last, n, offset);
      assert h[..4][0] == h[0] == 0;
    }
  }

  lemma ImageFrames(crc: Checksum, file: seq<Byte>, frames: seq<Frame>, last: Frame, n: nat)
    requires CrashImage(crc, file, frames, last, n)
    ensures ValidFrame(last) && n < FrameLen(last) && forall i :: 0 <= i < |frames| ==> ValidFrame(frames[i])
  {
  }

  lemma ZerosAhead(crc: Checksum, file: seq<Byte>, frames: seq<Frame>, last: Frame, n: nat, offset: nat)
    requires CrashImage(crc, file, frames, last, n) && PastCut(crc, file, frames, n, offset)
    ensures forall j :: offset <= j < |file| ==> file[j] == 0
  {
    hide EncodeAll, Encode, ValidFrame, FrameLen;
    var at := |EncodeAll(crc, frames)| + n;
    forall j | offset <= j < |file| ensures file[j] == 0 {
      assert file[j] == file[SEGMENT_HEADER_LEN..][at..][j - SEGMENT_HEADER_LEN - at];
    }
  }

  lemma CutIs(crc: Checksum, file: seq<Byte>, frames: seq<Frame>, last: Frame, n: nat, first: nat, bound: nat, i: nat,
              offset: nat) returns (n': nat)
    requires CrashImage(crc, file, frames, last, n) && i <= UpTo(frames, first, bound)
    requires FramesBehind(crc, file, frames, last, n, i, offset) ||
             (i == |frames| && PastCut(crc, file, frames, n, offset))
    requires i == UpTo(frames, first, bound) || offset + RECORD_HEADER_LEN > |file|
    ensures CrashImage(crc, file[..offset], frames[..UpTo(frames, first, bound)], last, n') && n' <= n
  {
    hide CrashImage, FramesBehind, PastCut, FrameLen;
    if i < |frames| { HeaderAt(crc, file, frames, last, n, i, offset); }
    assert i == UpTo(frames, first, bound);
    if FramesBehind(crc, file, frames, last, n, i, offset) {
      n' := 0;
      CutWhole(crc, file, frames, last, n, i, offset);
    } else {
      n' := n;
      assert frames[..i] == frames;
      CutTail(crc, file, frames, last, n, offset);
    }
  }

  lemma CutWhole(crc: Checksum, file: seq<Byte>, frames: seq<Frame>, last: Frame, n: nat, i: nat, offset: nat)
    requires CrashImage(crc, file, frames, last, n) && FramesBehind(crc, file, frames, last, n, i, offset)
    ensures CrashImage(crc, file[..offset], frames[..i], last, 0)
  {
    hide EncodeAll, Encode, ValidFrame, FrameLen;
    var kept, all, part := file[..offset], EncodeAll(crc, frames), EncodeAll(crc, frames[..i]);
    EncodeAllSplit(crc, frames[..i], frames[i..]);
    assert frames[..i] + frames[i..] == frames;
    assert all[..|part|] == part;
    assert kept[SEGMENT_HEADER_LEN..] == file[SEGMENT_HEADER_LEN..][..|all|][..|part|];
    FrameShape(crc, last);
  }

  lemma CutTail(crc: Checksum, file: seq<Byte>, frames: seq<Frame>, last: Frame, n: nat, offset: nat)
    requires CrashImage(crc, file, frames, last, n) && PastCut(crc, file, frames, n, offset)
    ensures CrashImage(crc, file[..offset], frames, last, n)
  {
    hide EncodeAll, Encode, ValidFrame, FrameLen;
    var all, rest := EncodeAll(crc, frames), file[SEGMENT_HEADER_LEN..];
    var kept := file[..offset][SEGMENT_HEADER_LEN..];
    assert kept == rest[..offset - SEGMENT_HEADER_LEN];
    assert kept[..|all|] == rest[..|all|] && kept[|all|..|all| + n] == rest[|all|..|all| + n];
    var zeros := kept[|all| + n..];
    forall j | 0 <= j < |zeros| ensures zeros[j] == 0 {
      assert zeros[j] == rest[|all| + n..][j];
    }
  }

  // ----- Two copies of one segment ------------------------------------------

  /** Frames are determined by their bytes: of two runs, one's bytes starting the other's
      means its frames start the other's. */
  lemma {:induction false} BytesShareFrames(crc: Checksum, a: seq<Frame>, b: seq<Frame>)
    requires (forall i :: 0 <= i < |a| ==> ValidFrame(a[i])) && (forall i :: 0 <= i < |b| ==> ValidFrame(b[i]))
    requires EncodeAll(crc, a) <= EncodeAll(crc, b)
    ensures a <= b
    decreases |a|
  {
    hide Encode, EncodeAll, ValidFrame, FrameLen, ReadFrame;
    if a == [] {
    } else {
      FirstFrame(crc, a);
      SomeFrame(crc, b);
      FirstFrame(crc, b);
      var x := EncodeAll(crc, b);
      var restA := x[FrameLen(a[0])..];
      FrontOf(Encode(crc, a[0]), EncodeAll(crc, a[1..]), x);
      WholeReads(crc, a[0], restA, |x|);
      WholeReads(crc, b[0], EncodeAll(crc, b[1..]), |x|);
      assert a[0] == b[0];
      TailOf(Encode(crc, a[0]), EncodeAll(crc, a[1..]), EncodeAll(crc, b[1..]));
      BytesShareFrames(crc, a[1..], b[1..]);
      assert a == [a[0]] + a[1..] && b == [b[0]] + b[1..];
    }
  }

  lemma FirstFrame(crc: Checksum, frames: seq<Frame>)
    requires frames != []
    ensures EncodeAll(crc, frames) == Encode(crc, frames[0]) + EncodeAll(crc, frames[1..])
    ensures |Encode(crc, frames[0])| == FrameLen(frames[0]) > 0
  {
    hide Encode;
    FrameShape(crc, frames[0]);
  }

  lemma SomeFrame(crc: Checksum, frames: seq<Frame>)
    ensures EncodeAll(crc, frames) != [] ==> frames != []
  {
  }

  lemma FrontOf(p: seq<Byte>, q: seq<Byte>, x: seq<Byte>)
    requires p + q <= x
    ensures |p| <= |x| && x == p + x[|p|..]
  {
    assert x[..|p + q|][..|p|] == p;
  }

  lemma TailOf(p: seq<Byte>, a: seq<Byte>, b: seq<Byte>)
    requires p + a <= p + b
    ensures a <= b
  {
    assert (p + b)[..|p + a|][|p|..] == a;
    assert (p + b)[|p|..][..|a|] == b[..|a|];
  }

  ghost predicate ShareHistory(a: seq<Frame>, b: seq<Frame>) {
    a <= b || b <= a
  }

  /** Merges an archived segment with the backed-up copy of it. They are accepted exactly
      when their headers agree and one's records start the other's; the longer history wins. */
  method MergeSegment(crc: Checksum, base: seq<Byte>, archived: seq<Byte>,
                      ghost fb: seq<Frame>, ghost lb: Frame, ghost nb: nat,
                      ghost fa: seq<Frame>, ghost la: Frame, ghost na: nat)
    returns (r: Option<seq<Byte>>)
    ensures r.Some? ==> r.value == base || r.value == archived
    ensures CrashImage(crc, base, fb, lb, nb) && CrashImage(crc, archived, fa, la, na) ==>
              && (r.Some? <==> base[..SEGMENT_HEADER_LEN] == archived[..SEGMENT_HEADER_LEN] && ShareHistory(fb, fa))
              && (r.Some? ==> r.value == if |fa| > |fb| then archived else base)
  {
    hide CrashImage, EncodeAll;
    var baseEnd, _ := LastRecord(crc, base, 0, fb, lb, nb);
    var archivedEnd, _ := LastRecord(crc, archived, 0, fa, la, na);
    var boundary := if baseEnd < archivedEnd then baseEnd else archivedEnd;
    if CrashImage(crc, base, fb, lb, nb) && CrashImage(crc, archived, fa, la, na) {
      HistoriesCompare(crc, base, archived, fb, lb, nb, fa, la, na);
    }
    if base[..boundary] != archived[..boundary] {
      return None;
    }
    r := Some(if archivedEnd > baseEnd then archived else base);
  }

  lemma HistoriesCompare(crc: Checksum, base: seq<Byte>, archived: seq<Byte>, fb: seq<Frame>, lb: Frame, nb: nat,
                         fa: seq<Frame>, la: Frame, na: nat)
    requires CrashImage(crc, base, fb, lb, nb) && CrashImage(crc, archived, fa, la, na)
    ensures var eb, ea := |EncodeAll(crc, fb)|, |EncodeAll(crc, fa)|;
            var m := SEGMENT_HEADER_LEN + (if eb < ea then eb else ea);
            && m <= |base| && m <= |archived|
            && (base[..m] == archived[..m] <==>
                   base[..SEGMENT_HEADER_LEN] == archived[..SEGMENT_HEADER_LEN] && ShareHistory(fb, fa))
            && (ShareHistory(fb, fa) ==> (ea > eb <==> |fa| > |fb|))
  {
    hide EncodeAll, Encode, FrameLen, ValidFrame;
    var eb, ea := EncodeAll(crc, fb), EncodeAll(crc, fa);
    var k := if |eb| < |ea| then |eb| else |ea|;
    var m := SEGMENT_HEADER_LEN + k;
    FrontBytes(base, eb, k);
    FrontBytes(archived, ea, k);
    if base[..m] == archived[..m] {
      SplitEqual(base[..SEGMENT_HEADER_LEN], eb[..k], archived[..SEGMENT_HEADER_LEN], ea[..k]);
      if |eb| < |ea| { BytesShareFrames(crc, fb, fa); } else { BytesShareFrames(crc, fa, fb); }
    }
    if fb <= fa { FramesShareBytes(crc, fb, fa); }
    if fa <= fb { FramesShareBytes(crc, fa, fb); }
  }

  lemma FrontBytes(file: seq<Byte>, all: seq<Byte>, k: nat)
    requires |file| >= SEGMENT_HEADER_LEN && k <= |all| <= |file| - SEGMENT_HEADER_LEN
    requires file[SEGMENT_HEADER_LEN..][..|all|] == all
    ensures file[..SEGMENT_HEADER_LEN + k] == file[..SEGMENT_HEADER_LEN] + all[..k]
  {
    assert file[SEGMENT_HEADER_LEN..][..k] == file[SEGMENT_HEADER_LEN..][..|all|][..k];
  }

  lemma FramesShareBytes(crc: Checksum, a: seq<Frame>, b: seq<Frame>)
    requires a <= b
    ensures EncodeAll(crc, a) <= EncodeAll(crc, b) && (|a| < |b| <==> |EncodeAll(crc, a)| < |EncodeAll(crc, b)|)
  {
    hide Encode, FrameLen, EncodeAll;
    var rest := b[|a|..];
    assert b == a + rest;
    EncodeAllSplit(crc, a, rest);
    if rest != [] { FirstFrame(crc, rest); } else { NoFrames(crc); }
  }
}
