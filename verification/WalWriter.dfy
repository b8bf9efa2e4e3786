/** The append side of a log segment: records are written into a zero-filled runway that
    is pushed ahead in steps. */
module WalWriter {
  import opened Results
  import opened Keys
  import opened Bytes
  import opened WalRecords

  const RUNWAY := 1048576
  const MAX_RUNWAY := 8388608

  /** A positioned write: replaces what it covers and extends the file when it must. */
  function WriteAt(file: seq<Byte>, at: nat, bytes: seq<Byte>): seq<Byte>
    requires at <= |file|
  {
    file[..at] + bytes + (if at + |bytes| < |file| then file[at + |bytes|..] else [])
  }

  class Writer {
    var file: seq<Byte>
    var offset: nat
    var zeroed: nat
    var runway: nat
    ghost var records: seq<Byte>

    /** The file starts with the records; everything past them is zero. */
    ghost predicate Valid()
      reads this
    {
      && |records| == offset <= zeroed <= |file| && runway >= 1
      && file[..offset] == records && Zeros(file[offset..])
    }

    /** Opens a file whose records end at `end` and that holds nothing but runway past it. */
    constructor (contents: seq<Byte>, end: nat, segmentSize: nat)
      requires end <= |contents| && Zeros(contents[end..])
      ensures Valid() && records == contents[..end] && file == contents
    {
      file, offset, zeroed := contents, end, end;
      runway := if segmentSize < 1 then 1 else if segmentSize > RUNWAY then RUNWAY else segmentSize;
      records := contents[..end];
    }

    /** Zero-fills forward so that `wanted` more bytes land in initialised blocks, unless the
        record outgrows a runway step and initialises its own. No record is touched. */
    method Reserve(wanted: nat)
      requires Valid()
      modifies this`file, this`zeroed
      ensures Valid() && file[..offset] == old(file)[..offset] && |file| >= |old(file)|
      ensures offset + wanted <= zeroed || offset + wanted > old(zeroed) + runway
      ensures offset + wanted <= old(zeroed) || offset + wanted > old(zeroed) + runway ==> file == old(file)
    {
      var required := offset + wanted;
      if required <= zeroed || required > zeroed + runway {
        return;
      }
      var ceiling := if MAX_RUNWAY > runway then MAX_RUNWAY else runway;
      var step := if wanted * 64 < runway then runway else if wanted * 64 > ceiling then ceiling else wanted * 64;
      var zeros: seq<Byte> := seq(step, _ => 0);
      FillKeeps(file, offset, zeroed, zeros);
      file := WriteAt(file, zeroed, zeros);
      zeroed := zeroed + step;
    }

    /** Writes one record after the others. */
    method Append(record: seq<Byte>)
      requires Valid()
      modifies this`file, this`zeroed, this`offset, this`records
      ensures Valid() && records == old(records) + record
    {
      Reserve(|record|);
      WriteKeeps(file, offset, record);
      file := WriteAt(file, offset, record);
      records := records + record;
      offset := offset + |record|;
      if zeroed < offset {
        zeroed := offset;
      }
    }

    /** What a crash leaves when the write of `record` is cut after `n` bytes. */
    method AppendCut(record: seq<Byte>, n: nat) returns (image: seq<Byte>)
      requires Valid() && n <= |record|
      modifies this`file, this`zeroed
      ensures |image| >= offset + n && image[..offset] == records && image[offset..offset + n] == record[..n]
      ensures Zeros(image[offset + n..])
    {
      Reserve(|record|);
      WriteKeeps(file, offset, record[..n]);
      image := WriteAt(file, offset, record[..n]);
    }
  }

  lemma FillKeeps(file: seq<Byte>, offset: nat, at: nat, zeros: seq<Byte>)
    requires offset <= at <= |file| && Zeros(file[offset..]) && Zeros(zeros)
    ensures var f := WriteAt(file, at, zeros);
            |f| >= |file| && |f| >= at + |zeros| && f[..offset] == file[..offset] && Zeros(f[offset..])
  {
    var f := WriteAt(file, at, zeros);
    forall i | offset <= i < |f| ensures f[i] == 0 {
      if i < at { assert f[i] == file[offset..][i - offset]; }
      else if i >= at + |zeros| { assert f[i] == file[offset..][i - offset]; }
    }
  }

  lemma WriteKeeps(file: seq<Byte>, offset: nat, record: seq<Byte>)
    requires offset <= |file| && Zeros(file[offset..])
    ensures var f := WriteAt(file, offset, record);
            && |f| >= offset + |record| && |f| >= |file| && f[..offset] == file[..offset]
            && f[offset..offset + |record|] == record && f[..offset + |record|] == file[..offset] + record
            && Zeros(f[offset + |record|..])
  {
    var f := WriteAt(file, offset, record);
    forall i | offset + |record| <= i < |f| ensures f[i] == 0 {
      assert f[i] == file[offset..][i - offset];
    }
  }

  lemma EncodeAllSnoc(crc: Checksum, frames: seq<Frame>, f: Frame)
    ensures EncodeAll(crc, frames + [f]) == EncodeAll(crc, frames) + Encode(crc, f)
  {
    hide Encode;
    EncodeAllSplit(crc, frames, [f]);
    assert [f][1..] == [];
  }

  /** Write any run of records, cut the last one anywhere, crash and replay: exactly the
      complete records come back, and the next record belongs where they end. */
  method WriteCrashReplay(crc: Checksum, header: seq<Byte>, segmentSize: nat, frames: seq<Frame>, last: Frame, n: nat,
                          first: nat, lsn: nat)
    returns (r: Result<Replayed, SegmentError>)
    requires |header| == SEGMENT_HEADER_LEN && ValidFrame(last) && n < FrameLen(last)
    requires forall i :: 0 <= i < |frames| ==> ValidFrame(frames[i])
    requires Consecutive(frames, first) && first <= lsn + 1
    ensures r == Ok(Replayed(Past(frames, first, lsn), SEGMENT_HEADER_LEN + |EncodeAll(crc, frames)|,
            LastLsn(frames, first, lsn)))
  {
    hide Encode, EncodeAll, ValidFrame, FrameLen, Past, LastLsn, Consecutive, CrashImage;
    var image := WriteCut(crc, header, segmentSize, frames, last, n);
    r := ReplaySegment(crc, image, first, true, lsn, frames, last, n);
  }

  /** The file after the records were appended and the last write was cut. */
  method WriteCut(crc: Checksum, header: seq<Byte>, segmentSize: nat, frames: seq<Frame>, last: Frame, n: nat)
    returns (image: seq<Byte>)
    requires |header| == SEGMENT_HEADER_LEN && ValidFrame(last) && n < FrameLen(last)
    requires forall i :: 0 <= i < |frames| ==> ValidFrame(frames[i])
    ensures |image| >= SEGMENT_HEADER_LEN && CrashImage(crc, image, frames, last, n)
  {
    hide Encode, EncodeAll, ValidFrame, FrameLen, CrashImage, HoldsFrames;
    var w := new Writer(header, |header|, segmentSize);
    HoldsNone(crc, header, frames);
    for i := 0 to |frames|
      invariant w.Valid() && fresh(w) && HoldsFrames(crc, w.records, header, frames[..i])
    {
      HoldsNext(crc, w.records, header, frames, i);
      w.Append(Encode(crc, frames[i]));
    }
    assert frames[..|frames|] == frames;
    FrameShape(crc, last);
    image := w.AppendCut(Encode(crc, last), n);
    ImageIsCrash(crc, header, w.records, image, frames, last, n);
  }

  ghost predicate HoldsFrames(crc: Checksum, records: seq<Byte>, header: seq<Byte>, frames: seq<Frame>) {
    records == header + EncodeAll(crc, frames)
  }

  lemma HoldsNone(crc: Checksum, header: seq<Byte>, frames: seq<Frame>)
    ensures HoldsFrames(crc, header[..|header|], header, frames[..0]) && Zeros(header[|header|..])
  {
    NoFrames(crc);
    assert frames[..0] == [] && header[|header|..] == [] && header[..|header|] == header;
  }

  lemma HoldsNext(crc: Checksum, records: seq<Byte>, header: seq<Byte>, frames: seq<Frame>, i: nat)
    requires i < |frames| && HoldsFrames(crc, records, header, frames[..i])
    ensures HoldsFrames(crc, records + Encode(crc, frames[i]), header, frames[..i + 1])
  {
    hide Encode, EncodeAll;
    EncodeAllSnoc(crc, frames[..i], frames[i]);
    assert frames[..i + 1] == frames[..i] + [frames[i]];
  }

  lemma ImageIsCrash(crc: Checksum, header: seq<Byte>, records: seq<Byte>, image: seq<Byte>, frames: seq<Frame>,
                     last: Frame, n: nat)
    requires |header| == SEGMENT_HEADER_LEN && ValidFrame(last) && n < FrameLen(last) && n <= |Encode(crc, last)|
    requires (forall i :: 0 <= i < |frames| ==> ValidFrame(frames[i])) && HoldsFrames(crc, records, header, frames)
    requires |image| >= |records| + n && image[..|records|] == records
    requires image[|records|..|records| + n] == Encode(crc, last)[..n] && Zeros(image[|records| + n..])
    ensures |image| >= SEGMENT_HEADER_LEN && CrashImage(crc, image, frames, last, n)
  {
    hide Encode, EncodeAll, ValidFrame, FrameLen;
    var all, rest := EncodeAll(crc, frames), image[SEGMENT_HEADER_LEN..];
    var at := |records|;
    assert rest[..|all|] == image[..at][SEGMENT_HEADER_LEN..] == all;
    assert rest[|all|..|all| + n] == image[at..at + n];
    assert rest[|all| + n..] == image[at + n..];
  }
}
