/** Fixed-width big-endian integers and fields inside a byte string. */
module Bytes {
  import opened Keys

  /** A checksum is any function of bytes to 32 bits. */
  type Crc = x: int | 0 <= x < 0x1_0000_0000
  type Checksum = seq<Byte> -> Crc

  function Pow256(width: nat): nat {
    if width == 0 then 1 else 256 * Pow256(width - 1)
  }

  function BigEndian(n: nat, width: nat): (b: seq<Byte>)
    ensures |b| == width
    decreases width
  {
    if width == 0 then [] else BigEndian(n / 256, width - 1) + [n % 256]
  }

  function ReadBigEndian(b: seq<Byte>): nat {
    if b == [] then 0 else 256 * ReadBigEndian(b[..|b| - 1]) + b[|b| - 1]
  }

  lemma {:induction false} ReadBack(n: nat, width: nat)
    requires n < Pow256(width)
    ensures ReadBigEndian(BigEndian(n, width)) == n
    decreases width
  {
    if width == 0 {
    } else {
      ReadBack(n / 256, width - 1);
      var b := BigEndian(n, width);
      assert b[..width - 1] == BigEndian(n / 256, width - 1);
    }
  }

  lemma {:induction false} WriteBack(b: seq<Byte>)
    ensures ReadBigEndian(b) < Pow256(|b|) && BigEndian(ReadBigEndian(b), |b|) == b
    decreases |b|
  {
    if b == [] {
    } else {
      WriteBack(b[..|b| - 1]);
      assert b == b[..|b| - 1] + [b[|b| - 1]];
    }
  }

  /** Big-endian bytes sort as the numbers they spell. */
  lemma {:induction false} BigEndianOrder(a: nat, b: nat, width: nat)
    requires a < Pow256(width) && b < Pow256(width)
    ensures Less(BigEndian(a, width), BigEndian(b, width)) <==> a < b
    decreases width
  {
    if width == 0 {
    } else {
      BigEndianOrder(a / 256, b / 256, width - 1);
      LessSnoc(BigEndian(a / 256, width - 1), a % 256, BigEndian(b / 256, width - 1), b % 256);
      if BigEndian(a / 256, width - 1) == BigEndian(b / 256, width - 1) {
        ReadBack(a / 256, width - 1);
        ReadBack(b / 256, width - 1);
      }
    }
  }

  /** Equal-length strings compare by all but the last byte first. */
  lemma {:induction false} LessSnoc(p: Key, x: Byte, q: Key, y: Byte)
    requires |p| == |q|
    ensures Less(p + [x], q + [y]) <==> Less(p, q) || (p == q && x < y)
    decreases |p|
  {
    if p != [] {
      assert (p + [x])[1..] == p[1..] + [x] && (q + [y])[1..] == q[1..] + [y];
      LessSnoc(p[1..], x, q[1..], y);
      assert p == [p[0]] + p[1..] && q == [q[0]] + q[1..];
    } else {
      assert p + [x] == [x] && q + [y] == [y] && [x][1..] == [] == [y][1..];
    }
  }

  function U32(n: nat): seq<Byte> {
    BigEndian(n, 4)
  }

  function U64(n: nat): seq<Byte> {
    BigEndian(n, 8)
  }

  lemma Widths()
    ensures Pow256(1) == 256 && Pow256(2) == 0x1_0000 && Pow256(4) == 0x1_0000_0000
    ensures Pow256(8) == 0x1_0000_0000_0000_0000
  {
    assert Pow256(0) == 1;
    assert Pow256(3) == 256 * Pow256(2);
    assert Pow256(4) == 256 * Pow256(3);
    assert Pow256(6) == 256 * Pow256(5) && Pow256(5) == 256 * Pow256(4);
    assert Pow256(8) == 256 * Pow256(7) && Pow256(7) == 256 * Pow256(6);
  }

  function ReadAt(b: seq<Byte>, at: nat, width: nat): nat
    requires at + width <= |b|
  {
    ReadBigEndian(b[at..at + width])
  }

  predicate Zeros(b: seq<Byte>) {
    forall i :: 0 <= i < |b| ==> b[i] == 0
  }

  lemma SplitEqual(a: Key, b: Key, c: Key, d: Key)
    requires |a| == |c| && a + b == c + d
    ensures a == c && b == d
  {
    assert (a + b)[..|a|] == a && (c + d)[..|a|] == c && (a + b)[|a|..] == b && (c + d)[|a|..] == d;
  }

  lemma SliceOfSlice(file: seq<Byte>, offset: nat, len: nat, a: nat, b: nat)
    requires a <= b <= len && offset + len <= |file|
    ensures file[offset..offset + len][a..b] == file[offset + a..offset + b]
  {
    var x, y := file[offset..offset + len], file[offset + a..offset + b];
    assert forall i :: a <= i < b ==> x[i] == y[i - a];
  }
}
