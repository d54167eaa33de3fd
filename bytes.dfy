/** Endian-aware fixed-width readers over an immutable byte buffer.

    Indexing a `Uint8Array` outside its bounds yields `undefined`, and the
    bitwise operators turn `undefined` into 0; every reader here therefore
    reads an out-of-range byte (negative or past the end) as 0 instead of
    failing. A 32-bit read goes through `<< 24`, so its result is the
    SIGNED 32-bit reading of the four bytes. */
module Bytes {
  import opened Js

  type byte = b: int | 0 <= b < 256

  /** `data[i]` coerced by a bitwise operator: 0 when `i` is out of range. */
  function ByteAt(data: seq<byte>, i: int): (b: byte)
    ensures 0 <= i < |data| ==> b == data[i]
    ensures !(0 <= i < |data|) ==> b == 0
  {
    if 0 <= i < |data| then data[i] else 0
  }

  /** Two bytes at `offset`, least significant first when `littleEndian`.
      The two bytes occupy disjoint bits, so `|` is the same as `+`. */
  function ReadUint16(data: seq<byte>, offset: int, littleEndian: bool): (r: int)
    ensures 0 <= r < 0x1_0000
  {
    if littleEndian then ByteAt(data, offset) + 0x100 * ByteAt(data, offset + 1)
    else 0x100 * ByteAt(data, offset) + ByteAt(data, offset + 1)
  }

  /** The four bytes at `offset` as an unsigned number. */
  function Unsigned32(data: seq<byte>, offset: int, littleEndian: bool): (u: int)
    ensures 0 <= u < TWO_32
  {
    if littleEndian then
      ByteAt(data, offset) + 0x100 * ByteAt(data, offset + 1)
      + 0x1_0000 * ByteAt(data, offset + 2) + 0x100_0000 * ByteAt(data, offset + 3)
    else
      0x100_0000 * ByteAt(data, offset) + 0x1_0000 * ByteAt(data, offset + 1)
      + 0x100 * ByteAt(data, offset + 2) + ByteAt(data, offset + 3)
  }

  /** The four bytes at `offset` combined with `<<` and `|`: the signed
      reading of the unsigned value. */
  function ReadUint32(data: seq<byte>, offset: int, littleEndian: bool): (r: int)
    ensures -TWO_31 <= r < TWO_31
  {
    ToInt32(Unsigned32(data, offset, littleEndian))
  }

  /** A 32-bit read agrees with the unsigned value modulo 2^32 and is
      negative exactly when the most significant byte has its top bit set. */
  lemma ReadUint32Sign(data: seq<byte>, offset: int, littleEndian: bool)
    ensures var r := ReadUint32(data, offset, littleEndian);
      && (r == Unsigned32(data, offset, littleEndian) || r == Unsigned32(data, offset, littleEndian) - TWO_32)
      && (r < 0 <==> ByteAt(data, if littleEndian then offset + 3 else offset) >= 0x80)
  {
  }

  /** The two bytes that `ReadUint16` decodes back to `v`. */
  function Encode16(v: int, littleEndian: bool): (e: seq<byte>)
    requires 0 <= v < 0x1_0000
    ensures |e| == 2
  {
    if littleEndian then [v % 0x100, v / 0x100] else [v / 0x100, v % 0x100]
  }

  /** The four bytes that `Unsigned32` decodes back to `v`. */
  function Encode32(v: int, littleEndian: bool): (e: seq<byte>)
    requires 0 <= v < TWO_32
    ensures |e| == 4
  {
    var b0, b1, b2, b3 := v % 0x100, (v / 0x100) % 0x100, (v / 0x1_0000) % 0x100, v / 0x100_0000;
    if littleEndian then [b0, b1, b2, b3] else [b3, b2, b1, b0]
  }

  /** Bytes placed after a prefix are found at the prefix's length. */
  lemma ByteAtConcat(p: seq<byte>, e: seq<byte>, s: seq<byte>, k: int)
    requires 0 <= k < |e|
    ensures ByteAt(p + e + s, |p| + k) == e[k]
  {
  }

  /** Round trip: a 16-bit value written in either byte order, anywhere in
      a buffer, is read back unchanged. */
  lemma {:induction false} ReadUint16Encode16(p: seq<byte>, v: int, s: seq<byte>, littleEndian: bool)
    requires 0 <= v < 0x1_0000
    ensures ReadUint16(p + Encode16(v, littleEndian) + s, |p|, littleEndian) == v
  {
    var e := Encode16(v, littleEndian);
    ByteAtConcat(p, e, s, 0);
    ByteAtConcat(p, e, s, 1);
  }

  /** A 32-bit value is the sum of its four bytes, each at its place. */
  lemma Decompose32(v: int)
    requires 0 <= v < TWO_32
    ensures v == v % 0x100 + 0x100 * ((v / 0x100) % 0x100)
               + 0x1_0000 * ((v / 0x1_0000) % 0x100) + 0x100_0000 * (v / 0x100_0000)
  {
    var q1, q2, q3 := v / 0x100, v / 0x1_0000, v / 0x100_0000;
    assert q1 / 0x100 == q2;
    assert q2 / 0x100 == q3;
    assert v == v % 0x100 + 0x100 * q1;
    assert q1 == q1 % 0x100 + 0x100 * q2;
    assert q2 == q2 % 0x100 + 0x100 * q3;
  }

  /** Round trip: a 32-bit value written in either byte order is read back
      as its unsigned value, and `ReadUint32` gives its signed reading. */
  lemma {:induction false} ReadUint32Encode32(p: seq<byte>, v: int, s: seq<byte>, littleEndian: bool)
    requires 0 <= v < TWO_32
    ensures Unsigned32(p + Encode32(v, littleEndian) + s, |p|, littleEndian) == v
    ensures ReadUint32(p + Encode32(v, littleEndian) + s, |p|, littleEndian) == ToInt32(v)
  {
    var e := Encode32(v, littleEndian);
    ByteAtConcat(p, e, s, 0);
    ByteAtConcat(p, e, s, 1);
    ByteAtConcat(p, e, s, 2);
    ByteAtConcat(p, e, s, 3);
    Decompose32(v);
  }

  /** The two byte orders read the same bytes in opposite order. */
  lemma ReadUint16Swap(data: seq<byte>, offset: int)
    ensures ReadUint16(data, offset, true) == ReadUint16([ByteAt(data, offset + 1), ByteAt(data, offset)], 0, false)
  {
  }
}
