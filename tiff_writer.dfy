/** The inverse of the EXIF readers: the bytes a TIFF writer lays down for
    an entry, a directory, a rational and a GPS coordinate. Each encoder is
    paired with a round-trip lemma showing that the readers of `Exif` get
    back exactly what was written, in either byte order and at any
    position in the buffer. */
module TiffWriter {
  import opened Js
  import opened Bytes
  import opened Exif
  import opened Wrappers

  /** The 32-bit pattern of a signed 32-bit number (two's complement). */
  function ToUint32(v: int): (u: int)
    requires -TWO_31 <= v < TWO_31
    ensures 0 <= u < TWO_32
    ensures ToInt32(u) == v
  {
    if v < 0 then v + TWO_32 else v
  }

  /** The values an entry's fields can hold: 16-bit tag and type, signed
      32-bit count and value-or-offset. */
  predicate ValidEntry(e: Entry) {
    0 <= e.tag < 0x1_0000 && 0 <= e.fieldType < 0x1_0000 &&
    -TWO_31 <= e.count < TWO_31 && -TWO_31 <= e.valueOffset < TWO_31
  }

  function EncodeEntry(e: Entry, littleEndian: bool): (b: seq<byte>)
    requires ValidEntry(e)
    ensures |b| == 12
  {
    Encode16(e.tag, littleEndian) + Encode16(e.fieldType, littleEndian)
    + Encode32(ToUint32(e.count), littleEndian) + Encode32(ToUint32(e.valueOffset), littleEndian)
  }

  /** Round trip for entries: an entry written anywhere is read back whole. */
  lemma ReadEntryEncode(p: seq<byte>, e: Entry, s: seq<byte>, littleEndian: bool)
    requires ValidEntry(e)
    ensures ReadEntry(p + EncodeEntry(e, littleEndian) + s, |p|, littleEndian) == e
  {
    var t, f := Encode16(e.tag, littleEndian), Encode16(e.fieldType, littleEndian);
    var c, v := Encode32(ToUint32(e.count), littleEndian), Encode32(ToUint32(e.valueOffset), littleEndian);
    var data := p + EncodeEntry(e, littleEndian) + s;
    assert data == p + t + (f + c + v + s);
    assert data == (p + t) + f + (c + v + s);
    assert data == (p + t + f) + c + (v + s);
    assert data == (p + t + f + c) + v + s;
    ReadUint16Encode16(p, e.tag, f + c + v + s, littleEndian);
    ReadUint16Encode16(p + t, e.fieldType, c + v + s, littleEndian);
    ReadUint32Encode32(p + t + f, ToUint32(e.count), v + s, littleEndian);
    ReadUint32Encode32(p + t + f + c, ToUint32(e.valueOffset), s, littleEndian);
  }

  function EncodeEntries(es: seq<Entry>, littleEndian: bool): (b: seq<byte>)
    requires forall i :: 0 <= i < |es| ==> ValidEntry(es[i])
    ensures |b| == 12 * |es|
  {
    if es == [] then []
    else EncodeEntry(es[0], littleEndian) + EncodeEntries(es[1..], littleEndian)
  }

  lemma {:induction false} EncodeEntriesAppend(a: seq<Entry>, b: seq<Entry>, littleEndian: bool)
    requires forall i :: 0 <= i < |a| ==> ValidEntry(a[i])
    requires forall i :: 0 <= i < |b| ==> ValidEntry(b[i])
    ensures EncodeEntries(a + b, littleEndian) == EncodeEntries(a, littleEndian) + EncodeEntries(b, littleEndian)
    decreases |a|
  {
    if a == [] {
      assert a + b == b;
    } else {
      assert (a + b)[0] == a[0];
      assert (a + b)[1..] == a[1..] + b;
      EncodeEntriesAppend(a[1..], b, littleEndian);
    }
  }

  /** Entry `i` sits after the `i` entries before it. */
  lemma EncodeEntriesSplit(es: seq<Entry>, i: nat, littleEndian: bool)
    requires forall j :: 0 <= j < |es| ==> ValidEntry(es[j])
    requires i < |es|
    ensures EncodeEntries(es, littleEndian)
         == EncodeEntries(es[..i], littleEndian) + EncodeEntry(es[i], littleEndian) + EncodeEntries(es[i + 1..], littleEndian)
  {
    var before, rest := es[..i], es[i..];
    assert es == before + rest;
    EncodeEntriesAppend(before, rest, littleEndian);
    assert rest[0] == es[i] && rest[1..] == es[i + 1..];
    assert EncodeEntries(rest, littleEndian) == EncodeEntry(es[i], littleEndian) + EncodeEntries(es[i + 1..], littleEndian);
    Assoc(EncodeEntries(before, littleEndian), EncodeEntry(es[i], littleEndian), EncodeEntries(es[i + 1..], littleEndian));
  }

  /** A directory: entry count, the entries, the next-directory pointer. */
  function EncodeIfd(es: seq<Entry>, next: int, littleEndian: bool): (b: seq<byte>)
    requires |es| < 0x1_0000 && -TWO_31 <= next < TWO_31
    requires forall i :: 0 <= i < |es| ==> ValidEntry(es[i])
    ensures |b| == 2 + 12 * |es| + 4
  {
    Encode16(|es|, littleEndian) + EncodeEntries(es, littleEndian) + Encode32(ToUint32(next), littleEndian)
  }

  /** Round trip for directories: the walk reads back the entry count, every
      entry, and the next pointer that were written. */
  lemma IfdRoundTrip(p: seq<byte>, es: seq<Entry>, next: int, s: seq<byte>, littleEndian: bool)
    requires |es| < 0x1_0000 && -TWO_31 <= next < TWO_31
    requires forall i :: 0 <= i < |es| ==> ValidEntry(es[i])
    ensures var data := p + EncodeIfd(es, next, littleEndian) + s;
      && EntryCount(data, |p|, littleEndian) == |es|
      && (forall i :: 0 <= i < |es| ==> EntryAt(data, |p|, i, littleEndian) == es[i])
      && NextIfdOffset(data, |p|, littleEndian) == next
  {
    var data := p + EncodeIfd(es, next, littleEndian) + s;
    IfdCountRoundTrip(p, es, next, s, littleEndian);
    IfdNextRoundTrip(p, es, next, s, littleEndian);
    forall i | 0 <= i < |es|
      ensures EntryAt(data, |p|, i, littleEndian) == es[i]
    {
      EntryRoundTrip(p, es, next, s, littleEndian, i);
    }
  }

  lemma IfdCountRoundTrip(p: seq<byte>, es: seq<Entry>, next: int, s: seq<byte>, littleEndian: bool)
    requires |es| < 0x1_0000 && -TWO_31 <= next < TWO_31
    requires forall i :: 0 <= i < |es| ==> ValidEntry(es[i])
    ensures EntryCount(p + EncodeIfd(es, next, littleEndian) + s, |p|, littleEndian) == |es|
  {
    var n, body, tail := Encode16(|es|, littleEndian), EncodeEntries(es, littleEndian), Encode32(ToUint32(next), littleEndian);
    Assoc(n, body, tail);
    Assoc(p, n, body + tail);
    Assoc(p + n, body + tail, s);
    ReadUint16Encode16(p, |es|, body + tail + s, littleEndian);
  }

  lemma IfdNextRoundTrip(p: seq<byte>, es: seq<Entry>, next: int, s: seq<byte>, littleEndian: bool)
    requires |es| < 0x1_0000 && -TWO_31 <= next < TWO_31
    requires forall i :: 0 <= i < |es| ==> ValidEntry(es[i])
    ensures NextIfdOffset(p + EncodeIfd(es, next, littleEndian) + s, |p|, littleEndian) == next
  {
    var n, body, tail := Encode16(|es|, littleEndian), EncodeEntries(es, littleEndian), Encode32(ToUint32(next), littleEndian);
    Assoc(n, body, tail);
    Assoc(p, n, body + tail);
    Assoc(p + n, body, tail);
    ReadUint32Encode32(p + n + body, ToUint32(next), s, littleEndian);
    IfdCountRoundTrip(p, es, next, s, littleEndian);
    NextIfdField(p + EncodeIfd(es, next, littleEndian) + s, |p|, littleEndian, |p + n + body|);
  }

  lemma EntryRoundTrip(p: seq<byte>, es: seq<Entry>, next: int, s: seq<byte>, littleEndian: bool, i: nat)
    requires |es| < 0x1_0000 && -TWO_31 <= next < TWO_31
    requires forall j :: 0 <= j < |es| ==> ValidEntry(es[j])
    requires i < |es|
    ensures EntryAt(p + EncodeIfd(es, next, littleEndian) + s, |p|, i, littleEndian) == es[i]
  {
    var data := p + EncodeIfd(es, next, littleEndian) + s;
    var n, tail := Encode16(|es|, littleEndian), Encode32(ToUint32(next), littleEndian);
    var before, after := EncodeEntries(es[..i], littleEndian), EncodeEntries(es[i + 1..], littleEndian);
    var entry := EncodeEntry(es[i], littleEndian);
    EncodeEntriesSplit(es, i, littleEndian);
    var rest := tail + s;
    // both sides, regrouped to the right
    var inner := before + (entry + (after + rest));
    Assoc(before + entry, after, rest);
    Assoc(before, entry, after + rest);
    assert (before + entry + after) + rest == inner;
    Assoc(n, before + entry + after, tail);
    Assoc(n + (before + entry + after), tail, s);
    Assoc(n, (before + entry + after), rest);
    Assoc(p, EncodeIfd(es, next, littleEndian), s);
    assert data == p + (n + inner);
    Assoc(after, tail, s);
    Assoc(p + n + before, entry, after + rest);
    Assoc(p + n, before, entry + (after + rest));
    Assoc(p, n, inner);
    assert data == (p + n + before) + entry + (after + tail + s);
    ReadEntryEncode(p + n + before, es[i], after + tail + s, littleEndian);
    EntryAtOffset(data, |p|, i, littleEndian, |p + n + before|);
  }

  lemma EntryAtOffset(data: seq<byte>, ifd: int, i: int, littleEndian: bool, at: int)
    requires at == ifd + 2 + 12 * i
    ensures EntryAt(data, ifd, i, littleEndian) == ReadEntry(data, at, littleEndian)
  {
  }

  function EncodeRational(numerator: int, denominator: int, littleEndian: bool): (b: seq<byte>)
    requires 0 <= numerator < TWO_31 && 0 <= denominator < TWO_31
    ensures |b| == 8
  {
    Encode32(numerator, littleEndian) + Encode32(denominator, littleEndian)
  }

  /** A whole number written as a rational over 1 reads back as itself. */
  lemma WholeRationalAt(data: seq<byte>, p: seq<byte>, n: int, s: seq<byte>, littleEndian: bool)
    requires 0 <= n < TWO_31
    requires data == p + EncodeRational(n, 1, littleEndian) + s
    ensures ReadRational(data, |p|, littleEndian) == n as real
  {
    Assoc(p, Encode32(n, littleEndian), Encode32(1, littleEndian));
    ReadRationalEncode(p, n, 1, s, littleEndian);
  }

  /** Round trip for GPS coordinates written, as cameras do, as whole
      degrees, minutes and seconds over a denominator of 1. */
  lemma GpsCoordinateRoundTrip(p: seq<byte>, d: nat, m: nat, sec: nat, s: seq<byte>, littleEndian: bool)
    requires d < TWO_31 && m < TWO_31 && sec < TWO_31
    ensures ReadGpsCoordinate(p + EncodeRational(d, 1, littleEndian) + EncodeRational(m, 1, littleEndian)
                              + EncodeRational(sec, 1, littleEndian) + s, |p|, littleEndian)
         == d as real + m as real / 60.0 + sec as real / 3600.0
  {
    var rd, rm, rs := EncodeRational(d, 1, littleEndian), EncodeRational(m, 1, littleEndian), EncodeRational(sec, 1, littleEndian);
    var data := p + rd + rm + rs + s;
    Assoc(p + rd + rm, rs, s);
    Assoc(p + rd, rm, rs + s);
    Assoc(rm, rs, s);
    Assoc(p, rd, rm + rs + s);
    WholeRationalAt(data, p, d, rm + rs + s, littleEndian);
    WholeRationalAt(data, p + rd, m, rs + s, littleEndian);
    WholeRationalAt(data, p + rd + rm, sec, s, littleEndian);
  }

  // ---------------------------------------------------------------------
  // The TIFF header and a whole blob
  // ---------------------------------------------------------------------

  /** The 8-byte TIFF header: "II" or "MM", the magic number 42, and the
      offset of the first directory, in the byte order the first two bytes
      name. */
  function TiffHeader(littleEndian: bool, first: int): (h: seq<byte>)
    requires 0 <= first < TWO_32
    ensures |h| == 8
    ensures IsLittleEndian(h) == littleEndian
  {
    (if littleEndian then [0x49, 0x49] else [0x4D, 0x4D]) + Encode16(42, littleEndian) + Encode32(first, littleEndian)
  }

  /** Round trip for the header: the parse takes the byte order from "II"
      or "MM" and starts its walk at the directory offset that was written,
      read as a signed 32-bit number. */
  lemma TiffHeaderRoundTrip(littleEndian: bool, first: int, rest: seq<byte>)
    requires 0 <= first < TWO_32
    ensures var tiff := TiffHeader(littleEndian, first) + rest;
      TiffMetadata(tiff) == IfdChain(tiff, ToInt32(first), littleEndian, {}, EmptyExif)
  {
    var order: seq<byte> := if littleEndian then [0x49, 0x49] else [0x4D, 0x4D];
    var tiff := TiffHeader(littleEndian, first) + rest;
    ReadUint32Encode32(order + Encode16(42, littleEndian), first, rest, littleEndian);
    assert tiff[0] == order[0] && tiff[1] == order[1];
    assert IsLittleEndian(tiff) == littleEndian;
  }

  /** Only "II" selects little-endian: any other first two bytes, "MM" or
      not, are read big-endian, and the magic number 42 is never checked. */
  lemma BigEndianUnlessII(tiff: seq<byte>)
    requires !(ByteAt(tiff, 0) == 0x49 && ByteAt(tiff, 1) == 0x49)
    ensures TiffMetadata(tiff) == IfdChain(tiff, ReadUint32(tiff, 4, false), false, {}, EmptyExif)
  {
  }

  /** An ASCII string without NUL that fits a TIFF count. */
  predicate AsciiText(s: string) {
    |s| < 0x1000_0000 && forall i :: 0 <= i < |s| ==> 0 < s[i] as int < 0x80
  }

  /** A blob with a header, one directory holding Make and Model, and the
      two NUL-terminated strings after it (at offset 8 + 30 = 38). */
  function CameraTiff(littleEndian: bool, make: string, model: string): (t: seq<byte>)
    requires AsciiText(make) && AsciiText(model)
    ensures |t| == 38 + |make| + 1 + |model| + 1
  {
    TiffHeader(littleEndian, 8)
    + EncodeIfd([Entry(0x010F, 2, |make| + 1, 38), Entry(0x0110, 2, |model| + 1, 38 + |make| + 1)], 0, littleEndian)
    + (Latin1(make) + [0]) + (Latin1(model) + [0])
  }

  /** End to end: a blob that names a maker and a model, in either byte
      order, parses to the camera "make model", or to the model alone
      when the maker is empty. */
  lemma CameraTiffRoundTrip(littleEndian: bool, make: string, model: string)
    requires AsciiText(make) && AsciiText(model)
    ensures var r := TiffMetadata(CameraTiff(littleEndian, make, model));
      && r.Some?
      && r.value.camera == Some(if make == "" then model else make + " " + model)
  {
    var tiff := CameraTiff(littleEndian, make, model);
    var e0, e1 := Entry(0x010F, 2, |make| + 1, 38), Entry(0x0110, 2, |model| + 1, 38 + |make| + 1);
    CameraTiffDirectory(littleEndian, make, model);
    CameraTiffStrings(littleEndian, make, model);
    CameraFromMakeAndModel(tiff, e0, e1, littleEndian, EmptyExif);
  }

  /** The blob's only directory holds the Make entry, then the Model entry. */
  lemma CameraTiffDirectory(littleEndian: bool, make: string, model: string)
    requires AsciiText(make) && AsciiText(model)
    ensures var tiff := CameraTiff(littleEndian, make, model);
      TiffMetadata(tiff)
      == Some(TagUpdate(tiff, Entry(0x0110, 2, |model| + 1, 38 + |make| + 1), littleEndian,
                        TagUpdate(tiff, Entry(0x010F, 2, |make| + 1, 38), littleEndian, EmptyExif)))
  {
    var e0, e1 := Entry(0x010F, 2, |make| + 1, 38), Entry(0x0110, 2, |model| + 1, 38 + |make| + 1);
    var es := [e0, e1];
    var h, d, strings := TiffHeader(littleEndian, 8), EncodeIfd(es, 0, littleEndian), (Latin1(make) + [0]) + (Latin1(model) + [0]);
    var tiff := CameraTiff(littleEndian, make, model);
    assert tiff == h + d + strings;
    Assoc(h, d, strings);
    TiffHeaderRoundTrip(littleEndian, 8, d + strings);
    IfdRoundTrip(h, es, 0, strings, littleEndian);
    assert EntryAt(tiff, 8, 0, littleEndian) == e0 && EntryAt(tiff, 8, 1, littleEndian) == e1;
    LastDirectory(tiff, 8, littleEndian, {}, EmptyExif);
    assert IfdEntriesUpTo(tiff, 8, littleEndian, 1, EmptyExif) == TagUpdate(tiff, e0, littleEndian, EmptyExif);
  }

  /** The two strings after the directory read back as the maker and the model. */
  lemma CameraTiffStrings(littleEndian: bool, make: string, model: string)
    requires AsciiText(make) && AsciiText(model)
    ensures var tiff := CameraTiff(littleEndian, make, model);
      && ReadString(tiff, 38, |make| + 1) == make
      && ReadString(tiff, 38 + |make| + 1, |model| + 1) == model
  {
    var hd := TiffHeader(littleEndian, 8)
      + EncodeIfd([Entry(0x010F, 2, |make| + 1, 38), Entry(0x0110, 2, |model| + 1, 38 + |make| + 1)], 0, littleEndian);
    var ms, ds := Latin1(make) + [0], Latin1(model) + [0];
    var tiff := CameraTiff(littleEndian, make, model);
    assert |hd| == 38;
    assert tiff == hd + ms + ds;
    assert tiff == hd + Latin1(make) + [0] + ds;
    ReadStringRoundTrip(hd, make, ds);
    assert tiff == (hd + ms) + Latin1(model) + [0] + [];
    ReadStringRoundTrip(hd + ms, model, []);
  }

  /** Exposure times as cameras write them: the rational 1/n, for n of 2
      or more, renders as "1/n"; a whole number of seconds n/1 renders as
      that many seconds. */
  lemma ShutterSpeedRoundTrip(p: seq<byte>, n: int, s: seq<byte>, littleEndian: bool)
    requires 1 <= n < TWO_31
    ensures n >= 2 ==> ShutterSpeed(ReadRational(p + EncodeRational(1, n, littleEndian) + s, |p|, littleEndian)) == OneOver(n)
    ensures ShutterSpeed(ReadRational(p + EncodeRational(n, 1, littleEndian) + s, |p|, littleEndian)) == Seconds(n as real)
  {
    Assoc(p, Encode32(1, littleEndian), Encode32(n, littleEndian));
    ReadRationalEncode(p, 1, n, s, littleEndian);
    WholeRationalAt(p + EncodeRational(n, 1, littleEndian) + s, p, n, s, littleEndian);
    if n >= 2 {
      ReciprocalShutter(n);
    }
  }

  lemma ReciprocalShutter(n: int)
    requires n >= 2
    ensures ShutterSpeed(1 as real / n as real) == OneOver(n)
  {
    var t := 1.0 / n as real;
    assert 0.0 < t < 1.0;
    assert 1.0 / t == n as real;
  }
}
