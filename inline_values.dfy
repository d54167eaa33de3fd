/** Values that fit in an entry's 4-byte value field.

    TIFF 6.0 (section 2, "Value Offset") stores a value of at most four
    bytes in the value field itself; only longer values live at the offset
    that field holds. The walk in `Exif` always treats the field as an
    offset. For an ASCII reference such as GPSLatitudeRef "S" (two bytes,
    "S" and NUL), the field's bytes become a far-away offset and the
    reference reads as the empty string, so a southern latitude keeps its
    positive sign. This module exhibits that on a concrete entry, defines
    the reading that honours inline values, and proves that it gives the
    intended sign while agreeing with the original wherever the value does
    not fit inline. */
module InlineValues {
  import opened Wrappers
  import opened Js
  import opened Bytes
  import opened Exif

  /** A big-endian GPSLatitudeRef entry as a camera writes it: tag 1, type
      ASCII (2), count 2, and the value field holding "S", NUL, padding. */
  const SouthRefEntry: seq<byte> := [0x00, 0x01, 0x00, 0x02, 0x00, 0x00, 0x00, 0x02, 0x53, 0x00, 0x00, 0x00]

  lemma SouthRefEntryFields(p: seq<byte>, s: seq<byte>)
    ensures ReadEntry(p + SouthRefEntry + s, |p|, false) == Entry(1, 2, 2, 0x5300_0000)
  {
    var data := p + SouthRefEntry + s;
    assert forall k :: 0 <= k < 12 ==> ByteAt(data, |p| + k) == SouthRefEntry[k];
  }

  /** As written: the reference is read at offset 0x53000000, past the end
      of any buffer shorter than that, and comes back empty; the latitude
      then keeps its positive sign. */
  lemma InlineSouthRefLost(p: seq<byte>, s: seq<byte>, g: GpsFields, exif: ExifData)
    requires |p| + 12 + |s| <= 0x5300_0000
    requires Truthy(g.lat, 0.0) && Truthy(g.lon, 0.0) && g.lat.value > 0.0
    ensures var data := p + SouthRefEntry + s;
      var after := GpsTagUpdate(data, ReadEntry(data, |p|, false), false, g);
      && after.latRef == Some("")
      && GpsConclude(after, exif).gps.value.latitude > 0.0
  {
    SouthRefEntryFields(p, s);
  }

  /** A value of at most four bytes is read from the value field itself
      (which starts 8 bytes into the entry at `entryAt`); a longer one from
      the offset the field holds. */
  function ReadAsciiValue(data: seq<byte>, entryAt: int, littleEndian: bool): string {
    var e := ReadEntry(data, entryAt, littleEndian);
    if 0 <= e.count <= 4 then ReadString(data, entryAt + 8, e.count)
    else ReadString(data, e.valueOffset, e.count)
  }

  /** The GPS entry update with the two references read as `ReadAsciiValue` does. */
  function CorrectedGpsTagUpdate(data: seq<byte>, entryAt: int, littleEndian: bool, g: GpsFields): GpsFields {
    var e := ReadEntry(data, entryAt, littleEndian);
    match GpsTagOf(e.tag)
    case LatitudeRef => g.(latRef := Some(ReadAsciiValue(data, entryAt, littleEndian)))
    case LongitudeRef => g.(lonRef := Some(ReadAsciiValue(data, entryAt, littleEndian)))
    case _ => GpsTagUpdate(data, e, littleEndian, g)
  }

  /** The correction only changes what was wrong: a reference longer than
      four bytes, and every other tag, read exactly as before. */
  lemma CorrectedAgreesOnLongValues(data: seq<byte>, entryAt: int, littleEndian: bool, g: GpsFields)
    requires var e := ReadEntry(data, entryAt, littleEndian);
      !(0 <= e.count <= 4) || GpsTagOf(e.tag) !in {LatitudeRef, LongitudeRef}
    ensures CorrectedGpsTagUpdate(data, entryAt, littleEndian, g)
         == GpsTagUpdate(data, ReadEntry(data, entryAt, littleEndian), littleEndian, g)
  {
  }

  /** Corrected: the same entry yields the reference "S", and a positive
      latitude becomes southern (negative). */
  lemma InlineSouthRefHonoured(p: seq<byte>, s: seq<byte>, g: GpsFields, exif: ExifData)
    requires Truthy(g.lat, 0.0) && Truthy(g.lon, 0.0) && g.lat.value > 0.0
    ensures var data := p + SouthRefEntry + s;
      var after := CorrectedGpsTagUpdate(data, |p|, false, g);
      && after.latRef == Some("S")
      && GpsConclude(after, exif).gps.value.latitude == -g.lat.value
  {
    var data := p + SouthRefEntry + s;
    SouthRefEntryFields(p, s);
    assert ByteAt(data, |p| + 8) == 0x53 && ByteAt(data, |p| + 9) == 0;
    var lo := |p| + 8;
    assert DropNulRange(data, lo + 2, lo + 2) == "";
    assert DropNulRange(data, lo + 1, lo + 2) == "";
    assert DropNulRange(data, lo, lo + 2) == "S";
  }
}
