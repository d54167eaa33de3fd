/** The EXIF reader: locate the APP1 "Exif" segment of a JPEG, then walk the
    TIFF structure inside it (TIFF 6.0, section 2: a byte-order mark, a
    pointer to the first image file directory, and directories made of a
    16-bit entry count, 12-byte entries and a trailing next-directory
    pointer), folding the recognised tags into one `ExifData` record.

    Every function below is the specification of one step; the methods
    further down are the loops of the source, each proved to compute the
    function it is named after. The record the source mutates in place is
    threaded through the methods as a value. */
module Exif {
  import opened Wrappers
  import opened Js
  import opened Bytes

  // ---------------------------------------------------------------------
  // The metadata record
  // ---------------------------------------------------------------------

  datatype Dimensions = Dimensions(width: int, height: int)

  /** The exposure time as the source renders it: `"1/" + Math.round(1/t)`
      below one second (`"1/Infinity"` for a zero time), `"<t>s"` otherwise. */
  datatype Shutter = OneOver(denominator: int) | OneOverInfinity | Seconds(value: real)

  /** The focal length: the rational focal length (rendered with `toFixed(0)`)
      or the 35 mm equivalent, an integer number of millimetres. */
  datatype FocalLength = FromRational(mm: real) | Equivalent35mm(mm35: int)

  /** Camera settings; the aperture is the f-number (rendered `"f/" + toFixed(1)`). */
  datatype Settings = Settings(
    iso: Option<int>,
    aperture: Option<real>,
    shutterSpeed: Option<Shutter>,
    focalLength: Option<FocalLength>)

  const NoSettings: Settings := Settings(None, None, None, None)

  /** Signed decimal degrees (south and west negative) and an optional altitude. */
  datatype Gps = Gps(latitude: real, longitude: real, altitude: Option<real>)

  datatype ExifData = ExifData(
    camera: Option<string>,
    lens: Option<string>,
    dateTaken: Option<string>,
    settings: Option<Settings>,
    gps: Option<Gps>,
    dimensions: Option<Dimensions>)

  const EmptyExif: ExifData := ExifData(None, None, None, None, None, None)

  /** One 12-byte directory entry: tag, field type, count and the 4-byte
      value-or-offset field, the last two read as signed 32-bit numbers. */
  datatype Entry = Entry(tag: int, fieldType: int, count: int, valueOffset: int)

  // ---------------------------------------------------------------------
  // Value readers
  // ---------------------------------------------------------------------

  /** A RATIONAL: numerator and denominator as consecutive 32-bit numbers;
      a zero denominator yields 0 rather than a division fault. */
  function ReadRational(data: seq<byte>, offset: int, littleEndian: bool): real {
    var numerator := ReadUint32(data, offset, littleEndian);
    var denominator := ReadUint32(data, offset + 4, littleEndian);
    if denominator == 0 then 0.0 else numerator as real / denominator as real
  }

  /** Round trip for rationals: a numerator and a denominator below 2^31
      written in either byte order read back as their quotient, and a zero
      denominator reads back as 0. */
  lemma ReadRationalEncode(p: seq<byte>, n: int, d: int, s: seq<byte>, littleEndian: bool)
    requires 0 <= n < TWO_31 && 0 <= d < TWO_31
    ensures ReadRational(p + Encode32(n, littleEndian) + Encode32(d, littleEndian) + s, |p|, littleEndian)
         == if d == 0 then 0.0 else n as real / d as real
  {
    var en, ed := Encode32(n, littleEndian), Encode32(d, littleEndian);
    assert p + en + ed + s == p + en + (ed + s);
    ReadUint32Encode32(p, n, ed + s, littleEndian);
    ReadUint32Encode32(p + en, d, s, littleEndian);
  }

  /** Degrees, minutes and seconds, three consecutive rationals, in decimal degrees. */
  function ReadGpsCoordinate(data: seq<byte>, offset: int, littleEndian: bool): real {
    ReadRational(data, offset, littleEndian)
    + ReadRational(data, offset + 8, littleEndian) / 60.0
    + ReadRational(data, offset + 16, littleEndian) / 3600.0
  }

  /** Bytes decoded one character per byte, with every NUL byte removed
      (`.replace(/\0/g, '')`), wherever it stands. */
  function DropNul(bytes: seq<byte>): string
  {
    if bytes == [] then []
    else (if bytes[0] == 0 then [] else [bytes[0] as char]) + DropNul(bytes[1..])
  }

  /** Dropping NULs never lengthens, and leaves no NUL behind. */
  lemma {:induction false} DropNulShape(bytes: seq<byte>)
    ensures |DropNul(bytes)| <= |bytes|
    ensures forall i :: 0 <= i < |DropNul(bytes)| ==> DropNul(bytes)[i] != '\0'
    decreases |bytes|
  {
    if bytes != [] {
      DropNulShape(bytes[1..]);
    }
  }

  /** `length` bytes from `offset`, cut out as `slice` does (see
      `ReadStringIsSlice`), decoded one character per byte, NULs dropped. */
  function ReadString(data: seq<byte>, offset: int, length: int): string {
    DropNulRange(data, SliceBound(offset, |data|), SliceBound(offset + length, |data|))
  }

  /** `DropNul` of `data[lo..hi]`, read byte by byte from the buffer. */
  function DropNulRange(data: seq<byte>, lo: nat, hi: nat): string
    requires hi <= |data|
    decreases hi - lo
  {
    if lo >= hi then []
    else (if data[lo] == 0 then [] else [data[lo] as char]) + DropNulRange(data, lo + 1, hi)
  }

  lemma {:induction false} DropNulRangeIsDropNul(data: seq<byte>, lo: nat, hi: nat)
    requires lo <= hi <= |data|
    ensures DropNulRange(data, lo, hi) == DropNul(data[lo..hi])
    decreases hi - lo
  {
    if lo < hi {
      assert data[lo..hi][0] == data[lo];
      assert data[lo..hi][1..] == data[lo + 1..hi];
      DropNulRangeIsDropNul(data, lo + 1, hi);
    }
  }

  /** `readString` is `slice`, then decoding, then removing every NUL. */
  lemma ReadStringIsSlice(data: seq<byte>, offset: int, length: int)
    ensures ReadString(data, offset, length) == DropNul(Slice(data, offset, offset + length))
  {
    var lo, hi := SliceBound(offset, |data|), SliceBound(offset + length, |data|);
    if lo < hi {
      DropNulRangeIsDropNul(data, lo, hi);
    }
  }

  /** The bytes of a string whose characters all fit in one byte. */
  function Latin1(s: string): (b: seq<byte>)
    requires forall i :: 0 <= i < |s| ==> s[i] as int < 256
    ensures |b| == |s|
    ensures forall i :: 0 <= i < |s| ==> b[i] == s[i] as int
  {
    seq(|s|, i requires 0 <= i < |s| => s[i] as int)
  }

  lemma {:induction false} DropNulAppend(a: seq<byte>, b: seq<byte>)
    ensures DropNul(a + b) == DropNul(a) + DropNul(b)
    decreases |a|
  {
    if a == [] {
      assert a + b == b;
    } else {
      assert (a + b)[0] == a[0];
      assert (a + b)[1..] == a[1..] + b;
      DropNulAppend(a[1..], b);
    }
  }

  lemma {:induction false} DropNulLatin1(s: string)
    requires forall i :: 0 <= i < |s| ==> 0 < s[i] as int < 256
    ensures DropNul(Latin1(s)) == s
    decreases |s|
  {
    if s != [] {
      assert Latin1(s)[1..] == Latin1(s[1..]);
      DropNulLatin1(s[1..]);
    }
  }

  /** Round trip for strings: a NUL-free ASCII string stored with its NUL
      terminator, anywhere in the blob, reads back as itself. (Bytes from
      0x80 up are where one-byte decoding and UTF-8 part ways.) */
  lemma ReadStringRoundTrip(p: seq<byte>, s: string, rest: seq<byte>)
    requires forall i :: 0 <= i < |s| ==> 0 < s[i] as int < 0x80
    ensures ReadString(p + Latin1(s) + [0] + rest, |p|, |s| + 1) == s
  {
    var data := p + Latin1(s) + [0] + rest;
    ReadStringIsSlice(data, |p|, |s| + 1);
    SliceInBounds(data, |p|, |p| + |s| + 1);
    assert Slice(data, |p|, |p| + |s| + 1) == Latin1(s) + [0];
    DropNulAppend(Latin1(s), [0]);
    DropNulLatin1(s);
  }

  // ---------------------------------------------------------------------
  // Tags
  // ---------------------------------------------------------------------

  /** The tags the primary directory recognises. */
  datatype PrimaryTag = Make | Model | DateTime | ImageWidth | ImageHeight
                      | ExifIfdPointer | GpsIfdPointer | OtherPrimary

  function PrimaryTagOf(tag: int): PrimaryTag {
    if tag == 0x010F then Make
    else if tag == 0x0110 then Model
    else if tag == 0x0132 then DateTime
    else if tag == 0x0100 then ImageWidth
    else if tag == 0x0101 then ImageHeight
    else if tag == 0x8769 then ExifIfdPointer
    else if tag == 0x8825 then GpsIfdPointer
    else OtherPrimary
  }

  /** The tags the Exif sub-directory recognises. */
  datatype ExifTag = IsoSpeed | FNumber | ExposureTime | FocalLengthTag | FocalLengthIn35mm | OtherExif

  function ExifTagOf(tag: int): ExifTag {
    if tag == 0x8827 then IsoSpeed
    else if tag == 0x829D then FNumber
    else if tag == 0x829A then ExposureTime
    else if tag == 0x920A then FocalLengthTag
    else if tag == 0xA405 then FocalLengthIn35mm
    else OtherExif
  }

  /** The tags the GPS sub-directory recognises. */
  datatype GpsTag = LatitudeRef | Latitude | LongitudeRef | Longitude | Altitude | OtherGps

  function GpsTagOf(tag: int): GpsTag {
    if tag == 0x0001 then LatitudeRef
    else if tag == 0x0002 then Latitude
    else if tag == 0x0003 then LongitudeRef
    else if tag == 0x0004 then Longitude
    else if tag == 0x0006 then Altitude
    else OtherGps
  }

  // ---------------------------------------------------------------------
  // Directory layout
  // ---------------------------------------------------------------------

  /** The entry whose first byte is at `at`. */
  function ReadEntry(data: seq<byte>, at: int, littleEndian: bool): Entry {
    Entry(ReadUint16(data, at, littleEndian), ReadUint16(data, at + 2, littleEndian),
          ReadUint32(data, at + 4, littleEndian), ReadUint32(data, at + 8, littleEndian))
  }

  /** Entry `i` of the directory at `ifd`: after the 2-byte count, 12 bytes each. */
  function EntryAt(data: seq<byte>, ifd: int, i: int, littleEndian: bool): Entry {
    ReadEntry(data, ifd + 2 + 12 * i, littleEndian)
  }

  /** Entry `i` is made of the four fields read at its first byte. */
  lemma EntryFields(data: seq<byte>, ifd: int, i: int, littleEndian: bool, at: int)
    requires at == ifd + 2 + 12 * i
    ensures EntryAt(data, ifd, i, littleEndian)
         == Entry(ReadUint16(data, at, littleEndian), ReadUint16(data, at + 2, littleEndian),
                  ReadUint32(data, at + 4, littleEndian), ReadUint32(data, at + 8, littleEndian))
  {
  }

  /** The number of entries of the directory at `ifd`. */
  function EntryCount(data: seq<byte>, ifd: int, littleEndian: bool): (n: nat)
    ensures n < 0x1_0000
  {
    ReadUint16(data, ifd, littleEndian)
  }

  /** The pointer that follows the last entry of the directory at `ifd`. */
  function NextIfdOffset(data: seq<byte>, ifd: int, littleEndian: bool): int {
    ReadUint32(data, ifd + 2 + 12 * EntryCount(data, ifd, littleEndian), littleEndian)
  }

  /** The next pointer is the 32-bit field right after the last entry. */
  lemma NextIfdField(data: seq<byte>, ifd: int, littleEndian: bool, at: int)
    requires at == ifd + 2 + 12 * EntryCount(data, ifd, littleEndian)
    ensures NextIfdOffset(data, ifd, littleEndian) == ReadUint32(data, at, littleEndian)
  {
  }

  // ---------------------------------------------------------------------
  // The Exif sub-directory
  // ---------------------------------------------------------------------

  function Round(x: real): int {
    (x + 0.5).Floor
  }

  /** ExposureTime as rendered: below one second as a reciprocal. */
  function ShutterSpeed(t: real): (s: Shutter)
    ensures t >= 1.0 <==> s.Seconds?
    ensures t == 0.0 <==> s.OneOverInfinity?
    ensures t >= 1.0 ==> s == Seconds(t)
    ensures t < 1.0 && t != 0.0 ==> s == OneOver(Round(1.0 / t))
  {
    if t < 1.0 then (if t == 0.0 then OneOverInfinity else OneOver(Round(1.0 / t)))
    else Seconds(t)
  }

  /** The effect of one Exif sub-directory entry on the settings. */
  function ExifTagUpdate(data: seq<byte>, e: Entry, littleEndian: bool, s: Settings): Settings {
    match ExifTagOf(e.tag)
    case IsoSpeed => s.(iso := Some(ReadUint16(data, e.valueOffset, littleEndian)))
    case FNumber => s.(aperture := Some(ReadRational(data, e.valueOffset, littleEndian)))
    case ExposureTime => s.(shutterSpeed := Some(ShutterSpeed(ReadRational(data, e.valueOffset, littleEndian))))
    case FocalLengthTag => s.(focalLength := Some(FromRational(ReadRational(data, e.valueOffset, littleEndian))))
    case FocalLengthIn35mm =>
      var mm := ReadUint16(data, e.valueOffset, littleEndian);
      if mm != 0 then s.(focalLength := Some(Equivalent35mm(mm))) else s
    case OtherExif => s
  }

  /** The record after the first `k` entries of the Exif sub-directory at
      `ifd`: each entry first creates `settings` if absent, then applies. */
  function ExifEntriesUpTo(data: seq<byte>, ifd: int, littleEndian: bool, k: nat, exif: ExifData): ExifData
    decreases k
  {
    if k == 0 then exif
    else
      var before := ExifEntriesUpTo(data, ifd, littleEndian, k - 1, exif);
      before.(settings := Some(ExifTagUpdate(data, EntryAt(data, ifd, k - 1, littleEndian), littleEndian,
                                             before.settings.GetOr(NoSettings))))
  }

  function ExifSubIfd(data: seq<byte>, ifd: int, littleEndian: bool, exif: ExifData): ExifData {
    ExifEntriesUpTo(data, ifd, littleEndian, EntryCount(data, ifd, littleEndian), exif)
  }

  /** Each Exif tag writes its own setting and no other; an unknown tag
      leaves the settings as they were. The 35 mm focal length and the
      rational focal length share one field. */
  lemma ExifTagUpdateFrame(data: seq<byte>, e: Entry, littleEndian: bool, s: Settings)
    ensures var r := ExifTagUpdate(data, e, littleEndian, s);
      && (ExifTagOf(e.tag) != IsoSpeed ==> r.iso == s.iso)
      && (ExifTagOf(e.tag) != FNumber ==> r.aperture == s.aperture)
      && (ExifTagOf(e.tag) != ExposureTime ==> r.shutterSpeed == s.shutterSpeed)
      && (ExifTagOf(e.tag) != FocalLengthTag && ExifTagOf(e.tag) != FocalLengthIn35mm ==> r.focalLength == s.focalLength)
      && (ExifTagOf(e.tag) == IsoSpeed ==> r.iso == Some(ReadUint16(data, e.valueOffset, littleEndian)))
      && (ExifTagOf(e.tag) == FNumber ==> r.aperture == Some(ReadRational(data, e.valueOffset, littleEndian)))
      && (ExifTagOf(e.tag) == ExposureTime ==>
            r.shutterSpeed == Some(ShutterSpeed(ReadRational(data, e.valueOffset, littleEndian))))
      && (ExifTagOf(e.tag) == FocalLengthTag ==>
            r.focalLength == Some(FromRational(ReadRational(data, e.valueOffset, littleEndian))))
  {
  }

  /** A zero 35 mm focal length is ignored (it is falsy), so it never
      replaces a focal length read earlier; a non-zero one always does. */
  lemma FocalLength35Override(data: seq<byte>, e: Entry, littleEndian: bool, s: Settings)
    requires ExifTagOf(e.tag) == FocalLengthIn35mm
    ensures ReadUint16(data, e.valueOffset, littleEndian) == 0 ==> ExifTagUpdate(data, e, littleEndian, s) == s
    ensures ReadUint16(data, e.valueOffset, littleEndian) != 0 ==>
      ExifTagUpdate(data, e, littleEndian, s).focalLength == Some(Equivalent35mm(ReadUint16(data, e.valueOffset, littleEndian)))
  {
  }

  /** The sub-directory walk changes `settings` and nothing else, and
      `settings` exists afterwards exactly when it existed before or the
      directory had at least one entry (even one with an unknown tag). */
  lemma {:induction false} ExifEntriesFrame(data: seq<byte>, ifd: int, littleEndian: bool, k: nat, exif: ExifData)
    ensures ExifEntriesUpTo(data, ifd, littleEndian, k, exif).(settings := exif.settings) == exif
    ensures ExifEntriesUpTo(data, ifd, littleEndian, k, exif).settings.Some? <==> k > 0 || exif.settings.Some?
    decreases k
  {
    if k > 0 {
      ExifEntriesFrame(data, ifd, littleEndian, k - 1, exif);
    }
  }

  /** One of the four camera settings. */
  datatype Setting = IsoField | ApertureField | ShutterField | FocalLengthField

  /** The value of one setting. */
  datatype SettingValue =
    | IsoValue(iso: Option<int>)
    | ApertureValue(aperture: Option<real>)
    | ShutterValue(shutter: Option<Shutter>)
    | FocalLengthValue(focal: Option<FocalLength>)

  function Get(s: Settings, f: Setting): SettingValue {
    match f
    case IsoField => IsoValue(s.iso)
    case ApertureField => ApertureValue(s.aperture)
    case ShutterField => ShutterValue(s.shutterSpeed)
    case FocalLengthField => FocalLengthValue(s.focalLength)
  }

  /** Whether entry `e` writes setting `f`: its tag is that setting's or,
      for the focal length, it is a non-zero 35 mm focal length. */
  predicate Writes(data: seq<byte>, e: Entry, littleEndian: bool, f: Setting) {
    match f
    case IsoField => ExifTagOf(e.tag) == IsoSpeed
    case ApertureField => ExifTagOf(e.tag) == FNumber
    case ShutterField => ExifTagOf(e.tag) == ExposureTime
    case FocalLengthField =>
      ExifTagOf(e.tag) == FocalLengthTag
      || (ExifTagOf(e.tag) == FocalLengthIn35mm && ReadUint16(data, e.valueOffset, littleEndian) != 0)
  }

  /** The value an entry that writes setting `f` gives it, read at the
      entry's value offset. */
  function Written(data: seq<byte>, e: Entry, littleEndian: bool, f: Setting): SettingValue {
    match f
    case IsoField => IsoValue(Some(ReadUint16(data, e.valueOffset, littleEndian)))
    case ApertureField => ApertureValue(Some(ReadRational(data, e.valueOffset, littleEndian)))
    case ShutterField => ShutterValue(Some(ShutterSpeed(ReadRational(data, e.valueOffset, littleEndian))))
    case FocalLengthField =>
      FocalLengthValue(Some(
        if ExifTagOf(e.tag) == FocalLengthTag then FromRational(ReadRational(data, e.valueOffset, littleEndian))
        else Equivalent35mm(ReadUint16(data, e.valueOffset, littleEndian))))
  }

  /** One entry, setting by setting: a setting it writes takes the
      entry's value whatever it was; any other setting is kept. */
  lemma SettingStep(data: seq<byte>, e: Entry, littleEndian: bool, s: Settings, f: Setting)
    ensures Get(ExifTagUpdate(data, e, littleEndian, s), f)
         == if Writes(data, e, littleEndian, f) then Written(data, e, littleEndian, f) else Get(s, f)
  {
    ExifTagUpdateFrame(data, e, littleEndian, s);
    if ExifTagOf(e.tag) == FocalLengthIn35mm {
      FocalLength35Override(data, e, littleEndian, s);
    }
  }

  /** Later entries win, for every setting: after the entry `j` that last
      writes a setting among the first `k`, the setting holds the value
      entry `j` wrote. */
  lemma {:induction false} LastWriteWins(data: seq<byte>, ifd: int, littleEndian: bool, f: Setting, j: nat, k: nat, exif: ExifData)
    requires j < k
    requires Writes(data, EntryAt(data, ifd, j, littleEndian), littleEndian, f)
    requires forall m :: j < m < k ==> !Writes(data, EntryAt(data, ifd, m, littleEndian), littleEndian, f)
    ensures ExifEntriesUpTo(data, ifd, littleEndian, k, exif).settings.Some?
    ensures Get(ExifEntriesUpTo(data, ifd, littleEndian, k, exif).settings.value, f)
         == Written(data, EntryAt(data, ifd, j, littleEndian), littleEndian, f)
    decreases k
  {
    var before := ExifEntriesUpTo(data, ifd, littleEndian, k - 1, exif);
    var e := EntryAt(data, ifd, k - 1, littleEndian);
    var updated := ExifTagUpdate(data, e, littleEndian, before.settings.GetOr(NoSettings));
    assert ExifEntriesUpTo(data, ifd, littleEndian, k, exif).settings == Some(updated);
    SettingStep(data, e, littleEndian, before.settings.GetOr(NoSettings), f);
    if j < k - 1 {
      LastWriteWins(data, ifd, littleEndian, f, j, k - 1, exif);
      assert !Writes(data, e, littleEndian, f);
    }
  }

  /** The focal length is decided by the last entry that is a FocalLength
      or a non-zero FocalLengthIn35mmFilm, whichever of the two it is. */
  lemma FocalLengthLastWriteWins(data: seq<byte>, ifd: int, littleEndian: bool, j: nat, k: nat, exif: ExifData)
    requires j < k
    requires var e := EntryAt(data, ifd, j, littleEndian);
      ExifTagOf(e.tag) == FocalLengthTag
      || (ExifTagOf(e.tag) == FocalLengthIn35mm && ReadUint16(data, e.valueOffset, littleEndian) != 0)
    requires forall m :: j < m < k ==>
      var e := EntryAt(data, ifd, m, littleEndian);
      !(ExifTagOf(e.tag) == FocalLengthTag
        || (ExifTagOf(e.tag) == FocalLengthIn35mm && ReadUint16(data, e.valueOffset, littleEndian) != 0))
    ensures var e := EntryAt(data, ifd, j, littleEndian);
      var r := ExifEntriesUpTo(data, ifd, littleEndian, k, exif);
      && r.settings.Some?
      && r.settings.value.focalLength
         == Some(if ExifTagOf(e.tag) == FocalLengthTag then FromRational(ReadRational(data, e.valueOffset, littleEndian))
                 else Equivalent35mm(ReadUint16(data, e.valueOffset, littleEndian)))
  {
    forall m | j < m < k
      ensures !Writes(data, EntryAt(data, ifd, m, littleEndian), littleEndian, FocalLengthField)
    {
    }
    LastWriteWins(data, ifd, littleEndian, FocalLengthField, j, k, exif);
  }

  // ---------------------------------------------------------------------
  // The GPS sub-directory
  // ---------------------------------------------------------------------

  /** The source's local `gpsData` object: what the GPS entries have set. */
  datatype GpsFields = GpsFields(
    latRef: Option<string>, lat: Option<real>,
    lonRef: Option<string>, lon: Option<real>,
    alt: Option<real>)

  const NoGpsFields: GpsFields := GpsFields(None, None, None, None, None)

  function GpsTagUpdate(data: seq<byte>, e: Entry, littleEndian: bool, g: GpsFields): GpsFields {
    match GpsTagOf(e.tag)
    case LatitudeRef => g.(latRef := Some(ReadString(data, e.valueOffset, e.count)))
    case Latitude => g.(lat := Some(ReadGpsCoordinate(data, e.valueOffset, littleEndian)))
    case LongitudeRef => g.(lonRef := Some(ReadString(data, e.valueOffset, e.count)))
    case Longitude => g.(lon := Some(ReadGpsCoordinate(data, e.valueOffset, littleEndian)))
    case Altitude => g.(alt := Some(ReadRational(data, e.valueOffset, littleEndian)))
    case OtherGps => g
  }

  /** Each GPS tag sets only its own field, to the value read at the
      entry's value offset; any other tag changes nothing. */
  lemma GpsTagUpdateFrame(data: seq<byte>, e: Entry, littleEndian: bool, g: GpsFields)
    ensures var r := GpsTagUpdate(data, e, littleEndian, g);
      && (r.latRef == if e.tag == 0x0001 then Some(ReadString(data, e.valueOffset, e.count)) else g.latRef)
      && (r.lat == if e.tag == 0x0002 then Some(ReadGpsCoordinate(data, e.valueOffset, littleEndian)) else g.lat)
      && (r.lonRef == if e.tag == 0x0003 then Some(ReadString(data, e.valueOffset, e.count)) else g.lonRef)
      && (r.lon == if e.tag == 0x0004 then Some(ReadGpsCoordinate(data, e.valueOffset, littleEndian)) else g.lon)
      && (r.alt == if e.tag == 0x0006 then Some(ReadRational(data, e.valueOffset, littleEndian)) else g.alt)
  {
  }

  function GpsEntriesUpTo(data: seq<byte>, ifd: int, littleEndian: bool, k: nat): GpsFields
    decreases k
  {
    if k == 0 then NoGpsFields
    else GpsTagUpdate(data, EntryAt(data, ifd, k - 1, littleEndian), littleEndian,
                      GpsEntriesUpTo(data, ifd, littleEndian, k - 1))
  }

  /** After the GPS entries: `gps` is replaced only when both latitude and
      longitude are truthy; the sign flips on a reference of exactly "S" or
      "W"; the altitude is kept only when truthy. Nothing else changes. */
  function GpsConclude(g: GpsFields, exif: ExifData): (r: ExifData)
    ensures r.(gps := exif.gps) == exif
    ensures r.gps != exif.gps ==> Truthy(g.lat, 0.0) && Truthy(g.lon, 0.0)
    ensures Truthy(g.lat, 0.0) && Truthy(g.lon, 0.0) ==> (
      && r.gps.Some?
      && (r.gps.value.latitude == g.lat.value || r.gps.value.latitude == -g.lat.value)
      && (r.gps.value.latitude != g.lat.value <==> g.latRef == Some("S"))
      && (r.gps.value.longitude == g.lon.value || r.gps.value.longitude == -g.lon.value)
      && (r.gps.value.longitude != g.lon.value <==> g.lonRef == Some("W"))
      && (r.gps.value.altitude.Some? <==> Truthy(g.alt, 0.0))
      && (r.gps.value.altitude.Some? ==> r.gps.value.altitude == g.alt))
  {
    if Truthy(g.lat, 0.0) && Truthy(g.lon, 0.0) then
      exif.(gps := Some(Gps(
        if g.latRef == Some("S") then -g.lat.value else g.lat.value,
        if g.lonRef == Some("W") then -g.lon.value else g.lon.value,
        if Truthy(g.alt, 0.0) then Some(g.alt.value) else None)))
    else exif
  }

  function GpsIfd(data: seq<byte>, ifd: int, littleEndian: bool, exif: ExifData): ExifData {
    GpsConclude(GpsEntriesUpTo(data, ifd, littleEndian, EntryCount(data, ifd, littleEndian)), exif)
  }

  /** One more GPS entry, read at `at`, extends the fold by one. */
  lemma GpsEntriesStep(data: seq<byte>, ifd: int, littleEndian: bool, i: nat, at: int, e: Entry)
    requires at == ifd + 2 + 12 * i
    requires e == Entry(ReadUint16(data, at, littleEndian), ReadUint16(data, at + 2, littleEndian),
                        ReadUint32(data, at + 4, littleEndian), ReadUint32(data, at + 8, littleEndian))
    ensures GpsEntriesUpTo(data, ifd, littleEndian, i + 1)
         == GpsTagUpdate(data, e, littleEndian, GpsEntriesUpTo(data, ifd, littleEndian, i))
  {
    EntryFields(data, ifd, i, littleEndian, at);
  }

  // ---------------------------------------------------------------------
  // The primary directory chain
  // ---------------------------------------------------------------------

  /** Model appends to a non-empty camera, space-separated; otherwise sets it. */
  function CameraWithModel(camera: Option<string>, model: string): string {
    if Truthy(camera, "") then camera.value + " " + model else model
  }

  /** The effect of one primary-directory entry on the record. The value is
      always taken AT `valueOffset`, also for values that fit inline. */
  function TagUpdate(data: seq<byte>, e: Entry, littleEndian: bool, exif: ExifData): ExifData {
    match PrimaryTagOf(e.tag)
    case Make => exif.(camera := Some(ReadString(data, e.valueOffset, e.count)))
    case Model => exif.(camera := Some(CameraWithModel(exif.camera, ReadString(data, e.valueOffset, e.count))))
    case DateTime => exif.(dateTaken := Some(ReadString(data, e.valueOffset, e.count)))
    case ImageWidth =>
      exif.(dimensions := Some(exif.dimensions.GetOr(Dimensions(0, 0)).(width := ReadUint32(data, e.valueOffset, littleEndian))))
    case ImageHeight =>
      exif.(dimensions := Some(exif.dimensions.GetOr(Dimensions(0, 0)).(height := ReadUint32(data, e.valueOffset, littleEndian))))
    case ExifIfdPointer => ExifSubIfd(data, e.valueOffset, littleEndian, exif)
    case GpsIfdPointer => GpsIfd(data, e.valueOffset, littleEndian, exif)
    case OtherPrimary => exif
  }

  function IfdEntriesUpTo(data: seq<byte>, ifd: int, littleEndian: bool, k: nat, exif: ExifData): ExifData
    decreases k
  {
    if k == 0 then exif
    else TagUpdate(data, EntryAt(data, ifd, k - 1, littleEndian), littleEndian,
                   IfdEntriesUpTo(data, ifd, littleEndian, k - 1, exif))
  }

  /** One more entry, read at `at`, extends the fold by one. */
  lemma IfdEntriesStep(data: seq<byte>, ifd: int, littleEndian: bool, i: nat, at: int, e: Entry, exif: ExifData)
    requires at == ifd + 2 + 12 * i
    requires e == Entry(ReadUint16(data, at, littleEndian), ReadUint16(data, at + 2, littleEndian),
                        ReadUint32(data, at + 4, littleEndian), ReadUint32(data, at + 8, littleEndian))
    ensures IfdEntriesUpTo(data, ifd, littleEndian, i + 1, exif)
         == TagUpdate(data, e, littleEndian, IfdEntriesUpTo(data, ifd, littleEndian, i, exif))
  {
    EntryFields(data, ifd, i, littleEndian, at);
  }

  /** Offsets whose directory may have a non-zero next pointer and that the
      walk has not yet visited; the walk's termination measure. */
  function Unvisited(n: nat, visited: set<int>): set<int> {
    set x | -5 <= x < n && x !in visited
  }

  /** A directory outside [-5, |data|) reads a zero entry count and a zero
      next pointer, so only offsets in that window can continue a chain. */
  lemma FarIfdEndsChain(data: seq<byte>, ifd: int, littleEndian: bool)
    requires !(-5 <= ifd < |data|)
    ensures EntryCount(data, ifd, littleEndian) == 0
    ensures NextIfdOffset(data, ifd, littleEndian) == 0
  {
  }

  /** The primary directory at `ifd` and the directories chained after it.
      A next pointer of 0 ends the chain. A pointer back to a directory
      already walked makes the source recurse until the stack overflows;
      that error is caught in `parseExifSegment` and the whole result is
      null, so the chain yields None. */
  function IfdChain(data: seq<byte>, ifd: int, littleEndian: bool, visited: set<int>, exif: ExifData): Option<ExifData>
    requires ifd !in visited
    decreases Unvisited(|data|, visited)
  {
    var walked := IfdEntriesUpTo(data, ifd, littleEndian, EntryCount(data, ifd, littleEndian), exif);
    var next := NextIfdOffset(data, ifd, littleEndian);
    if next == 0 then Some(walked)
    else if next in visited + {ifd} then None
    else
      assert ifd in Unvisited(|data|, visited) by {
        if !(-5 <= ifd < |data|) { FarIfdEndsChain(data, ifd, littleEndian); }
      }
      assert ifd !in Unvisited(|data|, visited + {ifd});
      IfdChain(data, next, littleEndian, visited + {ifd}, walked)
  }

  /** The field type of an entry is read but never consulted. */
  lemma TagUpdateIgnoresFieldType(data: seq<byte>, e: Entry, fieldType: int, littleEndian: bool, exif: ExifData)
    ensures TagUpdate(data, e.(fieldType := fieldType), littleEndian, exif) == TagUpdate(data, e, littleEndian, exif)
  {
  }

  /** Which part of the record each primary tag may change: `lens` never,
      the two pointers only `settings` and `gps` respectively, an unknown
      tag nothing at all. */
  lemma TagUpdateFrame(data: seq<byte>, e: Entry, littleEndian: bool, exif: ExifData)
    ensures var r := TagUpdate(data, e, littleEndian, exif);
      && r.lens == exif.lens
      && (PrimaryTagOf(e.tag) !in {Make, Model} ==> r.camera == exif.camera)
      && (PrimaryTagOf(e.tag) != DateTime ==> r.dateTaken == exif.dateTaken)
      && (PrimaryTagOf(e.tag) !in {ImageWidth, ImageHeight} ==> r.dimensions == exif.dimensions)
      && (PrimaryTagOf(e.tag) != ExifIfdPointer ==> r.settings == exif.settings)
      && (PrimaryTagOf(e.tag) != GpsIfdPointer ==> r.gps == exif.gps)
  {
    if PrimaryTagOf(e.tag) == ExifIfdPointer {
      ExifEntriesFrame(data, e.valueOffset, littleEndian, EntryCount(data, e.valueOffset, littleEndian), exif);
    }
  }

  /** A Make entry followed by a Model entry names the camera "make model";
      a Model entry with no (or an empty) make before it names it "model". */
  lemma CameraFromMakeAndModel(data: seq<byte>, make: Entry, model: Entry, littleEndian: bool, exif: ExifData)
    requires PrimaryTagOf(make.tag) == Make && PrimaryTagOf(model.tag) == Model
    ensures var m := ReadString(data, make.valueOffset, make.count);
      TagUpdate(data, model, littleEndian, TagUpdate(data, make, littleEndian, exif)).camera
      == Some(if m == "" then ReadString(data, model.valueOffset, model.count)
              else m + " " + ReadString(data, model.valueOffset, model.count))
    ensures exif.camera.None? ==>
      TagUpdate(data, model, littleEndian, exif).camera == Some(ReadString(data, model.valueOffset, model.count))
  {
  }

  /** ImageWidth sets the width and keeps the height read so far, 0 when
      there was none; ImageHeight likewise. */
  lemma DimensionsOneSideAtATime(data: seq<byte>, e: Entry, littleEndian: bool, exif: ExifData)
    ensures PrimaryTagOf(e.tag) == ImageWidth ==>
      TagUpdate(data, e, littleEndian, exif).dimensions
      == Some(Dimensions(ReadUint32(data, e.valueOffset, littleEndian),
                         if exif.dimensions.Some? then exif.dimensions.value.height else 0))
    ensures PrimaryTagOf(e.tag) == ImageHeight ==>
      TagUpdate(data, e, littleEndian, exif).dimensions
      == Some(Dimensions(if exif.dimensions.Some? then exif.dimensions.value.width else 0,
                         ReadUint32(data, e.valueOffset, littleEndian)))
  {
  }

  /** No tag sets `lens`: walking the entries of a directory keeps it. */
  lemma {:induction false} IfdEntriesKeepLens(data: seq<byte>, ifd: int, littleEndian: bool, k: nat, exif: ExifData)
    ensures IfdEntriesUpTo(data, ifd, littleEndian, k, exif).lens == exif.lens
    decreases k
  {
    if k > 0 {
      IfdEntriesKeepLens(data, ifd, littleEndian, k - 1, exif);
      TagUpdateFrame(data, EntryAt(data, ifd, k - 1, littleEndian), littleEndian,
                     IfdEntriesUpTo(data, ifd, littleEndian, k - 1, exif));
    }
  }

  /** ... and so does the whole chain of directories. */
  lemma {:induction false} IfdChainKeepsLens(data: seq<byte>, ifd: int, littleEndian: bool, visited: set<int>, exif: ExifData)
    requires ifd !in visited
    ensures IfdChain(data, ifd, littleEndian, visited, exif).Some? ==>
      IfdChain(data, ifd, littleEndian, visited, exif).value.lens == exif.lens
    decreases Unvisited(|data|, visited)
  {
    var walked := IfdEntriesUpTo(data, ifd, littleEndian, EntryCount(data, ifd, littleEndian), exif);
    IfdEntriesKeepLens(data, ifd, littleEndian, EntryCount(data, ifd, littleEndian), exif);
    var next := NextIfdOffset(data, ifd, littleEndian);
    if next != 0 && next !in visited + {ifd} {
      if !(-5 <= ifd < |data|) { FarIfdEndsChain(data, ifd, littleEndian); }
      assert ifd in Unvisited(|data|, visited) && ifd !in Unvisited(|data|, visited + {ifd});
      IfdChainKeepsLens(data, next, littleEndian, visited + {ifd}, walked);
    }
  }

  /** A directory whose next pointer is 0 ends the chain with its own entries applied. */
  lemma LastDirectory(data: seq<byte>, ifd: int, littleEndian: bool, visited: set<int>, exif: ExifData)
    requires ifd !in visited && NextIfdOffset(data, ifd, littleEndian) == 0
    ensures IfdChain(data, ifd, littleEndian, visited, exif)
         == Some(IfdEntriesUpTo(data, ifd, littleEndian, EntryCount(data, ifd, littleEndian), exif))
  {
  }

  /** A directory that points to itself, or two directories that point to
      each other, make the parse fail as a whole. */
  lemma CyclicChainIsNull(data: seq<byte>, a: int, b: int, littleEndian: bool, exif: ExifData)
    requires a != 0 && b != 0
    requires NextIfdOffset(data, a, littleEndian) == b
    requires NextIfdOffset(data, b, littleEndian) == a
    ensures IfdChain(data, a, littleEndian, {}, exif) == None
  {
    if a != b {
      var walked := IfdEntriesUpTo(data, a, littleEndian, EntryCount(data, a, littleEndian), exif);
      assert IfdChain(data, b, littleEndian, {a}, walked) == None;
    }
  }

  // ---------------------------------------------------------------------
  // Segment location and the whole parse
  // ---------------------------------------------------------------------

  predicate IsLittleEndian(tiff: seq<byte>) {
    ByteAt(tiff, 0) == 0x49 && ByteAt(tiff, 1) == 0x49
  }

  /** Only the four letters "Exif" are checked; the two bytes after them are not. */
  predicate HasExifSignature(segment: seq<byte>) {
    ByteAt(segment, 0) == 0x45 && ByteAt(segment, 1) == 0x78 &&
    ByteAt(segment, 2) == 0x69 && ByteAt(segment, 3) == 0x66
  }

  /** The JPEG marker scan from `offset`: it stops with nothing at the end
      of the data or at a byte that is not a marker's 0xFF. */
  function ExifSegmentFrom(data: seq<byte>, offset: int): Option<seq<byte>>
    decreases |data| - offset, 1
  {
    if offset >= |data| - 1 || ByteAt(data, offset) != 0xFF then None
    else ExifSegmentAt(data, offset)
  }

  /** The scan at the marker at `offset`: the first APP1 (0xE1) payload
      carrying the signature is the result, minus its first 6 bytes; EOI
      (0xD9) ends the scan; anything else is jumped over by `2 + length`. */
  function ExifSegmentAt(data: seq<byte>, offset: int): Option<seq<byte>>
    requires offset < |data| - 1
    decreases |data| - offset, 0
  {
    var marker := ByteAt(data, offset + 1);
    var length := ReadUint16(data, offset + 2, false);
    var segment := Slice(data, offset + 4, offset + 2 + length);
    if marker == 0xE1 && HasExifSignature(segment) then Some(Slice(segment, 6, |segment|))
    else if marker == 0xD9 then None
    else ExifSegmentFrom(data, offset + 2 + length)
  }

  /** The TIFF blob: byte order from its first two bytes, used for every
      read; the first directory's offset at bytes 4-7. */
  function TiffMetadata(tiff: seq<byte>): Option<ExifData> {
    var littleEndian := IsLittleEndian(tiff);
    IfdChain(tiff, ReadUint32(tiff, 4, littleEndian), littleEndian, {}, EmptyExif)
  }

  predicate IsJpeg(buffer: seq<byte>) {
    ByteAt(buffer, 0) == 0xFF && ByteAt(buffer, 1) == 0xD8
  }

  /** The metadata of a whole file: absent unless it starts with SOI and
      holds an Exif segment. */
  function Metadata(buffer: seq<byte>): (r: Option<ExifData>)
    ensures !IsJpeg(buffer) ==> r == None
    ensures ExifSegmentFrom(buffer, 2) == None ==> r == None
  {
    if !IsJpeg(buffer) then None
    else match ExifSegmentFrom(buffer, 2)
      case None => None
      case Some(tiff) => TiffMetadata(tiff)
  }

  /** An APP1 segment: marker, big-endian length (counting its own two
      bytes), then the payload. */
  function Segment(marker: byte, payload: seq<byte>): (seg: seq<byte>)
    requires 2 + |payload| < 0x1_0000
    ensures |seg| == 4 + |payload|
  {
    [0xFF, marker] + Encode16(2 + |payload|, false) + payload
  }

  /** The scan reads a segment's marker, length and payload back from where
      `Segment` put them. */
  lemma SegmentFields(pre: seq<byte>, marker: byte, payload: seq<byte>, post: seq<byte>)
    requires 2 + |payload| < 0x1_0000
    ensures var data := pre + Segment(marker, payload) + post;
      && ByteAt(data, |pre|) == 0xFF
      && ByteAt(data, |pre| + 1) == marker
      && ReadUint16(data, |pre| + 2, false) == 2 + |payload|
      && Slice(data, |pre| + 4, |pre| + 2 + (2 + |payload|)) == payload
  {
    var data := pre + Segment(marker, payload) + post;
    var e := Encode16(2 + |payload|, false);
    assert data == (pre + [0xFF, marker]) + e + (payload + post);
    ReadUint16Encode16(pre + [0xFF, marker], 2 + |payload|, payload + post, false);
    SliceInBounds(data, |pre| + 4, |pre| + 4 + |payload|);
    assert data[|pre| + 4..|pre| + 4 + |payload|] == payload;
  }

  /** The scan at a marker whose segment is an Exif APP1 returns its
      payload after the first 6 bytes. */
  lemma ScanFound(data: seq<byte>, offset: nat, segment: seq<byte>)
    requires offset < |data| - 1 && data[offset] == 0xFF && data[offset + 1] == 0xE1
    requires segment == Slice(data, offset + 4, offset + 2 + ReadUint16(data, offset + 2, false))
    requires HasExifSignature(segment)
    ensures ExifSegmentFrom(data, offset) == Some(Slice(segment, 6, |segment|))
  {
  }

  /** The scan stops with nothing at the end of the data or at a byte that
      is not a marker's 0xFF. */
  lemma ScanStops(data: seq<byte>, offset: nat)
    requires offset < |data| - 1 ==> data[offset] != 0xFF
    ensures ExifSegmentFrom(data, offset) == None
  {
  }

  /** The scan at EOI ends with nothing. */
  lemma ScanEnd(data: seq<byte>, offset: nat)
    requires offset < |data| - 1 && data[offset] == 0xFF && data[offset + 1] == 0xD9
    ensures ExifSegmentFrom(data, offset) == None
  {
  }

  /** The scan at any other marker goes on `2 + length` bytes later. */
  lemma ScanSkip(data: seq<byte>, offset: nat, length: int)
    requires offset < |data| - 1 && data[offset] == 0xFF && data[offset + 1] != 0xD9
    requires length == ReadUint16(data, offset + 2, false)
    requires data[offset + 1] == 0xE1 ==> !HasExifSignature(Slice(data, offset + 4, offset + 2 + length))
    ensures ExifSegmentFrom(data, offset) == ExifSegmentFrom(data, offset + 2 + length)
  {
  }

  /** One step of the scan over a segment that is neither EOI nor an Exif
      APP1, stated on the bytes as `ByteAt` reads them. */
  lemma ScanStep(data: seq<byte>, offset: int, segment: seq<byte>)
    requires offset < |data| - 1 && ByteAt(data, offset) == 0xFF && ByteAt(data, offset + 1) != 0xD9
    requires segment == Slice(data, offset + 4, offset + 2 + ReadUint16(data, offset + 2, false))
    requires !(ByteAt(data, offset + 1) == 0xE1 && HasExifSignature(segment))
    ensures ExifSegmentFrom(data, offset) == ExifSegmentFrom(data, offset + 2 + ReadUint16(data, offset + 2, false))
  {
  }

  /** A segment that is not an Exif APP1 (any other marker but EOI, or an
      APP1 such as XMP without the signature) is jumped over. */
  lemma SkipsOtherSegment(pre: seq<byte>, marker: byte, payload: seq<byte>, post: seq<byte>)
    requires 2 + |payload| < 0x1_0000
    requires marker != 0xD9 && !(marker == 0xE1 && HasExifSignature(payload))
    ensures var data := pre + Segment(marker, payload) + post;
      ExifSegmentFrom(data, |pre|) == ExifSegmentFrom(data, |pre| + 4 + |payload|)
  {
    var data := pre + Segment(marker, payload) + post;
    SegmentFields(pre, marker, payload, post);
    ScanStep(data, |pre|, payload);
  }

  /** Round trip: in a JPEG whose first segment is an Exif APP1 carrying
      `tiff` (after "Exif" and any two bytes), the scan finds exactly `tiff`,
      and the metadata is that of `tiff`. */
  lemma ExifSegmentRoundTrip(x: byte, y: byte, tiff: seq<byte>, post: seq<byte>)
    requires 8 + |tiff| < 0x1_0000
    ensures var data := [0xFF, 0xD8] + Segment(0xE1, [0x45, 0x78, 0x69, 0x66, x, y] + tiff) + post;
      && ExifSegmentFrom(data, 2) == Some(tiff)
      && Metadata(data) == TiffMetadata(tiff)
  {
    var payload := [0x45, 0x78, 0x69, 0x66, x, y] + tiff;
    SegmentFields([0xFF, 0xD8], 0xE1, payload, post);
    SliceInBounds(payload, 6, |payload|);
    assert payload[6..] == tiff;
  }

  /** Nothing after EOI is looked at. */
  lemma StopsAtEndOfImage(pre: seq<byte>, post: seq<byte>)
    ensures ExifSegmentFrom(pre + [0xFF, 0xD9] + post, |pre|) == None
  {
    var data := pre + [0xFF, 0xD9] + post;
    assert ByteAt(data, |pre|) == 0xFF && ByteAt(data, |pre| + 1) == 0xD9;
  }

  // ---------------------------------------------------------------------
  // The source's procedures
  // ---------------------------------------------------------------------

  /** `parseExifData`. */
  method ParseExifData(buffer: seq<byte>) returns (r: Option<ExifData>)
    ensures r == Metadata(buffer)
  {
    if ByteAt(buffer, 0) != 0xFF || ByteAt(buffer, 1) != 0xD8 {
      return None;
    }
    var segment := FindExifSegment(buffer);
    if segment.None? {
      return None;
    }
    r := ParseExifSegment(segment.value);
  }

  /** `findExifSegment`. */
  method FindExifSegment(data: seq<byte>) returns (r: Option<seq<byte>>)
    ensures r == ExifSegmentFrom(data, 2)
  {
    ghost var goal := ExifSegmentFrom(data, 2);
    var offset := 2;
    while offset < |data| - 1
      invariant offset >= 2
      invariant ExifSegmentFrom(data, offset) == goal
      decreases |data| - offset
    {
      var done, found, next := ReadMarker(data, offset);
      if done {
        return found;
      }
      offset := next;
    }
    ScanStops(data, offset);
    return None;
  }

  /** One pass of the loop of `findExifSegment` at the marker at `offset`:
      either the scan ends here with `found`, or it goes on at `next`. */
  method ReadMarker(data: seq<byte>, offset: nat) returns (done: bool, found: Option<seq<byte>>, next: nat)
    requires offset < |data| - 1
    ensures done ==> found == ExifSegmentFrom(data, offset)
    ensures !done ==> offset < next && ExifSegmentFrom(data, next) == ExifSegmentFrom(data, offset)
  {
    if data[offset] != 0xFF {
      ScanStops(data, offset);
      return true, None, offset;
    }
    var marker := data[offset + 1];
    // the source reads the length in both branches below; it is the same value
    var length := ReadUint16(data, offset + 2, false);
    if marker == 0xE1 {
      found := ExifPayload(data, offset, length);
      if found.Some? {
        return true, found, offset;
      }
    }
    if marker == 0xD9 {
      ScanEnd(data, offset);
      return true, None, offset;
    }
    if marker != 0xE1 {
      ScanSkip(data, offset, length);
    }
    return false, None, offset + 2 + length;
  }

  /** The APP1 segment at `offset`, of `length` bytes: its payload after
      the first 6 bytes when it carries the signature. */
  method ExifPayload(data: seq<byte>, offset: nat, length: int) returns (found: Option<seq<byte>>)
    requires offset < |data| - 1 && data[offset] == 0xFF && data[offset + 1] == 0xE1
    requires length == ReadUint16(data, offset + 2, false)
    ensures found.Some? ==> found == ExifSegmentFrom(data, offset)
    ensures found.None? ==> ExifSegmentFrom(data, offset) == ExifSegmentFrom(data, offset + 2 + length)
  {
    var segmentData := Slice(data, offset + 4, offset + 2 + length);
    if HasExifSignature(segmentData) {
      ScanFound(data, offset, segmentData);
      return Some(Slice(segmentData, 6, |segmentData|));
    }
    ScanSkip(data, offset, length);
    return None;
  }

  /** `parseExifSegment`. */
  method ParseExifSegment(data: seq<byte>) returns (r: Option<ExifData>)
    ensures r == TiffMetadata(data)
  {
    var isLittleEndian := ByteAt(data, 0) == 0x49 && ByteAt(data, 1) == 0x49;
    var ifdOffset := ReadUint32(data, 4, isLittleEndian);
    r := ParseIfd(data, ifdOffset, isLittleEndian, {}, EmptyExif);
  }

  /** `parseIFD`: the entries in order, then the next directory. `visited`
      holds the directories walked before this one. */
  method ParseIfd(data: seq<byte>, offset: int, isLittleEndian: bool, visited: set<int>, exifData: ExifData)
    returns (r: Option<ExifData>)
    requires offset !in visited
    ensures r == IfdChain(data, offset, isLittleEndian, visited, exifData)
    decreases Unvisited(|data|, visited)
  {
    var entryCount := ReadUint16(data, offset, isLittleEndian);
    var entryOffset := offset + 2;
    var acc := exifData;
    var i := 0;
    while i < entryCount
      invariant 0 <= i <= entryCount
      invariant entryOffset == offset + 2 + 12 * i
      invariant acc == IfdEntriesUpTo(data, offset, isLittleEndian, i, exifData)
    {
      var tag := ReadUint16(data, entryOffset, isLittleEndian);
      var fieldType := ReadUint16(data, entryOffset + 2, isLittleEndian);
      var count := ReadUint32(data, entryOffset + 4, isLittleEndian);
      var valueOffset := ReadUint32(data, entryOffset + 8, isLittleEndian);
      IfdEntriesStep(data, offset, isLittleEndian, i, entryOffset, Entry(tag, fieldType, count, valueOffset), exifData);
      acc := ParseExifTag(data, tag, fieldType, count, valueOffset, isLittleEndian, acc);
      entryOffset := entryOffset + 12;
      i := i + 1;
    }
    var nextIfdOffset := ReadUint32(data, entryOffset, isLittleEndian);
    assert i == EntryCount(data, offset, isLittleEndian);
    NextIfdField(data, offset, isLittleEndian, entryOffset);
    if nextIfdOffset == 0 {
      return Some(acc);
    }
    if nextIfdOffset in visited + {offset} {
      // the source recurses on this cycle until the stack overflows
      return None;
    }
    if !(-5 <= offset < |data|) {
      FarIfdEndsChain(data, offset, isLittleEndian);
    }
    assert offset !in Unvisited(|data|, visited + {offset});
    r := ParseIfd(data, nextIfdOffset, isLittleEndian, visited + {offset}, acc);
  }

  /** `parseExifTag`: the two sub-directory pointers run their walks; every
      other tag is a single update of the record. */
  method ParseExifTag(data: seq<byte>, tag: int, fieldType: int, count: int, valueOffset: int,
                      isLittleEndian: bool, exifData: ExifData) returns (r: ExifData)
    ensures r == TagUpdate(data, Entry(tag, fieldType, count, valueOffset), isLittleEndian, exifData)
  {
    match PrimaryTagOf(tag)
    case ExifIfdPointer =>
      r := ParseExifSubIfd(data, valueOffset, isLittleEndian, exifData);
    case GpsIfdPointer =>
      r := ParseGpsIfd(data, valueOffset, isLittleEndian, exifData);
    case _ =>
      r := TagUpdate(data, Entry(tag, fieldType, count, valueOffset), isLittleEndian, exifData);
  }

  /** `parseExifSubIFD`: every entry first creates `settings` if absent. */
  method ParseExifSubIfd(data: seq<byte>, offset: int, isLittleEndian: bool, exifData: ExifData)
    returns (r: ExifData)
    ensures r == ExifSubIfd(data, offset, isLittleEndian, exifData)
  {
    var entryCount := ReadUint16(data, offset, isLittleEndian);
    var entryOffset := offset + 2;
    r := exifData;
    var i := 0;
    while i < entryCount
      invariant 0 <= i <= entryCount
      invariant entryOffset == offset + 2 + 12 * i
      invariant r == ExifEntriesUpTo(data, offset, isLittleEndian, i, exifData)
    {
      var tag := ReadUint16(data, entryOffset, isLittleEndian);
      var fieldType := ReadUint16(data, entryOffset + 2, isLittleEndian);
      var count := ReadUint32(data, entryOffset + 4, isLittleEndian);
      var valueOffset := ReadUint32(data, entryOffset + 8, isLittleEndian);
      EntryFields(data, offset, i, isLittleEndian, entryOffset);
      var settings := if r.settings.None? then NoSettings else r.settings.value;
      settings := ExifTagUpdate(data, Entry(tag, fieldType, count, valueOffset), isLittleEndian, settings);
      r := r.(settings := Some(settings));
      entryOffset := entryOffset + 12;
      i := i + 1;
    }
  }

  /** `parseGpsIFD`: the entries fill a local `gpsData`, which then decides `gps`. */
  method ParseGpsIfd(data: seq<byte>, offset: int, isLittleEndian: bool, exifData: ExifData)
    returns (r: ExifData)
    ensures r == GpsIfd(data, offset, isLittleEndian, exifData)
  {
    var entryCount := ReadUint16(data, offset, isLittleEndian);
    var entryOffset := offset + 2;
    var gpsData := NoGpsFields;
    var i := 0;
    while i < entryCount
      invariant 0 <= i <= entryCount
      invariant entryOffset == offset + 2 + 12 * i
      invariant gpsData == GpsEntriesUpTo(data, offset, isLittleEndian, i)
    {
      var tag := ReadUint16(data, entryOffset, isLittleEndian);
      var fieldType := ReadUint16(data, entryOffset + 2, isLittleEndian);
      var count := ReadUint32(data, entryOffset + 4, isLittleEndian);
      var valueOffset := ReadUint32(data, entryOffset + 8, isLittleEndian);
      GpsEntriesStep(data, offset, isLittleEndian, i, entryOffset, Entry(tag, fieldType, count, valueOffset));
      gpsData := GpsTagUpdate(data, Entry(tag, fieldType, count, valueOffset), isLittleEndian, gpsData);
      entryOffset := entryOffset + 12;
      i := i + 1;
    }
    r := GpsConclude(gpsData, exifData);
  }
}
