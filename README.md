# Photo gallery core: EXIF reader, image probe and photo queries

This project models the core of a photo gallery service that runs as a
serverless worker. The core has three parts.

- **The EXIF reader** (`Exif`). It checks a JPEG start-of-image marker and
  scans the marker segments for the first APP1 segment that carries "Exif".
  It then walks the TIFF structure inside it (section 2 of TIFF 6.0): the
  byte order, the primary image file directory (IFD) and the directories
  chained after it, and the Exif and GPS sub-directories. Camera, date,
  dimensions, exposure settings and GPS position are folded into one
  metadata record.
- **The image probe** (`ImageProbe`). It classifies a buffer by magic bytes
  in a fixed priority order. It reads the pixel size from a JPEG frame
  header (section B.2.2 of ITU-T T.81), a PNG IHDR chunk (section 11.2.2
  of the W3C PNG specification) or a WebP VP8 frame header (section 9.1 of
  RFC 6386). It also covers the thumbnail size without rounding and the
  file-extension check.
- **The photo queries** (`Photos`). Each query takes the manifest's photo
  list as input. They filter by tag and search term, cut the result into
  pages, look a photo up by id, and compute library statistics. The
  statistics are counts and the per-camera, per-lens and per-tag rankings.

Supporting modules:

- `Bytes` holds the endian-aware readers.
- `Js` holds the JavaScript built-ins whose exact behaviour matters: the
  signed result of `<<`, the clamping of `slice`, `toLowerCase` and
  `includes`.
- `TiffWriter` writes what the readers read. It is the inverse used by the
  round-trip lemmas.
- `InlineValues` holds the first finding below.

A JavaScript read past the end of a `Uint8Array` gives `undefined`, and the
bitwise operators turn that into 0. So every byte read here (`ByteAt`) is
0 outside the buffer, including at negative offsets. A 32-bit read
combines its bytes with `<< 24`, so it yields the signed 32-bit value, and
offsets read from the file can be negative.

The source's loops are methods. Each is proved equal to a specification
function:

- `FindExifSegment` and `GetJpegDimensions` (marker scans);
- `ParseIfd`, `ParseExifSubIfd` and `ParseGpsIfd` (entry walks);
- `GetStats` and `CountTags` (the tally loop).

The properties are proved about those functions. The metadata record that
the source mutates in place is an immutable `ExifData` value. Each method
takes it and returns the updated record.

## Behaviour as coded

The model follows the code where the code differs from the intended design.

- `findExifSegment` checks only the four letters "Exif", not the two NUL
  bytes after them.
- The JPEG dimension scan has no end-of-image check. Only the EXIF scan
  stops at EOI (0xD9).
- The next-IFD chain has no cycle guard. The source recurses until the
  stack overflows. `parseExifSegment` catches that error, so the whole
  parse yields null. The model keeps a set of visited directories and
  yields None on a revisit, which has the same result.
- `readString` removes every NUL byte, not only the trailing ones.
- A 0xA405 (35 mm focal length) entry does not take precedence over a
  0x920A (focal length) entry. The two share one field, and the later
  entry wins, except that a zero 35 mm value is ignored.
- Format detection reads no more than the first 12 bytes
  (`DetectLooksAtTwelveBytes`). JPEG, BMP and TIFF are recognised from
  the first two bytes alone, GIF needs three, PNG four, and WebP and HEIC
  look at bytes 4-11. So buffers shorter than 12 bytes are not all
  "unknown".
- The VP8L branch combines bytes 21-23 most significant byte first, and
  it can never be reached (see `WebpDimensionsShape`).
- A read out of range yields 0 rather than an error. So the per-tag
  `try`/`catch` in `parseExifTag` never fires in the model.

## Model

| member | source | states |
|---|---|---|
| Bytes.ByteAt | src/utils/exif-parser.ts:328 | an index inside the buffer reads that byte, any other index (negative or past the end) reads 0 |
| Bytes.ReadUint16 | src/utils/exif-parser.ts:326-332 | a 16-bit read is in [0, 65536) whatever the offset |
| Bytes.Unsigned32 | src/utils/exif-parser.ts:337-342 | the four bytes as an unsigned number, in [0, 2^32) |
| Bytes.ReadUint32 | src/utils/exif-parser.ts:337-342 | a 32-bit read is in the signed range [-2^31, 2^31) |
| Bytes.ReadUint32Sign | src/utils/exif-parser.ts:337-342 | the read equals the unsigned value or that value minus 2^32, and is negative exactly when the top bit of the most significant byte (by byte order) is set |
| Bytes.ReadUint16Encode16 | src/utils/exif-parser.ts:326-332 | round trip: a 16-bit value written in either byte order anywhere in a buffer reads back unchanged |
| Bytes.ReadUint32Encode32 | src/utils/exif-parser.ts:337-342 | round trip: a 32-bit value written in either byte order reads back as itself unsigned and as its signed reading through `ReadUint32` |
| Bytes.ReadUint16Swap | src/utils/exif-parser.ts:326-332 | the little-endian read is the big-endian read of the two bytes swapped |
| Js.ToInt32 | src/utils/exif-parser.ts:339-341 | the result of the bitwise operators is in the signed range, differs from the unsigned value by 0 or 2^32, and is non-negative exactly when the value is below 2^31 |
| Js.SliceBound | src/utils/exif-parser.ts:71 | a `slice` bound lands in [0, n] and is unchanged when already there |
| Js.Slice | src/utils/exif-parser.ts:71 | `slice` never yields more elements than it is given |
| Js.SliceInBounds | src/utils/exif-parser.ts:319 | inside bounds `slice` is the subsequence; an end past the length is clamped; an end at or before a non-negative start gives nothing |
| Js.LowerChar | src/services/photo-service.ts:34 | upper-case ASCII letters map to their lower-case letters, every other character is unchanged |
| Js.Lower | src/services/photo-service.ts:34 | lower-casing keeps the length and maps each character by `LowerChar` |
| Js.LowerIdempotent | src/services/photo-service.ts:40 | lower-casing twice is lower-casing once |
| Js.LowerAppend | src/utils/image-processing.ts:267 | lower-casing distributes over concatenation |
| Js.IncludesIffOccurs | src/services/photo-service.ts:34 | `includes` holds exactly when some window of the string equals the query, in both directions |
| Js.IncludesEmpty | src/services/photo-service.ts:42-46 | the empty string is included in every string |
| Exif.ReadRationalEncode | src/utils/exif-parser.ts:308-313 | round trip: numerator and denominator written in either byte order read back as their quotient, and a zero denominator reads back as 0 |
| Exif.DropNulShape | src/utils/exif-parser.ts:320 | removing NULs never lengthens and leaves no NUL character behind |
| Exif.DropNulRangeIsDropNul | src/utils/exif-parser.ts:318-321 | decoding the bytes in place equals decoding the cut-out subsequence |
| Exif.ReadStringIsSlice | src/utils/exif-parser.ts:318-321 | `readString` is `slice` of `count` bytes from the offset, then decoding with every NUL removed |
| Exif.DropNulAppend | src/utils/exif-parser.ts:320 | removing NULs distributes over concatenation |
| Exif.DropNulLatin1 | src/utils/exif-parser.ts:320 | the one-byte encoding of a NUL-free string decodes back to it |
| Exif.ReadStringRoundTrip | src/utils/exif-parser.ts:318-321 | round trip: a NUL-free ASCII string stored with its NUL terminator anywhere in the blob reads back as itself |
| Exif.EntryFields | src/utils/exif-parser.ts:118-122 | entry `i` of the directory at `o` is the tag, type, count and value field read at `o + 2 + 12*i` |
| Exif.EntryCount | src/utils/exif-parser.ts:115 | a directory holds fewer than 65536 entries |
| Exif.NextIfdField | src/utils/exif-parser.ts:130 | the next-directory pointer is the 32-bit field at `o + 2 + 12*count`, right after the last entry |
| Exif.ShutterSpeed | src/utils/exif-parser.ts:215-222 | an exposure time `t` of at least one second is rendered as `t` seconds, a shorter non-zero one as the reciprocal `1/round(1/t)`, and a zero time as "1/Infinity" |
| Exif.ExifTagUpdateFrame | src/utils/exif-parser.ts:205-235 | each Exif sub-directory tag writes only its own setting, ISO, f-number, exposure time and focal length take the value read at the offset, and an unknown tag changes nothing |
| Exif.FocalLength35Override | src/utils/exif-parser.ts:229-234 | a zero 35 mm focal length leaves the settings unchanged; a non-zero one replaces the focal length |
| Exif.ExifEntriesFrame | src/utils/exif-parser.ts:197-203 | the sub-directory walk changes only `settings`, which exists afterwards exactly when it existed before or the walk saw an entry |
| Exif.SettingStep | src/utils/exif-parser.ts:205-235 | one entry, setting by setting: a setting the entry writes takes the entry's value, every other setting is kept |
| Exif.LastWriteWins | src/utils/exif-parser.ts:197-235 | later entries win, for each of ISO, f-number, exposure time and focal length: after the last entry among the first `k` that writes the setting, the setting holds that entry's value |
| Exif.FocalLengthLastWriteWins | src/utils/exif-parser.ts:225-234 | the focal length is that of the last FocalLength (0x920A) or non-zero FocalLengthIn35mmFilm (0xA405) entry, as a rational or as a 35 mm equivalent according to which tag it is |
| Exif.GpsConclude | src/utils/exif-parser.ts:282-291 | `gps` changes only when latitude and longitude are both non-zero; the latitude is negated exactly when its reference is "S" and the longitude exactly when it is "W"; the altitude is kept exactly when non-zero; nothing else changes |
| Exif.GpsEntriesStep | src/utils/exif-parser.ts:250-279 | the GPS entry read at `o + 2 + 12*i` extends the fold of the first `i` entries by one |
| Exif.IfdEntriesStep | src/utils/exif-parser.ts:118-127 | the entry read at `o + 2 + 12*i` extends the fold of the first `i` entries by one |
| Exif.FarIfdEndsChain | src/utils/exif-parser.ts:130-133 | a directory outside [-5, length) has no entries and a zero next pointer, so the chain can only continue inside that window |
| Exif.TagUpdateIgnoresFieldType | src/utils/exif-parser.ts:120-124 | the field type of an entry is read but never changes the result |
| Exif.TagUpdateFrame | src/utils/exif-parser.ts:149-184 | each primary tag changes only its own part of the record, `lens` is never set, and an unknown tag changes nothing |
| Exif.CameraFromMakeAndModel | src/utils/exif-parser.ts:150-161 | Make then Model gives "make model", or the model alone when the make is empty; Model with no camera before it gives the model |
| Exif.DimensionsOneSideAtATime | src/utils/exif-parser.ts:167-175 | width and height each set only their own side, read as a 32-bit value at the offset, and start from 0 when there were no dimensions |
| Exif.IfdEntriesKeepLens | src/utils/exif-parser.ts:118-127 | walking the entries of a directory never changes `lens` |
| Exif.IfdChainKeepsLens | src/utils/exif-parser.ts:114-134 | the whole chain of directories never changes `lens` |
| Exif.LastDirectory | src/utils/exif-parser.ts:130-133 | a zero next pointer ends the chain with the directory's own entries applied |
| Exif.CyclicChainIsNull | src/utils/exif-parser.ts:130-133 | a directory pointing to itself, or two pointing to each other, make the whole parse null, as the caught stack overflow does |
| Exif.Metadata | src/utils/exif-parser.ts:39-47 | no metadata without the FF D8 start, and none without an Exif segment |
| Exif.SegmentFields | src/utils/exif-parser.ts:66-71 | the scan reads a segment's marker, its big-endian length and its payload back from where they were written |
| Exif.ScanFound | src/utils/exif-parser.ts:69-77 | at an APP1 marker whose payload starts with "Exif", the scan yields the payload minus its first 6 bytes |
| Exif.ScanStops | src/utils/exif-parser.ts:63-64 | the scan yields nothing at the end of the data or at a byte other than 0xFF |
| Exif.ScanEnd | src/utils/exif-parser.ts:81 | the scan yields nothing at EOI |
| Exif.ScanSkip | src/utils/exif-parser.ts:80-83 | at any other marker the scan continues `2 + length` bytes on |
| Exif.ScanStep | src/utils/exif-parser.ts:63-83 | one step of the scan over a segment that is neither EOI nor an Exif APP1 |
| Exif.SkipsOtherSegment | src/utils/exif-parser.ts:63-83 | a segment that is not an Exif APP1 (another marker, or an APP1 such as XMP without the signature) is jumped over whole |
| Exif.ExifSegmentRoundTrip | src/utils/exif-parser.ts:60-87 | round trip: in a JPEG whose first segment is an Exif APP1 carrying a TIFF blob after any two signature bytes, the scan finds exactly that blob, and the metadata is that of the blob |
| Exif.StopsAtEndOfImage | src/utils/exif-parser.ts:81 | nothing after EOI is looked at |
| Exif.ParseExifData | src/utils/exif-parser.ts:34-55 | computes `Metadata`: the start check, the segment scan, then the TIFF walk |
| Exif.FindExifSegment | src/utils/exif-parser.ts:60-87 | the loop from offset 2 computes the scan `ExifSegmentFrom(data, 2)` |
| Exif.ReadMarker | src/utils/exif-parser.ts:64-83 | one pass of the scan loop either ends the scan with its result or moves strictly forward to an offset with the same scan result |
| Exif.ExifPayload | src/utils/exif-parser.ts:69-78 | an APP1 segment with the signature is the scan's result; one without it is skipped |
| Exif.ReadRational | src/utils/exif-parser.ts:308-313 | defined by its body; meaning stated by `ReadRationalEncode` and `TiffWriter.WholeRationalAt`: a written numerator and denominator read back as their quotient, a zero denominator as 0 |
| Exif.ReadGpsCoordinate | src/utils/exif-parser.ts:297-303 | defined by its body; meaning stated by `TiffWriter.GpsCoordinateRoundTrip`: whole degrees, minutes and seconds read back as degrees + minutes/60 + seconds/3600 |
| Exif.ReadString | src/utils/exif-parser.ts:318-321 | defined by its body; meaning stated by `ReadStringIsSlice` (a clamped slice with every NUL removed) and `ReadStringRoundTrip` (a stored ASCII string reads back) |
| Exif.ExifTagUpdate | src/utils/exif-parser.ts:205-235 | defined by its body; meaning stated by `ExifTagUpdateFrame`, `FocalLength35Override` and `SettingStep`: each tag writes only its own setting, with the value read at the offset |
| Exif.ExifSubIfd | src/utils/exif-parser.ts:193-239 | defined by its body; meaning stated by `ExifEntriesFrame` (only `settings` changes) and `LastWriteWins` (the last entry writing a setting decides it) |
| Exif.GpsTagUpdate | src/utils/exif-parser.ts:256-276 | defined by its body; meaning stated by `GpsTagUpdateFrame` |
| Exif.GpsTagUpdateFrame | src/utils/exif-parser.ts:256-276 | each GPS tag (0x0001-0x0004, 0x0006) sets only its own field, to the string, coordinate or rational read at the value offset; any other tag changes nothing |
| Exif.GpsIfd | src/utils/exif-parser.ts:244-292 | defined by its body; meaning stated by `GpsEntriesStep` (the entry walk) and `GpsConclude` (when and how `gps` is set) |
| Exif.TagUpdate | src/utils/exif-parser.ts:149-184 | defined by its body; meaning stated by `TagUpdateFrame`, `CameraFromMakeAndModel`, `DimensionsOneSideAtATime` and `TagUpdateIgnoresFieldType` |
| Exif.IfdChain | src/utils/exif-parser.ts:114-134 | defined by its body; meaning stated by `LastDirectory`, `CyclicChainIsNull`, `FarIfdEndsChain`, `IfdChainKeepsLens` and `TiffWriter.IfdRoundTrip` |
| Exif.ExifSegmentFrom | src/utils/exif-parser.ts:60-87 | defined by its body; meaning stated by `ScanFound`, `ScanStops`, `ScanEnd`, `ScanSkip`, `SkipsOtherSegment` and `ExifSegmentRoundTrip` |
| Exif.TiffMetadata | src/utils/exif-parser.ts:92-109 | defined by its body; meaning stated by `TiffWriter.TiffHeaderRoundTrip`, `TiffWriter.BigEndianUnlessII` and `TiffWriter.CameraTiffRoundTrip` |
| Exif.ParseExifSegment | src/utils/exif-parser.ts:92-109 | computes `TiffMetadata`; what that means for a written header is stated by `TiffWriter.TiffHeaderRoundTrip`, `TiffWriter.BigEndianUnlessII` and `TiffWriter.CameraTiffRoundTrip` |
| Exif.ParseIfd | src/utils/exif-parser.ts:114-134 | the entry loop and the recursion on the next pointer compute `IfdChain` |
| Exif.ParseExifTag | src/utils/exif-parser.ts:139-188 | dispatching one primary entry computes `TagUpdate` |
| Exif.ParseExifSubIfd | src/utils/exif-parser.ts:193-239 | the entry loop computes `ExifSubIfd`, creating `settings` before each entry |
| Exif.ParseGpsIfd | src/utils/exif-parser.ts:244-292 | the entry loop fills the local GPS fields, then `GpsConclude` decides `gps` |
| TiffWriter.ToUint32 | src/utils/exif-parser.ts:337-342 | every signed 32-bit number has a bit pattern in [0, 2^32) that `ToInt32` reads back as it |
| TiffWriter.EncodeEntry | src/utils/exif-parser.ts:118-122 | an entry takes 12 bytes |
| TiffWriter.ReadEntryEncode | src/utils/exif-parser.ts:119-122 | round trip: an entry written anywhere is read back whole |
| TiffWriter.EncodeEntries | src/utils/exif-parser.ts:118-127 | `n` entries take `12*n` bytes |
| TiffWriter.EncodeEntriesAppend | src/utils/exif-parser.ts:118-127 | the layout of entries distributes over concatenation |
| TiffWriter.EncodeEntriesSplit | src/utils/exif-parser.ts:118-127 | entry `i` sits right after the `i` entries before it |
| TiffWriter.EncodeIfd | src/utils/exif-parser.ts:114-134 | a directory takes 2 + 12*count + 4 bytes |
| TiffWriter.IfdRoundTrip | src/utils/exif-parser.ts:114-134 | round trip: the walk reads back the entry count, every entry and the next pointer that were written |
| TiffWriter.IfdCountRoundTrip | src/utils/exif-parser.ts:115 | round trip for the entry count |
| TiffWriter.IfdNextRoundTrip | src/utils/exif-parser.ts:130 | round trip for the next pointer |
| TiffWriter.EntryRoundTrip | src/utils/exif-parser.ts:118-126 | round trip for entry `i` of a written directory |
| TiffWriter.EntryAtOffset | src/utils/exif-parser.ts:116-126 | entry `i` is the entry read at `o + 2 + 12*i` |
| TiffWriter.EncodeRational | src/utils/exif-parser.ts:308-313 | a rational takes 8 bytes |
| TiffWriter.WholeRationalAt | src/utils/exif-parser.ts:308-313 | a whole number written over a denominator of 1 reads back as itself |
| TiffWriter.GpsCoordinateRoundTrip | src/utils/exif-parser.ts:297-303 | whole degrees, minutes and seconds read back as degrees + minutes/60 + seconds/3600 |
| TiffWriter.TiffHeader | src/utils/exif-parser.ts:94-98 | a header is 8 bytes and its first two bytes select little-endian exactly when it is written little-endian |
| TiffWriter.TiffHeaderRoundTrip | src/utils/exif-parser.ts:92-109 | round trip: the parse of a blob behind a written header reads the byte order back and walks the directories from the offset written at bytes 4-7, read as a signed 32-bit number |
| TiffWriter.BigEndianUnlessII | src/utils/exif-parser.ts:94-98 | any first two bytes other than "II" select big-endian, and the magic number 42 is never checked |
| TiffWriter.CameraTiff | src/utils/exif-parser.ts:92-161 | a blob with a header, a directory of Make and Model, and their two strings takes 38 bytes plus the strings and their NULs |
| TiffWriter.CameraTiffDirectory | src/utils/exif-parser.ts:92-134 | that blob parses to the Make entry, then the Model entry, applied to an empty record |
| TiffWriter.CameraTiffStrings | src/utils/exif-parser.ts:150-161 | the two strings after the directory read back as the maker and the model |
| TiffWriter.CameraTiffRoundTrip | src/utils/exif-parser.ts:92-161 | end to end: in either byte order, a blob naming a maker and a model parses to the camera "make model", or to the model alone when the maker is empty |
| TiffWriter.ShutterSpeedRoundTrip | src/utils/exif-parser.ts:215-222 | an exposure written as the rational 1/n (n at least 2) renders as "1/n", and one written as n/1 as n seconds |
| TiffWriter.ReciprocalShutter | src/utils/exif-parser.ts:217-218 | an exposure of 1/n second, n at least 2, renders as the reciprocal n |
| InlineValues.SouthRefEntryFields | src/utils/exif-parser.ts:251-254 | the camera-written GPSLatitudeRef "S" entry reads as tag 1, type 2, count 2, value field 0x53000000 |
| InlineValues.InlineSouthRefLost | src/utils/exif-parser.ts:257-258 | as written: that reference is read at offset 0x53000000 and comes back empty, so a positive latitude stays positive |
| InlineValues.CorrectedGpsTagUpdate | src/utils/exif-parser.ts:256-276 | corrected: defined by its body; meaning stated by `InlineSouthRefHonoured` and `CorrectedAgreesOnLongValues` |
| InlineValues.CorrectedAgreesOnLongValues | src/utils/exif-parser.ts:256-276 | the corrected GPS entry update agrees with the original for every other tag and for references longer than four bytes |
| InlineValues.InlineSouthRefHonoured | src/utils/exif-parser.ts:282-286 | corrected: the same entry yields the reference "S", and the latitude is negated |
| ImageProbe.DetectImageFormat | src/utils/image-processing.ts:211-256 | each format is reported exactly when its signature matches and no earlier format's does (JPEG, PNG, WebP, GIF, BMP, TIFF, HEIC with one of four brands); unknown exactly when none matches |
| ImageProbe.DetectLooksAtTwelveBytes | src/utils/image-processing.ts:211-256 | two buffers that agree on bytes 0-11 are classified alike |
| ImageProbe.ShortBufferUnknown | src/utils/image-processing.ts:211-256 | a buffer shorter than two bytes is unknown |
| ImageProbe.DetectSignature | src/utils/image-processing.ts:211-256 | round trip: a buffer starting with a format's typical 12-byte signature is classified as that format, whatever follows |
| ImageProbe.GetJpegDimensions | src/utils/image-processing.ts:54-75 | the loop from offset 2 computes the SOF scan `JpegSofFrom(data, 2)` |
| ImageProbe.JpegSofRoundTrip | src/utils/image-processing.ts:62-67 | round trip: an SOF0-SOF2 frame header yields the width at 7 and the height at 5 written in it |
| ImageProbe.SegmentHeader | src/utils/image-processing.ts:58-70 | the scan reads a segment's 0xFF, marker and length back from where they were written |
| ImageProbe.JpegSkipsSegment | src/utils/image-processing.ts:69-71 | any other segment, EOI included, is jumped over by its length |
| ImageProbe.JpegScanStep | src/utils/image-processing.ts:57-72 | one step of the SOF scan at a marker outside 0xC0-0xC2 |
| ImageProbe.PngRoundTrip | src/utils/image-processing.ts:80-88 | round trip: an IHDR width and height below 2^31 read back from bytes 16-23 |
| ImageProbe.LosslessSize | src/utils/image-processing.ts:102-108 | the VP8L reading gives sides in [1, 16384] |
| ImageProbe.WebpDimensionsShape | src/utils/image-processing.ts:93-114 | the WebP probe answers exactly for chunks tagged "VP8", with both sides in [1, 16384] and the width from bytes 26-27 plus one, so the VP8L branch is never reached |
| ImageProbe.JpegSofFrom | src/utils/image-processing.ts:54-75 | defined by its body; meaning stated by `JpegSofRoundTrip` (a SOF segment's size reads back) and `JpegSkipsSegment` (any other segment, EOI included, is skipped by its length) |
| ImageProbe.PngDimensions | src/utils/image-processing.ts:80-88 | defined by its body; meaning stated by `PngRoundTrip` |
| ImageProbe.WebpDimensions | src/utils/image-processing.ts:93-114 | defined by its body; meaning stated by `WebpDimensionsShape`, `Vp8SizeFields` and `WebpReportsOneMore` |
| ImageProbe.ImageInfo | src/utils/image-processing.ts:22-49 | defined by its body; meaning stated by `ImageInfoFollowsFormat` (dimensions only for JPEG, PNG and WebP, always for PNG) |
| ImageProbe.IsSupportedImageFormat | src/utils/image-processing.ts:261-269 | defined by its body; meaning stated by `ExtensionDecides`, `BareNameDecides` and `SupportedIgnoresCase` |
| ImageProbe.GetImageInfo | src/utils/image-processing.ts:22-49 | the dispatch computes `ImageInfo` |
| ImageProbe.ImageInfoFollowsFormat | src/utils/image-processing.ts:27-44 | dimensions are reported only for buffers classified JPEG, PNG or WebP, and always for PNG |
| ImageProbe.Vp8SizeFields | src/utils/image-processing.ts:97-98 | the 14-bit fields of a frame header read back the sizes written, whatever the scale bits |
| ImageProbe.ScaleBitsDropped | src/utils/image-processing.ts:97 | masking with 0x3FFF drops the two scale bits |
| ImageProbe.WebpReportsOneMore | src/utils/image-processing.ts:96-100 | as written: a lossy WebP whose frame header says w x h is reported as (w+1) x (h+1) |
| ImageProbe.Vp8FrameSizeRoundTrip | src/utils/image-processing.ts:96-100 | corrected: the RFC 6386 reading gives back exactly the size written |
| ImageProbe.ThumbnailSize | src/utils/image-processing.ts:119-180 | an answer is given exactly in the branches without rounding: no target, or `fill` |
| ImageProbe.ThumbnailFill | src/utils/image-processing.ts:126-135 | with no target the original size is kept; with `fill` each side is its target when given (non-zero) and the original otherwise |
| ImageProbe.AfterLastDot | src/utils/image-processing.ts:267 | the text after the last dot holds no dot and is no longer than the name |
| ImageProbe.AfterLastDotAppend | src/utils/image-processing.ts:267 | for `name.ext` with a dot-free `ext`, the text after the last dot is `ext` |
| ImageProbe.AfterLastDotWhole | src/utils/image-processing.ts:267 | a name with no dot is kept whole |
| ImageProbe.ExtensionDecides | src/utils/image-processing.ts:261-268 | a name is accepted exactly when its last extension, lower-cased, is in the list of ten |
| ImageProbe.BareNameDecides | src/utils/image-processing.ts:261-268 | a name with no dot is tested as a whole |
| ImageProbe.BareExtensionAccepted | src/utils/image-processing.ts:261-268 | "JPG" is accepted and "photo" is not |
| ImageProbe.SupportedIgnoresCase | src/utils/image-processing.ts:267 | the check ignores letter case |
| Photos.Filter | src/services/photo-service.ts:32-36 | `filter` keeps exactly the elements that pass and never lengthens |
| Photos.FilterAppend | src/services/photo-service.ts:32-47 | filtering distributes over concatenation, so order is kept |
| Photos.FilteredMembers | src/services/photo-service.ts:31-48 | a photo survives exactly when it is listed and matches the tag filter and the search filter whenever they are given |
| Photos.FilteredKeepsOrder | src/services/photo-service.ts:31-48 | the filtered list keeps the manifest's order |
| Photos.TagQueryIgnoresCase | src/services/photo-service.ts:34 | a tag query matches regardless of the letter case of the query |
| Photos.TotalPages | src/services/photo-service.ts:62 | the page count is defined exactly when the limit is non-zero |
| Photos.TotalPagesCovers | src/services/photo-service.ts:62 | the page count is the least whole number of pages covering the total: `(pages-1)*limit < total <= pages*limit`, and 0 for no photos |
| Photos.Filtered | src/services/photo-service.ts:31-48 | defined by its body; meaning stated by `FilteredMembers` (both filters, each only when given), `FilteredKeepsOrder` and `TagQueryIgnoresCase` |
| Photos.GetPhoto | src/services/photo-service.ts:67-70 | defined by its body, `FindById` over the manifest's photos; meaning stated by the ensures of `FindById` and by `FindByIdFirst` |
| Photos.GetPhotos | src/services/photo-service.ts:26-65 | `total` is the number of filtered photos, and page and limit are echoed |
| Photos.Window | src/services/photo-service.ts:54 | a window of `limit` items is what is left of the list from its start, at most `limit` items |
| Photos.PageWindow | src/services/photo-service.ts:51-54 | for page and limit of at least 1, the page is the filtered photos from `(page-1)*limit`, cut at the end, at most `limit` long |
| Photos.ItemOfWindow | src/services/photo-service.ts:54 | item `m` of a window is item `start + m` of the list |
| Photos.EveryPhotoOnItsPage | src/services/photo-service.ts:51-54 | the filtered photo at index `i` is item `i % limit` of page `i / limit + 1` |
| Photos.FindById | src/services/photo-service.ts:69 | the photo found is listed and has the id; none is found exactly when no photo has it |
| Photos.FindByIdFirst | src/services/photo-service.ts:69 | the photo found is the first one with the id |
| Photos.Occurrences | src/services/photo-service.ts:84-95 | a value occurs at most as often as the list is long |
| Photos.OccurrencesPositive | src/services/photo-service.ts:86 | a value occurs at least once exactly when it is in the list |
| Photos.Increment | src/services/photo-service.ts:86 | after an increment the key is in the record |
| Photos.IncrementValid | src/services/photo-service.ts:86 | an increment keeps the record well formed: keys listed once, each with a count of at least 1 |
| Photos.TallyOfCounts | src/services/photo-service.ts:84-95 | the record of a list is well formed, its keys are the list's values, and each count is that value's number of occurrences |
| Photos.Entries | src/services/photo-service.ts:110 | `Object.entries` gives one pair per key |
| Photos.InsertByCount | src/services/photo-service.ts:111 | inserting adds one entry |
| Photos.InsertByCountPermutes | src/services/photo-service.ts:111 | inserting adds exactly the new entry to the multiset |
| Photos.InsertByCountMembers | src/services/photo-service.ts:111 | after inserting, the entries are the old ones and the new one |
| Photos.InsertByCountSorted | src/services/photo-service.ts:111 | inserting into a list ordered by count, largest first, keeps it ordered |
| Photos.InsertByCountDistinct | src/services/photo-service.ts:111 | inserting a new name keeps the names distinct |
| Photos.SortByCount | src/services/photo-service.ts:111 | sorting keeps the length |
| Photos.SortByCountPermutes | src/services/photo-service.ts:111 | the sort is a permutation |
| Photos.SortByCountSorted | src/services/photo-service.ts:111 | the sort orders by count, largest first |
| Photos.SortByCountDistinct | src/services/photo-service.ts:111 | the sort keeps distinct names distinct |
| Photos.EntriesOfTally | src/services/photo-service.ts:110 | the entries of a tally are the distinct values, each once, with its number of occurrences |
| Photos.RankedEntries | src/services/photo-service.ts:110-111 | the ranking lists every distinct value once, with its count, largest count first |
| Photos.TopRanked | src/services/photo-service.ts:110-113 | the top `n` has at most `n` entries, ordered by count, each a distinct value with its number of occurrences, and no value left out occurs more often than the last one listed |
| Photos.PrefixOfRanking | src/services/photo-service.ts:112 | a prefix of a ranking is a ranking drawn from it |
| Photos.UnlistedRanksLower | src/services/photo-service.ts:112 | an entry missing from the first `n` of a ranking counts at most the `n`th |
| Photos.KeyIndex | src/services/photo-service.ts:110 | a key has an index in the record's key list |
| Photos.GpsCount | src/services/photo-service.ts:101-103 | the GPS count is at most the number of photos |
| Photos.StatsOf | src/services/photo-service.ts:72-123 | defined by its body; meaning stated by `StatsStep`, `StatsRanked`, `StatsCounters` and `CameraCountIsPhotoCount` |
| Photos.GetStats | src/services/photo-service.ts:72-123 | the loop and the rankings compute `StatsOf` of the manifest's photos |
| Photos.CountTags | src/services/photo-service.ts:93-95 | counting one photo's tags extends the tag record by those tags in order |
| Photos.StatsStep | src/services/photo-service.ts:84-104 | what one more photo adds to the cameras, lenses, tags, size total and GPS count |
| Photos.StatsRanked | src/services/photo-service.ts:106-122 | at most 10 cameras, 10 lenses and 20 tags, each list ordered by count, largest first, each count the number of occurrences |
| Photos.CameraCountIsPhotoCount | src/services/photo-service.ts:85-86 | a camera's count is the number of photos taken with it |
| Photos.OccurrencesAppend | src/services/photo-service.ts:86 | occurrences add up over concatenation |
| Photos.TallyAppend | src/services/photo-service.ts:86 | the record of a list with one more value is the record incremented at that value |
| Photos.StatsCounters | src/services/photo-service.ts:106-109 | `totalPhotos` is the list length, `withGPS` is at most that, and the size total is non-negative when every size is |
| Photos.SizesNonNegative | src/services/photo-service.ts:97-99 | the size total of non-negative sizes is non-negative |

## Left out

- Floating-point formatting is left out: `toFixed`, `Math.round` of the
  shutter reciprocal and the template strings. Settings hold the numbers
  (`real`, or an integer for the 35 mm focal length) rather than their
  rendering. `ShutterSpeed` rounds half up, as `Math.round` does.
- Division by a negative denominator can produce IEEE negative zero and
  infinities. `real` has neither, so a shutter of `1/-Infinity` is not
  distinguished.
- `TextDecoder` UTF-8 decoding is left out. Each byte is one character, so
  multi-byte sequences and replacement characters are not modelled.
- `toLowerCase` is modelled for ASCII letters only.
- The GPS reference and the other inline values have a wider counterpart
  left unmodelled. ISO, ImageWidth/ImageHeight stored as SHORT, and the
  35 mm focal length are also inline values read at the value field's
  offset. The first finding shows the defect on the GPS reference only.
- Stack depth on a long but acyclic directory chain is not modelled. Only
  a cycle turns into a null result.
- `fujifilm` and `lens` are never written by the source; the record carries
  `lens` (proved never set) and omits `fujifilm`.
- Manifest fetching, the async service class and its constructor are left
  out. Each query takes the manifest's `photos` field as an input.
- The Photo fields no query reads are left out: path, dates, hashes,
  thumbnails and the live-photo pair.
- A photo's stored EXIF GPS is reduced to a present/absent flag.
- `Object.entries` lists integer-like keys first, in numeric order. The
  model lists keys in insertion order. Keys that clash with
  `Object.prototype` names are not modelled either.
- Photos.SortByCount: the sort is stable (it inserts each entry after all
  entries of equal count), but stability is not stated as a lemma.
- A `NaN` or non-integer page or limit is not modelled; both are integers.
- ImageProbe.ThumbnailSize: the aspect-ratio branches divide and round
  floating-point numbers and yield None here.
- `generateSimpleBlurhash` is a placeholder that hex-encodes raw bytes and
  is not modelled.
- `console.error` and the `try`/`catch` blocks have no counterpart, since no
  modelled read can fail.
- The `findExifSegment` loop body is split into `ReadMarker` and
  `ExifPayload`. The segment length is read once per pass; the source
  reads the same two bytes twice for APP1 markers.

## Findings

| source | as written | input that shows it | evidently intended | confidence | as-written member | corrected member |
|---|---|---|---|---|---|---|
| src/utils/exif-parser.ts:257-266 | the GPS latitude and longitude references are read with `readString` at `valueOffset`, as if the value field were always an offset | a big-endian GPSLatitudeRef entry `00 01 00 02 00 00 00 02 53 00 00 00` (ASCII, count 2, "S" stored inline as TIFF 6.0 section 2 requires for values of at most 4 bytes): the reference is read at offset 0x53000000 and is empty, so a southern latitude stays positive | values of at most four bytes are read from the value field itself, so the reference is "S" and the latitude is negated | high; not executed | InlineValues.InlineSouthRefLost | InlineValues.InlineSouthRefHonoured |
| src/utils/image-processing.ts:97-98 | the VP8 width and height are the 14-bit fields plus one | a lossy WebP whose frame header (section 9.1 of RFC 6386) holds width 640 and height 480 is reported as 641 x 481 | the 14-bit fields are the sizes themselves; only VP8L stores size minus one | high; not executed | ImageProbe.WebpReportsOneMore | ImageProbe.Vp8FrameSizeRoundTrip |

Both corrected readings are defined next to the source's behaviour. The
walk and the probe (`ParseGpsIfd`, `GetImageInfo`) keep the behaviour as
written, so they still describe what the service returns. The corrected
GPS update, `CorrectedGpsTagUpdate`, agrees with the original on every
other tag and on long values (`CorrectedAgreesOnLongValues`).
