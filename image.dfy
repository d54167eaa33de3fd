/** Container sniffing and dimension probing: which image format a buffer
    holds, judged from magic bytes in a fixed priority order, and the pixel
    size read from the JPEG frame header (section B.2.2 of ITU-T T.81), the
    PNG IHDR chunk (section 11.2.2 of the W3C PNG specification) or the
    WebP VP8 frame header (section 9.1 of RFC 6386, inside the RIFF
    container of RFC 9649). Also the thumbnail size for the branches that
    need no rounding, and the file-name extension check. */
module ImageProbe {
  import opened Wrappers
  import opened Js
  import opened Bytes
  import opened Exif

  // ---------------------------------------------------------------------
  // Format detection
  // ---------------------------------------------------------------------

  datatype ImageFormat = Jpeg | Png | Webp | Gif | Bmp | Tiff | Heic

  predicate IsJpegMagic(data: seq<byte>) {
    ByteAt(data, 0) == 0xFF && ByteAt(data, 1) == 0xD8
  }

  predicate IsPngMagic(data: seq<byte>) {
    ByteAt(data, 0) == 0x89 && ByteAt(data, 1) == 0x50 && ByteAt(data, 2) == 0x4E && ByteAt(data, 3) == 0x47
  }

  /** "WEBP" at bytes 8-11; the "RIFF" at bytes 0-3 is not checked. */
  predicate IsWebpMagic(data: seq<byte>) {
    ByteAt(data, 8) == 0x57 && ByteAt(data, 9) == 0x45 && ByteAt(data, 10) == 0x42 && ByteAt(data, 11) == 0x50
  }

  /** The four-character brand at bytes 8-11 equals `brand`. */
  predicate BrandIs(data: seq<byte>, brand: string)
    requires |brand| == 4
  {
    forall i :: 0 <= i < 4 ==> ByteAt(data, 8 + i) == brand[i] as int
  }

  predicate IsHeicMagic(data: seq<byte>) {
    ByteAt(data, 4) == 0x66 && ByteAt(data, 5) == 0x74 && ByteAt(data, 6) == 0x79 && ByteAt(data, 7) == 0x70 &&
    (BrandIs(data, "heic") || BrandIs(data, "heix") || BrandIs(data, "hevc") || BrandIs(data, "hevx"))
  }

  predicate IsGifMagic(data: seq<byte>) {
    ByteAt(data, 0) == 0x47 && ByteAt(data, 1) == 0x49 && ByteAt(data, 2) == 0x46
  }

  predicate IsBmpMagic(data: seq<byte>) {
    ByteAt(data, 0) == 0x42 && ByteAt(data, 1) == 0x4D
  }

  /** "II" or "MM": either byte order. */
  predicate IsTiffMagic(data: seq<byte>) {
    (ByteAt(data, 0) == 0x49 && ByteAt(data, 1) == 0x49) || (ByteAt(data, 0) == 0x4D && ByteAt(data, 1) == 0x4D)
  }

  /** `detectImageFormat`: the first signature that matches, in the order
      JPEG, PNG, WebP, GIF, BMP, TIFF (either byte order), HEIC. */
  function DetectImageFormat(data: seq<byte>): (r: Option<ImageFormat>)
    ensures r == Some(Jpeg) <==> IsJpegMagic(data)
    ensures r == Some(Png) <==> IsPngMagic(data) && !IsJpegMagic(data)
    ensures r == Some(Webp) <==> IsWebpMagic(data) && !IsJpegMagic(data) && !IsPngMagic(data)
    ensures r == Some(Gif) <==> IsGifMagic(data) && !IsJpegMagic(data) && !IsPngMagic(data) && !IsWebpMagic(data)
    ensures r == Some(Bmp) <==> IsBmpMagic(data) && !IsJpegMagic(data) && !IsPngMagic(data) && !IsWebpMagic(data)
                                && !IsGifMagic(data)
    ensures r == Some(Tiff) <==> IsTiffMagic(data) && !IsJpegMagic(data) && !IsPngMagic(data) && !IsWebpMagic(data)
                                 && !IsGifMagic(data) && !IsBmpMagic(data)
    ensures r == Some(Heic) <==> IsHeicMagic(data) && !IsJpegMagic(data) && !IsPngMagic(data) && !IsWebpMagic(data)
                                 && !IsGifMagic(data) && !IsBmpMagic(data) && !IsTiffMagic(data)
    ensures r == None <==> !IsJpegMagic(data) && !IsPngMagic(data) && !IsWebpMagic(data)
                           && !IsGifMagic(data) && !IsBmpMagic(data) && !IsTiffMagic(data) && !IsHeicMagic(data)
  {
    if IsJpegMagic(data) then Some(Jpeg)
    else if IsPngMagic(data) then Some(Png)
    else if IsWebpMagic(data) then Some(Webp)
    else if IsGifMagic(data) then Some(Gif)
    else if IsBmpMagic(data) then Some(Bmp)
    else if IsTiffMagic(data) then Some(Tiff)
    else if IsHeicMagic(data) then Some(Heic)
    else None
  }

  /** Only the first 12 bytes are ever looked at. */
  lemma DetectLooksAtTwelveBytes(a: seq<byte>, b: seq<byte>)
    requires forall i :: 0 <= i < 12 ==> ByteAt(a, i) == ByteAt(b, i)
    ensures DetectImageFormat(a) == DetectImageFormat(b)
  {
    assert ByteAt(a, 0) == ByteAt(b, 0) && ByteAt(a, 1) == ByteAt(b, 1) && ByteAt(a, 2) == ByteAt(b, 2);
    assert ByteAt(a, 3) == ByteAt(b, 3) && ByteAt(a, 4) == ByteAt(b, 4) && ByteAt(a, 5) == ByteAt(b, 5);
    assert ByteAt(a, 6) == ByteAt(b, 6) && ByteAt(a, 7) == ByteAt(b, 7) && ByteAt(a, 8) == ByteAt(b, 8);
    assert ByteAt(a, 9) == ByteAt(b, 9) && ByteAt(a, 10) == ByteAt(b, 10) && ByteAt(a, 11) == ByteAt(b, 11);
  }

  /** Every signature needs at least two bytes, so a shorter buffer is unknown. */
  lemma ShortBufferUnknown(data: seq<byte>)
    requires |data| < 2
    ensures DetectImageFormat(data) == None
  {
    assert ByteAt(data, 1) == 0 && ByteAt(data, 4) == 0 && ByteAt(data, 8) == 0;
  }

  /** The first 12 bytes of a typical file of each format. */
  function Signature(f: ImageFormat): (s: seq<byte>)
    ensures |s| == 12
  {
    match f
    case Jpeg => [0xFF, 0xD8, 0xFF, 0xE0, 0x00, 0x10, 0x4A, 0x46, 0x49, 0x46, 0x00, 0x01]
    case Png => [0x89, 0x50, 0x4E, 0x47, 0x0D, 0x0A, 0x1A, 0x0A, 0x00, 0x00, 0x00, 0x0D]
    case Webp => [0x52, 0x49, 0x46, 0x46, 0x00, 0x00, 0x00, 0x00, 0x57, 0x45, 0x42, 0x50]
    case Gif => [0x47, 0x49, 0x46, 0x38, 0x39, 0x61, 0x01, 0x00, 0x01, 0x00, 0x00, 0x00]
    case Bmp => [0x42, 0x4D, 0x00, 0x00, 0x00, 0x00, 0x00, 0x00, 0x00, 0x00, 0x36, 0x00]
    case Tiff => [0x4D, 0x4D, 0x00, 0x2A, 0x00, 0x00, 0x00, 0x08, 0x00, 0x00, 0x00, 0x00]
    case Heic => [0x00, 0x00, 0x00, 0x18, 0x66, 0x74, 0x79, 0x70, 0x68, 0x65, 0x69, 0x63]
  }

  /** Round trip: a file starting with a format's signature is detected as
      that format, whatever follows. */
  lemma DetectSignature(f: ImageFormat, rest: seq<byte>)
    ensures DetectImageFormat(Signature(f) + rest) == Some(f)
  {
    var data := Signature(f) + rest;
    forall i | 0 <= i < 12
      ensures ByteAt(data, i) == ByteAt(Signature(f), i)
    {
    }
    DetectLooksAtTwelveBytes(data, Signature(f));
    if f == Heic {
      assert BrandIs(Signature(f), "heic");
    }
  }

  // ---------------------------------------------------------------------
  // Dimension probes
  // ---------------------------------------------------------------------

  datatype ImageDimensions = ImageDimensions(width: int, height: int)

  /** The JPEG marker scan from `offset`: stop at a byte that is not 0xFF;
      at SOF0-SOF2 the frame header holds the height (Y) at 5 and the width
      (X) at 7; otherwise jump `2 + length`. There is no EOI check. */
  function JpegSofFrom(data: seq<byte>, offset: int): Option<ImageDimensions>
    decreases |data| - offset
  {
    if offset >= |data| || ByteAt(data, offset) != 0xFF then None
    else
      var marker := ByteAt(data, offset + 1);
      if 0xC0 <= marker <= 0xC2 then
        Some(ImageDimensions(ReadUint16(data, offset + 7, false), ReadUint16(data, offset + 5, false)))
      else JpegSofFrom(data, offset + 2 + ReadUint16(data, offset + 2, false))
  }

  /** `getJpegDimensions`. */
  method GetJpegDimensions(data: seq<byte>) returns (r: Option<ImageDimensions>)
    ensures r == JpegSofFrom(data, 2)
  {
    var offset := 2;
    while offset < |data|
      invariant 2 <= offset
      invariant JpegSofFrom(data, offset) == JpegSofFrom(data, 2)
      decreases |data| - offset
    {
      if data[offset] != 0xFF {
        return None;
      }
      var marker := ByteAt(data, offset + 1);
      if 0xC0 <= marker <= 0xC2 {
        var height := ReadUint16(data, offset + 5, false);
        var width := ReadUint16(data, offset + 7, false);
        return Some(ImageDimensions(width, height));
      }
      var length := ReadUint16(data, offset + 2, false);
      offset := offset + 2 + length;
    }
    return None;
  }

  /** A baseline frame header: SOF marker, length, sample precision, then
      the number of lines and samples per line, each big-endian. */
  function SofSegment(marker: byte, height: int, width: int): (s: seq<byte>)
    requires 0 <= height < 0x1_0000 && 0 <= width < 0x1_0000
    ensures |s| == 9
  {
    [0xFF, marker, 0x00, 0x11, 0x08] + Encode16(height, false) + Encode16(width, false)
  }

  /** Round trip: a SOF0-SOF2 header at the scan position yields its width and height. */
  lemma JpegSofRoundTrip(pre: seq<byte>, marker: byte, height: int, width: int, post: seq<byte>)
    requires 0xC0 <= marker <= 0xC2
    requires 0 <= height < 0x1_0000 && 0 <= width < 0x1_0000
    ensures JpegSofFrom(pre + SofSegment(marker, height, width) + post, |pre|)
         == Some(ImageDimensions(width, height))
  {
    var h, w := Encode16(height, false), Encode16(width, false);
    var data := pre + SofSegment(marker, height, width) + post;
    assert data == (pre + [0xFF, marker, 0x00, 0x11, 0x08]) + h + (w + post);
    ReadUint16Encode16(pre + [0xFF, marker, 0x00, 0x11, 0x08], height, w + post, false);
    assert data == (pre + [0xFF, marker, 0x00, 0x11, 0x08] + h) + w + post;
    ReadUint16Encode16(pre + [0xFF, marker, 0x00, 0x11, 0x08] + h, width, post, false);
    assert ByteAt(data, |pre|) == 0xFF && ByteAt(data, |pre| + 1) == marker;
  }

  /** Any other segment (APPn, DQT, DHT, even EOI) is jumped over by its length. */
  lemma JpegSkipsSegment(data: seq<byte>, pre: seq<byte>, marker: byte, payload: seq<byte>, post: seq<byte>)
    requires !(0xC0 <= marker <= 0xC2) && 2 + |payload| < 0x1_0000
    requires data == pre + Segment(marker, payload) + post
    ensures JpegSofFrom(data, |pre|) == JpegSofFrom(data, |pre| + 4 + |payload|)
  {
    SegmentHeader(pre, marker, payload, post);
    JpegScanStep(data, |pre|, |pre| + 4 + |payload|);
  }

  lemma SegmentHeader(pre: seq<byte>, marker: byte, payload: seq<byte>, post: seq<byte>)
    requires 2 + |payload| < 0x1_0000
    ensures var data := pre + Segment(marker, payload) + post;
      && |pre| < |data|
      && ByteAt(data, |pre|) == 0xFF
      && ByteAt(data, |pre| + 1) == marker
      && ReadUint16(data, |pre| + 2, false) == 2 + |payload|
  {
    var data := pre + Segment(marker, payload) + post;
    assert data == (pre + [0xFF, marker]) + Encode16(2 + |payload|, false) + (payload + post);
    ReadUint16Encode16(pre + [0xFF, marker], 2 + |payload|, payload + post, false);
  }

  lemma JpegScanStep(data: seq<byte>, offset: int, next: int)
    requires offset < |data| && ByteAt(data, offset) == 0xFF && !(0xC0 <= ByteAt(data, offset + 1) <= 0xC2)
    requires next == offset + 2 + ReadUint16(data, offset + 2, false)
    ensures JpegSofFrom(data, offset) == JpegSofFrom(data, next)
  {
  }

  /** `getPngDimensions`: IHDR's width and height, big-endian 32-bit numbers
      combined with `<<`, hence signed. */
  function PngDimensions(data: seq<byte>): ImageDimensions {
    ImageDimensions(ReadUint32(data, 16, false), ReadUint32(data, 20, false))
  }

  /** Round trip: the IHDR width and height (below 2^31, as PNG requires)
      written after the 8-byte signature and the chunk's length and type are
      read back. */
  lemma PngRoundTrip(head: seq<byte>, width: int, height: int, rest: seq<byte>)
    requires |head| == 16 && 0 <= width < TWO_31 && 0 <= height < TWO_31
    ensures PngDimensions(head + Encode32(width, false) + Encode32(height, false) + rest)
         == ImageDimensions(width, height)
  {
    var w, h := Encode32(width, false), Encode32(height, false);
    assert head + w + h + rest == head + w + (h + rest);
    ReadUint32Encode32(head, width, h + rest, false);
    ReadUint32Encode32(head + w, height, rest, false);
  }

  predicate IsVp8Chunk(data: seq<byte>) {
    ByteAt(data, 12) == 0x56 && ByteAt(data, 13) == 0x50 && ByteAt(data, 14) == 0x38
  }

  /** `getWebpDimensions`: for any chunk whose tag starts "VP8", the 14-bit
      fields at 26 and 28 plus one. The lossless (VP8L) branch that follows
      repeats that test with one more byte, so it is never taken. */
  function WebpDimensions(data: seq<byte>): Option<ImageDimensions> {
    if IsVp8Chunk(data) then
      Some(ImageDimensions(ReadUint16(data, 26, true) % 0x4000 + 1, ReadUint16(data, 28, true) % 0x4000 + 1))
    else if IsVp8Chunk(data) && ByteAt(data, 15) == 0x4C then Some(LosslessSize(data))
    else None
  }

  /** The lossless branch's reading: bytes 21-23 combined big-endian, the
      low 14 bits plus one as width, the next 14 bits plus one as height. */
  function LosslessSize(data: seq<byte>): (d: ImageDimensions)
    ensures 1 <= d.width <= 0x4000 && 1 <= d.height <= 0x4000
  {
    var bits := 0x1_0000 * ByteAt(data, 21) + 0x100 * ByteAt(data, 22) + ByteAt(data, 23);
    ImageDimensions(bits % 0x4000 + 1, (bits / 0x4000) % 0x4000 + 1)
  }

  /** The probe answers exactly for VP8-tagged chunks, with both sides in
      [1, 16384] and taken from bytes 26-29 whatever the chunk really is. */
  lemma WebpDimensionsShape(data: seq<byte>)
    ensures WebpDimensions(data).Some? <==> IsVp8Chunk(data)
    ensures WebpDimensions(data).Some? ==>
      && 1 <= WebpDimensions(data).value.width <= 0x4000
      && 1 <= WebpDimensions(data).value.height <= 0x4000
      && WebpDimensions(data).value.width == ReadUint16(data, 26, true) % 0x4000 + 1
  {
  }

  /** `getImageInfo`: the probe chosen by the same magic bytes as
      `DetectImageFormat`, in the same order; no probe for other formats. */
  function ImageInfo(data: seq<byte>): Option<ImageDimensions> {
    if IsJpegMagic(data) then JpegSofFrom(data, 2)
    else if IsPngMagic(data) then Some(PngDimensions(data))
    else if IsWebpMagic(data) then WebpDimensions(data)
    else None
  }

  method GetImageInfo(data: seq<byte>) returns (r: Option<ImageDimensions>)
    ensures r == ImageInfo(data)
  {
    if ByteAt(data, 0) == 0xFF && ByteAt(data, 1) == 0xD8 {
      r := GetJpegDimensions(data);
      return;
    }
    if ByteAt(data, 0) == 0x89 && ByteAt(data, 1) == 0x50 && ByteAt(data, 2) == 0x4E && ByteAt(data, 3) == 0x47 {
      return Some(PngDimensions(data));
    }
    if ByteAt(data, 8) == 0x57 && ByteAt(data, 9) == 0x45 && ByteAt(data, 10) == 0x42 && ByteAt(data, 11) == 0x50 {
      return WebpDimensions(data);
    }
    return None;
  }

  /** Dimensions are only ever reported for JPEG, PNG and WebP, and a PNG
      always gets an answer. */
  lemma ImageInfoFollowsFormat(data: seq<byte>)
    ensures ImageInfo(data).Some? ==> DetectImageFormat(data) in {Some(Jpeg), Some(Png), Some(Webp)}
    ensures DetectImageFormat(data) == Some(Png) ==> ImageInfo(data) == Some(PngDimensions(data))
  {
  }

  // ---------------------------------------------------------------------
  // The VP8 frame size
  // ---------------------------------------------------------------------

  /** The start of a lossy WebP file up to its frame size: RIFF header,
      "VP8 " chunk header, 3-byte frame tag and the key-frame start code. */
  predicate IsVp8Head(head: seq<byte>) {
    |head| == 26 &&
    head[0] == 0x52 && head[1] == 0x49 && head[2] == 0x46 && head[3] == 0x46 &&
    head[8] == 0x57 && head[9] == 0x45 && head[10] == 0x42 && head[11] == 0x50 &&
    head[12] == 0x56 && head[13] == 0x50 && head[14] == 0x38 && head[15] == 0x20 &&
    head[23] == 0x9D && head[24] == 0x01 && head[25] == 0x2A
  }

  /** Section 9.1 of RFC 6386: a 14-bit size and a 2-bit scale, little-endian. */
  function Vp8Size(size: int, scale: int): (b: seq<byte>)
    requires 0 <= size < 0x4000 && 0 <= scale < 4
    ensures |b| == 2
  {
    Encode16(size + 0x4000 * scale, true)
  }

  /** The frame size as RFC 6386 defines it: the 14-bit fields themselves. */
  function Vp8FrameSize(data: seq<byte>): ImageDimensions {
    ImageDimensions(ReadUint16(data, 26, true) % 0x4000, ReadUint16(data, 28, true) % 0x4000)
  }

  lemma Vp8SizeFields(head: seq<byte>, width: int, height: int, sw: int, sh: int, rest: seq<byte>)
    requires |head| == 26 && 0 <= width < 0x4000 && 0 <= height < 0x4000 && 0 <= sw < 4 && 0 <= sh < 4
    ensures var data := head + Vp8Size(width, sw) + Vp8Size(height, sh) + rest;
      && ReadUint16(data, 26, true) % 0x4000 == width
      && ReadUint16(data, 28, true) % 0x4000 == height
  {
    var w, h := Vp8Size(width, sw), Vp8Size(height, sh);
    assert head + w + h + rest == head + w + (h + rest);
    ReadUint16Encode16(head, width + 0x4000 * sw, h + rest, true);
    ReadUint16Encode16(head + w, height + 0x4000 * sh, rest, true);
    ScaleBitsDropped(width, sw);
    ScaleBitsDropped(height, sh);
  }

  lemma ScaleBitsDropped(size: int, scale: int)
    requires 0 <= size < 0x4000 && 0 <= scale < 4
    ensures (size + 0x4000 * scale) % 0x4000 == size
  {
  }

  /** As written: a lossy WebP whose frame header says `width` x `height`
      is reported one pixel larger on each side. */
  lemma WebpReportsOneMore(head: seq<byte>, width: int, height: int, sw: int, sh: int, rest: seq<byte>)
    requires IsVp8Head(head) && 0 <= width < 0x4000 && 0 <= height < 0x4000 && 0 <= sw < 4 && 0 <= sh < 4
    ensures ImageInfo(head + Vp8Size(width, sw) + Vp8Size(height, sh) + rest)
         == Some(ImageDimensions(width + 1, height + 1))
  {
    var data := head + Vp8Size(width, sw) + Vp8Size(height, sh) + rest;
    Vp8SizeFields(head, width, height, sw, sh, rest);
    assert forall i :: 0 <= i < 26 ==> ByteAt(data, i) == head[i];
  }

  /** Corrected: the RFC 6386 reading gives back exactly the size written,
      whatever the scale bits. */
  lemma Vp8FrameSizeRoundTrip(head: seq<byte>, width: int, height: int, sw: int, sh: int, rest: seq<byte>)
    requires IsVp8Head(head) && 0 <= width < 0x4000 && 0 <= height < 0x4000 && 0 <= sw < 4 && 0 <= sh < 4
    ensures Vp8FrameSize(head + Vp8Size(width, sw) + Vp8Size(height, sh) + rest) == ImageDimensions(width, height)
  {
    Vp8SizeFields(head, width, height, sw, sh, rest);
  }

  // ---------------------------------------------------------------------
  // Thumbnail size
  // ---------------------------------------------------------------------

  datatype Fit = Cover | Contain | Fill

  /** `calculateThumbnailSize` in its branches that need no rounding: no
      target at all, or `fill`. The aspect-ratio branches, which divide and
      round floating-point numbers, yield None. */
  function ThumbnailSize(originalWidth: int, originalHeight: int, targetWidth: Option<int>, targetHeight: Option<int>, fit: Fit)
    : (r: Option<ImageDimensions>)
    ensures r.Some? <==> (!Truthy(targetWidth, 0) && !Truthy(targetHeight, 0)) || fit == Fill
  {
    if !Truthy(targetWidth, 0) && !Truthy(targetHeight, 0) then Some(ImageDimensions(originalWidth, originalHeight))
    else if fit == Fill then
      Some(ImageDimensions(if Truthy(targetWidth, 0) then targetWidth.value else originalWidth,
                           if Truthy(targetHeight, 0) then targetHeight.value else originalHeight))
    else None
  }

  /** With no target the original size is kept; with `fill` each side is
      its target when one is given and the original otherwise, so filling
      to the original size changes nothing. */
  lemma ThumbnailFill(ow: int, oh: int, tw: Option<int>, th: Option<int>, fit: Fit)
    ensures !Truthy(tw, 0) && !Truthy(th, 0) ==> ThumbnailSize(ow, oh, tw, th, fit) == Some(ImageDimensions(ow, oh))
    ensures fit == Fill ==> ThumbnailSize(ow, oh, tw, th, fit).Some?
    ensures fit == Fill && Truthy(tw, 0) ==> ThumbnailSize(ow, oh, tw, th, fit).value.width == tw.value
    ensures fit == Fill && !Truthy(tw, 0) ==> ThumbnailSize(ow, oh, tw, th, fit).value.width == ow
    ensures fit == Fill && Truthy(th, 0) ==> ThumbnailSize(ow, oh, tw, th, fit).value.height == th.value
    ensures fit == Fill && !Truthy(th, 0) ==> ThumbnailSize(ow, oh, tw, th, fit).value.height == oh
    ensures ThumbnailSize(ow, oh, Some(ow), Some(oh), Fill) == Some(ImageDimensions(ow, oh))
  {
  }

  // ---------------------------------------------------------------------
  // Extension check
  // ---------------------------------------------------------------------

  const SupportedExtensions: seq<string> :=
    [".jpg", ".jpeg", ".png", ".gif", ".webp", ".bmp", ".heic", ".heif", ".tiff", ".tif"]

  /** `split('.').pop()`: the text after the last dot, or all of it. */
  function AfterLastDot(s: string): (r: string)
    ensures '.' !in r
    ensures |r| <= |s|
    decreases |s|
  {
    if s == [] then []
    else if s[|s| - 1] == '.' then []
    else AfterLastDot(s[..|s| - 1]) + [s[|s| - 1]]
  }

  /** `isSupportedImageFormat`. */
  predicate IsSupportedImageFormat(filename: string) {
    "." + AfterLastDot(Lower(filename)) in SupportedExtensions
  }

  lemma {:induction false} AfterLastDotAppend(name: string, ext: string)
    requires '.' !in ext
    ensures AfterLastDot(name + "." + ext) == ext
    decreases |ext|
  {
    var s := name + "." + ext;
    if ext == [] {
      assert s[|s| - 1] == '.';
    } else {
      assert s[..|s| - 1] == name + "." + ext[..|ext| - 1];
      assert ext[|ext| - 1] in ext;
      AfterLastDotAppend(name, ext[..|ext| - 1]);
      assert ext[..|ext| - 1] + [ext[|ext| - 1]] == ext;
    }
  }

  /** Only the last extension counts, in any letter case: "photo.JPG" and
      "archive.tar.png" are accepted, "photo.jpg.txt" is not. */
  lemma ExtensionDecides(name: string, ext: string)
    requires '.' !in ext
    ensures IsSupportedImageFormat(name + "." + ext) <==> "." + Lower(ext) in SupportedExtensions
  {
    LowerAppend(name + ".", ext);
    LowerAppend(name, ".");
    assert Lower(".") == ".";
    assert '.' !in Lower(ext);
    AfterLastDotAppend(Lower(name), Lower(ext));
  }

  lemma {:induction false} AfterLastDotWhole(s: string)
    requires '.' !in s
    ensures AfterLastDot(s) == s
    decreases |s|
  {
    if s != [] {
      assert s[..|s| - 1] + [s[|s| - 1]] == s;
      assert s[|s| - 1] in s;
      AfterLastDotWhole(s[..|s| - 1]);
    }
  }

  /** A name without a dot is tested as a whole. */
  lemma BareNameDecides(name: string)
    requires '.' !in name
    ensures IsSupportedImageFormat(name) <==> "." + Lower(name) in SupportedExtensions
  {
    assert '.' !in Lower(name);
    AfterLastDotWhole(Lower(name));
  }

  /** So "JPG" is accepted and "photo" is not. */
  lemma BareExtensionAccepted()
    ensures IsSupportedImageFormat("JPG")
    ensures !IsSupportedImageFormat("photo")
  {
    var jpg := Lower("JPG");
    assert jpg[0] == 'j' && jpg[1] == 'p' && jpg[2] == 'g';
    assert "." + jpg == SupportedExtensions[0];
    BareNameDecides("JPG");
    BareNameDecides("photo");
    assert |"." + Lower("photo")| == 6;
  }

  /** The check ignores letter case. */
  lemma SupportedIgnoresCase(filename: string)
    ensures IsSupportedImageFormat(Lower(filename)) == IsSupportedImageFormat(filename)
  {
    LowerIdempotent(filename);
  }
}
