/** Decoding of a 32-bit Windows BMP held in a byte buffer, as include/bitmap.h
    does it: fixed-offset little-endian extraction of the 14-byte
    BITMAPFILEHEADER and the 40-byte BITMAPINFOHEADER of wingdi.h, the pixel
    ordering derived from the sign of the height, and the decode composition of
    `bitmap_read` once the file is in memory. */
module Bitmap {
  import opened Utilities

  type uint16 = x: int | 0 <= x < 0x1_0000
  type uint32 = x: int | 0 <= x < 0x1_0000_0000
  type int32 = x: int | -0x8000_0000 <= x < 0x8000_0000

  /** 'B' followed by 'M' read as a little-endian 16-bit value, which is how
      the decoder compares them. */
  const StartTagLe: uint16 := 0x4D42

  const FileHeaderSize: nat := 14
  const InfoHeaderSize: nat := 40
  /** Where the decoder places the pixel view (14 + 40). */
  const PixelStart: nat := 54

  // ---------------------------------------------------------------------------
  // Little-endian fields
  // ---------------------------------------------------------------------------

  /** The `*(uint16_t*)` read at `at` on a little-endian machine: the low byte
      of the field is the first one in the buffer. */
  function LE16(s: seq<uint8>, at: nat): (x: uint16)
    requires at + 2 <= |s|
    ensures x % 0x100 == s[at] && x / 0x100 == s[at + 1]
  {
    ByteStep(s[at] + 0x100 * (s[at + 1] as int), s[at], s[at + 1]);
    s[at] + 0x100 * (s[at + 1] as int)
  }

  /** The `*(uint32_t*)` read at `at` on a little-endian machine: byte k of the
      field, counted from the low end, is byte at + k of the buffer. */
  function LE32(s: seq<uint8>, at: nat): (x: uint32)
    requires at + 4 <= |s|
    ensures x % 0x100 == s[at] && x / 0x100 % 0x100 == s[at + 1]
    ensures x / 0x1_0000 % 0x100 == s[at + 2] && x / 0x100_0000 == s[at + 3]
  {
    var q2: nat := s[at + 2] + 0x100 * (s[at + 3] as int);
    var q1: nat := s[at + 1] + 0x100 * q2;
    var x: nat := s[at] + 0x100 * q1;
    ByteStep(x, s[at], q1);
    ByteStep(q1, s[at + 1], q2);
    ByteStep(q2, s[at + 2], s[at + 3]);
    assert x / 0x1_0000 == q2 && x / 0x100_0000 == s[at + 3];
    s[at] + 0x100 * (s[at + 1] as int) + 0x1_0000 * (s[at + 2] as int) + 0x100_0000 * (s[at + 3] as int)
  }

  /** The two's-complement reading of a 32-bit pattern, as `*(int32_t*)` does. */
  function ToInt32(u: uint32): (i: int32)
    ensures i % 0x1_0000_0000 == u
    ensures (i < 0) <==> (u >= 0x8000_0000)
  {
    if u < 0x8000_0000 then u else u - 0x1_0000_0000
  }

  /** The 32-bit pattern that stores a signed value. */
  function FromInt32(i: int32): (u: uint32)
    ensures u % 0x1_0000_0000 == i % 0x1_0000_0000
  {
    if i >= 0 then i else i + 0x1_0000_0000
  }

  lemma Int32RoundTrip(i: int32, u: uint32)
    ensures ToInt32(FromInt32(i)) == i
    ensures FromInt32(ToInt32(u)) == u
  {
  }

  function U16Bytes(x: uint16): (s: seq<uint8>)
    ensures |s| == 2 && LE16(s, 0) == x
  {
    [x % 0x100, x / 0x100]
  }

  function U32Bytes(x: uint32): (s: seq<uint8>)
    ensures |s| == 4 && LE32(s, 0) == x
  {
    var q1 := x / 0x100;
    var q2 := q1 / 0x100;
    var q3 := q2 / 0x100;
    assert x == x % 0x100 + 0x100 * q1 && q1 < 0x100_0000;
    assert q1 == q1 % 0x100 + 0x100 * q2 && q2 < 0x1_0000;
    assert q2 == q2 % 0x100 + 0x100 * q3 && q3 < 0x100;
    [x % 0x100, q1 % 0x100, q2 % 0x100, q3]
  }

  lemma LE16Slice(s: seq<uint8>, at: nat)
    requires at + 2 <= |s|
    ensures LE16(s, at) == LE16(s[at..at + 2], 0)
  {
  }

  lemma LE32Slice(s: seq<uint8>, at: nat)
    requires at + 4 <= |s|
    ensures LE32(s, at) == LE32(s[at..at + 4], 0)
  {
  }

  /** Splitting off the low byte of a value. */
  lemma ByteStep(a: nat, lo: nat, hi: nat)
    requires lo < 0x100 && a == lo + 0x100 * hi
    ensures a / 0x100 == hi && a % 0x100 == lo
  {
  }

  // ---------------------------------------------------------------------------
  // Headers
  // ---------------------------------------------------------------------------

  /** BITMAPFILEHEADER of wingdi.h. */
  datatype FileHeader = FileHeader(bfType: uint16, bfSize: uint32, bfReserved1: uint16,
                                   bfReserved2: uint16, bfOffBits: uint32)

  /** BITMAPINFOHEADER of wingdi.h. The width is kept as the 32-bit pattern the
      decoder reads at offset 18; the height is read as a signed value. */
  datatype InfoHeader = InfoHeader(biSize: uint32, biWidth: uint32, biHeight: int32,
                                   biPlanes: uint16, biBitCount: uint16, biCompression: uint32,
                                   biSizeImage: uint32, biXPelsPerMeter: uint32,
                                   biYPelsPerMeter: uint32, biClrUsed: uint32,
                                   biClrImportant: uint32)

  const ZeroFileHeader := FileHeader(0, 0, 0, 0, 0)
  const ZeroInfoHeader := InfoHeader(0, 0, 0, 0, 0, 0, 0, 0, 0, 0, 0)

  /** The file starts with 'B' then 'M'. */
  predicate HasBmpTag(s: seq<uint8>)
    requires 2 <= |s|
  {
    s[0] == 0x42 && s[1] == 0x4D
  }

  /** The decoder's tag test, a 16-bit little-endian comparison, is the
      byte-wise test on 'B' and 'M'. */
  lemma TagTestIsByteTest(s: seq<uint8>)
    requires 2 <= |s|
    ensures (LE16(s, 0) == StartTagLe) <==> HasBmpTag(s)
  {
    if LE16(s, 0) == StartTagLe {
      assert s[0] == LE16(s, 0) % 0x100;
    }
  }

  /** `parse_fileheader`: a wrong tag gives the all-zero header; otherwise the
      tag, the size at offset 2 and the pixel offset at offset 10, with both
      reserved fields left 0. */
  function ParseFileHeader(s: seq<uint8>): (h: FileHeader)
    requires FileHeaderSize <= |s|
    ensures !HasBmpTag(s) ==> h == ZeroFileHeader
    ensures HasBmpTag(s) ==> h.bfType == StartTagLe && h.bfType != 0
    ensures HasBmpTag(s) ==> h.bfSize == s[2] + 0x100 * (s[3] as int) + 0x1_0000 * (s[4] as int) + 0x100_0000 * (s[5] as int)
    ensures HasBmpTag(s) ==> h.bfOffBits == s[10] + 0x100 * (s[11] as int) + 0x1_0000 * (s[12] as int) + 0x100_0000 * (s[13] as int)
    ensures h.bfReserved1 == 0 && h.bfReserved2 == 0
  {
    TagTestIsByteTest(s);
    if LE16(s, 0) != StartTagLe then ZeroFileHeader
    else FileHeader(StartTagLe, LE32(s, 2), 0, 0, LE32(s, 10))
  }

  /** `parse_infoheader`: a declared header size above 40 gives the all-zero
      header; otherwise the eleven fields at their fixed offsets. */
  function ParseInfoHeader(s: seq<uint8>): (h: InfoHeader)
    requires PixelStart <= |s|
    ensures LE32(s, 14) > InfoHeaderSize ==> h == ZeroInfoHeader
    ensures h.biSize <= InfoHeaderSize
    ensures LE32(s, 14) <= InfoHeaderSize ==> h.biSize == LE32(s, 14)
    ensures (h.biHeight < 0) ==> s[25] >= 0x80
  {
    if LE32(s, 14) > InfoHeaderSize then ZeroInfoHeader
    else
      InfoHeader(LE32(s, 14), LE32(s, 18), ToInt32(LE32(s, 22)), LE16(s, 26), LE16(s, 28),
                 LE32(s, 30), LE32(s, 34), LE32(s, 38), LE32(s, 42), LE32(s, 46), LE32(s, 50))
  }

  /** Only bytes 0..13 enter the file header; of them, bytes 6..9 never do. */
  lemma FileHeaderReadsOnlyItsFields(s: seq<uint8>, t: seq<uint8>)
    requires FileHeaderSize <= |s| && FileHeaderSize <= |t|
    requires s[..6] == t[..6] && s[10..14] == t[10..14]
    ensures ParseFileHeader(s) == ParseFileHeader(t)
  {
    assert s[0] == s[..6][0] && s[1] == s[..6][1];
    assert t[0] == t[..6][0] && t[1] == t[..6][1];
    LE32Slice(s, 2);
    LE32Slice(t, 2);
    assert s[2..6] == s[..6][2..6] && t[2..6] == t[..6][2..6];
    LE32Slice(s, 10);
    LE32Slice(t, 10);
  }

  /** Only bytes 14..53 enter the info header. */
  lemma InfoHeaderReadsOnlyItsFields(s: seq<uint8>, t: seq<uint8>)
    requires PixelStart <= |s| && PixelStart <= |t|
    requires s[14..54] == t[14..54]
    ensures ParseInfoHeader(s) == ParseInfoHeader(t)
  {
    forall k | 14 <= k < 54
      ensures s[k] == t[k]
    {
      assert s[k] == s[14..54][k - 14] && t[k] == t[14..54][k - 14];
    }
  }

  /** BITMAP_PIXEL_ORDERING. */
  datatype PixelOrder = TopDown | BottomUp

  /** `get_pixel_order`: a non-negative height means bottom-up rows. */
  function GetPixelOrder(h: InfoHeader): (o: PixelOrder)
    ensures o == BottomUp <==> h.biHeight >= 0
  {
    if h.biHeight >= 0 then BottomUp else TopDown
  }

  /** For a parsed header the ordering is the sign bit of byte 25. */
  lemma PixelOrderIsSignBit(s: seq<uint8>)
    requires PixelStart <= |s| && LE32(s, 14) <= InfoHeaderSize
    ensures GetPixelOrder(ParseInfoHeader(s)) == TopDown <==> s[25] >= 0x80
  {
    var u := LE32(s, 22);
    assert u >= 0x8000_0000 <==> s[25] >= 0x80;
  }

  // ---------------------------------------------------------------------------
  // Encoders, the inverse of the parsers
  // ---------------------------------------------------------------------------

  /** A file header the parser can reproduce: the right tag, zero reserved fields. */
  predicate WellTagged(h: FileHeader)
  {
    h.bfType == StartTagLe && h.bfReserved1 == 0 && h.bfReserved2 == 0
  }

  function EncodeFileHeader(h: FileHeader): (s: seq<uint8>)
    ensures |s| == FileHeaderSize
  {
    U16Bytes(h.bfType) + U32Bytes(h.bfSize) + U16Bytes(h.bfReserved1) + U16Bytes(h.bfReserved2)
    + U32Bytes(h.bfOffBits)
  }

  function EncodeInfoHeader(h: InfoHeader): (s: seq<uint8>)
    ensures |s| == InfoHeaderSize
  {
    U32Bytes(h.biSize) + U32Bytes(h.biWidth) + U32Bytes(FromInt32(h.biHeight))
    + U16Bytes(h.biPlanes) + U16Bytes(h.biBitCount) + U32Bytes(h.biCompression)
    + U32Bytes(h.biSizeImage) + U32Bytes(h.biXPelsPerMeter) + U32Bytes(h.biYPelsPerMeter)
    + U32Bytes(h.biClrUsed) + U32Bytes(h.biClrImportant)
  }

  lemma LE32At(s: seq<uint8>, at: nat, x: uint32)
    requires at + 4 <= |s| && s[at..at + 4] == U32Bytes(x)
    ensures LE32(s, at) == x
  {
    LE32Slice(s, at);
  }

  lemma LE16At(s: seq<uint8>, at: nat, x: uint16)
    requires at + 2 <= |s| && s[at..at + 2] == U16Bytes(x)
    ensures LE16(s, at) == x
  {
    LE16Slice(s, at);
  }

  /** Parsing an encoded, well-tagged file header gives it back. */
  lemma {:induction false} FileHeaderRoundTrip(h: FileHeader, rest: seq<uint8>)
    requires WellTagged(h)
    ensures ParseFileHeader(EncodeFileHeader(h) + rest) == h
  {
    var s := EncodeFileHeader(h) + rest;
    assert s[0..2] == U16Bytes(h.bfType);
    LE16At(s, 0, h.bfType);
    TagTestIsByteTest(s);
    assert s[2..6] == U32Bytes(h.bfSize);
    LE32At(s, 2, h.bfSize);
    assert s[10..14] == U32Bytes(h.bfOffBits);
    LE32At(s, 10, h.bfOffBits);
  }

  /** Where the first five fields of an encoded info header land. */
  lemma InfoHeaderLeadingFields(fh: seq<uint8>, h: InfoHeader, rest: seq<uint8>)
    requires |fh| == FileHeaderSize
    ensures PixelStart <= |fh + EncodeInfoHeader(h) + rest|
    ensures LE32(fh + EncodeInfoHeader(h) + rest, 14) == h.biSize
    ensures LE32(fh + EncodeInfoHeader(h) + rest, 18) == h.biWidth
    ensures LE32(fh + EncodeInfoHeader(h) + rest, 22) == FromInt32(h.biHeight)
    ensures LE16(fh + EncodeInfoHeader(h) + rest, 26) == h.biPlanes
    ensures LE16(fh + EncodeInfoHeader(h) + rest, 28) == h.biBitCount
  {
    var s := fh + EncodeInfoHeader(h) + rest;
    assert s[14..18] == U32Bytes(h.biSize);
    LE32At(s, 14, h.biSize);
    assert s[18..22] == U32Bytes(h.biWidth);
    LE32At(s, 18, h.biWidth);
    assert s[22..26] == U32Bytes(FromInt32(h.biHeight));
    LE32At(s, 22, FromInt32(h.biHeight));
    assert s[26..28] == U16Bytes(h.biPlanes);
    LE16At(s, 26, h.biPlanes);
    assert s[28..30] == U16Bytes(h.biBitCount);
    LE16At(s, 28, h.biBitCount);
  }

  /** Where the last six fields of an encoded info header land. */
  lemma InfoHeaderTrailingFields(fh: seq<uint8>, h: InfoHeader, rest: seq<uint8>)
    requires |fh| == FileHeaderSize
    ensures PixelStart <= |fh + EncodeInfoHeader(h) + rest|
    ensures LE32(fh + EncodeInfoHeader(h) + rest, 30) == h.biCompression
    ensures LE32(fh + EncodeInfoHeader(h) + rest, 34) == h.biSizeImage
    ensures LE32(fh + EncodeInfoHeader(h) + rest, 38) == h.biXPelsPerMeter
    ensures LE32(fh + EncodeInfoHeader(h) + rest, 42) == h.biYPelsPerMeter
    ensures LE32(fh + EncodeInfoHeader(h) + rest, 46) == h.biClrUsed
    ensures LE32(fh + EncodeInfoHeader(h) + rest, 50) == h.biClrImportant
  {
    var s := fh + EncodeInfoHeader(h) + rest;
    assert s[30..34] == U32Bytes(h.biCompression);
    LE32At(s, 30, h.biCompression);
    assert s[34..38] == U32Bytes(h.biSizeImage);
    LE32At(s, 34, h.biSizeImage);
    assert s[38..42] == U32Bytes(h.biXPelsPerMeter);
    LE32At(s, 38, h.biXPelsPerMeter);
    assert s[42..46] == U32Bytes(h.biYPelsPerMeter);
    LE32At(s, 42, h.biYPelsPerMeter);
    assert s[46..50] == U32Bytes(h.biClrUsed);
    LE32At(s, 46, h.biClrUsed);
    assert s[50..54] == U32Bytes(h.biClrImportant);
    LE32At(s, 50, h.biClrImportant);
  }

  /** Parsing an encoded info header whose size field is at most 40 gives it back. */
  lemma {:induction false} InfoHeaderRoundTrip(fh: seq<uint8>, h: InfoHeader, rest: seq<uint8>)
    requires |fh| == FileHeaderSize && h.biSize <= InfoHeaderSize
    ensures ParseInfoHeader(fh + EncodeInfoHeader(h) + rest) == h
  {
    InfoHeaderLeadingFields(fh, h, rest);
    InfoHeaderTrailingFields(fh, h, rest);
    Int32RoundTrip(h.biHeight, 0);
  }

  /** The four bytes of a 32-bit read, written back, are the bytes read. */
  lemma BytesOfLE32(s: seq<uint8>, at: nat)
    requires at + 4 <= |s|
    ensures U32Bytes(LE32(s, at)) == s[at..at + 4]
  {
    var b := U32Bytes(LE32(s, at));
    assert LE32(b, 0) == LE32(s, at);
    assert b[0] == s[at] && b[1] == s[at + 1] && b[2] == s[at + 2] && b[3] == s[at + 3];
  }

  /** The two bytes of a 16-bit read, written back, are the bytes read. */
  lemma BytesOfLE16(s: seq<uint8>, at: nat)
    requires at + 2 <= |s|
    ensures U16Bytes(LE16(s, at)) == s[at..at + 2]
  {
    var b := U16Bytes(LE16(s, at));
    assert LE16(b, 0) == LE16(s, at);
    assert b[0] == s[at] && b[1] == s[at + 1];
  }

  /** Conversely, an accepted info header encodes back to exactly bytes 14..53
      of the buffer it was parsed from: every byte is read into the field at
      its offset, and no byte is dropped. */
  lemma ParseInfoHeaderEncodes(s: seq<uint8>)
    requires PixelStart <= |s| && LE32(s, 14) <= InfoHeaderSize
    ensures EncodeInfoHeader(ParseInfoHeader(s)) == s[14..54]
  {
    var h := ParseInfoHeader(s);
    var lead := U32Bytes(h.biSize) + U32Bytes(h.biWidth) + U32Bytes(FromInt32(h.biHeight))
                + U16Bytes(h.biPlanes) + U16Bytes(h.biBitCount);
    var trail := U32Bytes(h.biCompression) + U32Bytes(h.biSizeImage) + U32Bytes(h.biXPelsPerMeter)
                 + U32Bytes(h.biYPelsPerMeter) + U32Bytes(h.biClrUsed) + U32Bytes(h.biClrImportant);
    assert EncodeInfoHeader(h) == lead + trail;
    InfoHeaderLeadingBytes(s);
    InfoHeaderTrailingBytes(s);
    assert s[14..54] == s[14..30] + s[30..54];
  }

  /** Bytes 14..29 are the encoding of the first five parsed fields. */
  lemma InfoHeaderLeadingBytes(s: seq<uint8>)
    requires PixelStart <= |s| && LE32(s, 14) <= InfoHeaderSize
    ensures var h := ParseInfoHeader(s);
            U32Bytes(h.biSize) + U32Bytes(h.biWidth) + U32Bytes(FromInt32(h.biHeight))
            + U16Bytes(h.biPlanes) + U16Bytes(h.biBitCount) == s[14..30]
  {
    BytesOfLE32(s, 14);
    BytesOfLE32(s, 18);
    BytesOfLE32(s, 22);
    Int32RoundTrip(0, LE32(s, 22));
    BytesOfLE16(s, 26);
    BytesOfLE16(s, 28);
    assert s[14..30] == s[14..18] + s[18..22] + s[22..26] + s[26..28] + s[28..30];
  }

  /** Bytes 30..53 are the encoding of the last six parsed fields. */
  lemma InfoHeaderTrailingBytes(s: seq<uint8>)
    requires PixelStart <= |s| && LE32(s, 14) <= InfoHeaderSize
    ensures var h := ParseInfoHeader(s);
            U32Bytes(h.biCompression) + U32Bytes(h.biSizeImage) + U32Bytes(h.biXPelsPerMeter)
            + U32Bytes(h.biYPelsPerMeter) + U32Bytes(h.biClrUsed) + U32Bytes(h.biClrImportant) == s[30..54]
  {
    BytesOfLE32(s, 30);
    BytesOfLE32(s, 34);
    BytesOfLE32(s, 38);
    BytesOfLE32(s, 42);
    BytesOfLE32(s, 46);
    BytesOfLE32(s, 50);
    assert s[30..42] == s[30..34] + s[34..38] + s[38..42];
    assert s[42..54] == s[42..46] + s[46..50] + s[50..54];
    assert s[30..54] == s[30..42] + s[42..54];
  }

  // ---------------------------------------------------------------------------
  // The decoded image
  // ---------------------------------------------------------------------------

  /** bitmap_t once the file is in memory: both headers and the RGBQUAD view of
      the buffer from byte 54 on. */
  datatype Bmp = Bmp(fileHeader: FileHeader, infoHeader: InfoHeader, pixels: seq<Pixel>)

  /** The zero-initialised bitmap_t returned on every failure. */
  const EmptyBmp := Bmp(ZeroFileHeader, ZeroInfoHeader, [])

  /** Reinterpreting bytes as consecutive RGBQUADs (blue, green, red, reserved);
      a trailing partial record is not part of the view. */
  function PixelView(s: seq<uint8>): (ps: seq<Pixel>)
    ensures |ps| == |s| / 4
    ensures forall i :: 0 <= i < |ps| ==>
              ps[i] == Pixel(s[4 * i], s[4 * i + 1], s[4 * i + 2], s[4 * i + 3])
  {
    if |s| < 4 then [] else [Pixel(s[0], s[1], s[2], s[3])] + PixelView(s[4..])
  }

  function PixelBytes(ps: seq<Pixel>): (s: seq<uint8>)
    ensures |s| == 4 * |ps|
  {
    if ps == [] then []
    else [ps[0].blue, ps[0].green, ps[0].red, ps[0].reserved] + PixelBytes(ps[1..])
  }

  lemma {:induction false} PixelViewRoundTrip(ps: seq<Pixel>)
    ensures PixelView(PixelBytes(ps)) == ps
  {
    if ps != [] {
      var s := PixelBytes(ps);
      assert s[4..] == PixelBytes(ps[1..]);
      PixelViewRoundTrip(ps[1..]);
    }
  }

  /** What `bitmap_read` demands of the bytes `open` returned: the file header
      always fits, and the info header fits whenever the file header parses to a
      non-zero size so that the info header is read. */
  predicate Readable(buffer: seq<uint8>)
  {
    FileHeaderSize <= |buffer| && (ParseFileHeader(buffer).bfSize != 0 ==> PixelStart <= |buffer|)
  }

  /** The decode composition of `bitmap_read` after `open`. */
  function Read(buffer: seq<uint8>): (img: Bmp)
    requires Readable(buffer)
    ensures img == EmptyBmp <==>
              ParseFileHeader(buffer).bfSize == 0 || ParseInfoHeader(buffer).biSize == 0
    ensures img != EmptyBmp ==>
              img.fileHeader == ParseFileHeader(buffer) && img.infoHeader == ParseInfoHeader(buffer) &&
              img.pixels == PixelView(buffer[PixelStart..])
    ensures !HasBmpTag(buffer) ==> img == EmptyBmp
    ensures img != EmptyBmp ==> img.fileHeader.bfType == StartTagLe && img.fileHeader.bfSize != 0
    ensures img != EmptyBmp ==> 1 <= img.infoHeader.biSize <= InfoHeaderSize
    ensures img != EmptyBmp ==> |img.pixels| == (|buffer| - PixelStart) / 4
  {
    var fhead := ParseFileHeader(buffer);
    if fhead.bfSize == 0 then EmptyBmp
    else
      var infhead := ParseInfoHeader(buffer);
      if infhead.biSize == 0 then EmptyBmp
      else Bmp(fhead, infhead, PixelView(buffer[PixelStart..]))
  }

  /** A fully formed file: its headers and pixels, each in wingdi.h layout. */
  function Encode(img: Bmp): (s: seq<uint8>)
    ensures |s| == PixelStart + 4 * |img.pixels|
  {
    EncodeFileHeader(img.fileHeader) + EncodeInfoHeader(img.infoHeader) + PixelBytes(img.pixels)
  }

  /** Decoding an encoded image gives it back whenever its headers are ones the
      decoder accepts, and wherever the header says the pixels start. */
  lemma {:induction false} ReadEncodeRoundTrip(img: Bmp)
    requires WellTagged(img.fileHeader) && img.fileHeader.bfSize != 0
    requires 1 <= img.infoHeader.biSize <= InfoHeaderSize
    ensures Readable(Encode(img)) && Read(Encode(img)) == img
  {
    var fs := EncodeFileHeader(img.fileHeader);
    var ih := EncodeInfoHeader(img.infoHeader);
    var ps := PixelBytes(img.pixels);
    var s := Encode(img);
    assert s == fs + (ih + ps);
    FileHeaderRoundTrip(img.fileHeader, ih + ps);
    assert s == fs + ih + ps;
    InfoHeaderRoundTrip(fs, img.infoHeader, ps);
    assert s[PixelStart..] == ps;
    PixelViewRoundTrip(img.pixels);
  }

  /** The pixel view does not follow `bfOffBits`: two files that differ only in
      that field decode to the same pixels. */
  lemma OffBitsIgnored(s: seq<uint8>, t: seq<uint8>)
    requires Readable(s) && Readable(t) && |s| == |t|
    requires s[..10] == t[..10] && s[14..] == t[14..]
    requires Read(s) != EmptyBmp
    ensures Read(t) != EmptyBmp && Read(t).pixels == Read(s).pixels
    ensures Read(t).infoHeader == Read(s).infoHeader
  {
    assert s[0] == s[..10][0] && s[1] == s[..10][1];
    assert t[0] == t[..10][0] && t[1] == t[..10][1];
    assert s[2..6] == s[..10][2..6] && t[2..6] == t[..10][2..6];
    LE32Slice(s, 2);
    LE32Slice(t, 2);
    assert s[14..54] == s[14..][..40] && t[14..54] == t[14..][..40];
    InfoHeaderReadsOnlyItsFields(s, t);
    assert s[PixelStart..] == s[14..][40..] && t[PixelStart..] == t[14..][40..];
  }

  /** Bytes 6..9, the reserved fields, never influence the decoded image. */
  lemma ReservedBytesIgnored(s: seq<uint8>, t: seq<uint8>)
    requires Readable(s) && |s| == |t|
    requires s[..6] == t[..6] && s[10..] == t[10..]
    ensures Readable(t) && Read(s) == Read(t)
  {
    assert s[10..14] == s[10..][..4] && t[10..14] == t[10..][..4];
    FileHeaderReadsOnlyItsFields(s, t);
    if PixelStart <= |s| {
      assert s[14..54] == s[10..][4..44];
      assert t[14..54] == t[10..][4..44];
      InfoHeaderReadsOnlyItsFields(s, t);
      assert s[PixelStart..] == s[10..][44..];
      assert t[PixelStart..] == t[10..][44..];
    }
  }

  // ---------------------------------------------------------------------------
  // The 300-byte sample from a real 734 x 480 file
  // ---------------------------------------------------------------------------

  /** The first 14 bytes, grouped by field. */
  const SampleFileHeader: seq<uint8> :=
    [66, 77] + [54, 129, 21, 0] + [0, 0] + [0, 0] + [54, 0, 0, 0]

  /** The next 40 bytes, grouped by field. */
  const SampleInfoHeader: seq<uint8> :=
    [40, 0, 0, 0] + [222, 2, 0, 0] + [224, 1, 0, 0] + [1, 0] + [32, 0] + [0, 0, 0, 0]
    + [0, 0, 0, 0] + [196, 14, 0, 0] + [196, 14, 0, 0] + [0, 0, 0, 0] + [0, 0, 0, 0]

  const SamplePixelBytes: seq<uint8> :=
    [2, 2, 8, 255, 2, 2, 8, 255, 1, 1, 7, 255, 1, 1, 7, 255, 0, 0, 6, 255,
     0, 1, 5, 255, 0, 1, 5, 255, 0, 1, 5, 255, 0, 1, 5, 255, 2, 1, 5, 255,
     7, 4, 6, 255, 8, 5, 7, 255, 7, 3, 8, 255, 8, 4, 9, 255, 8, 4, 9, 255,
     8, 4, 9, 255, 7, 3, 8, 255, 6, 4, 8, 255, 5, 4, 8, 255, 5, 4, 8, 255,
     5, 4, 8, 255, 5, 4, 8, 255, 5, 3, 9, 255, 5, 3, 9, 255, 5, 3, 9, 255,
     5, 3, 9, 255, 5, 3, 9, 255, 5, 3, 9, 255, 5, 3, 9, 255, 5, 3, 9, 255,
     5, 3, 9, 255, 5, 3, 9, 255, 5, 3, 9, 255, 5, 3, 9, 255, 5, 3, 9, 255,
     5, 3, 9, 255, 5, 3, 9, 255, 5, 3, 9, 255, 5, 3, 9, 255, 5, 3, 9, 255,
     5, 3, 9, 255, 5, 3, 9, 255, 5, 3, 9, 255, 4, 3, 13, 255, 7, 6, 16, 255,
     8, 7, 17, 255, 8, 6, 18, 255, 8, 6, 18, 255, 7, 7, 19, 255, 7, 7, 19, 255,
     6, 6, 18, 255, 6, 6, 18, 255, 6, 6, 18, 255, 6, 6, 18, 255, 6, 6, 18, 255,
     7, 7, 19, 255, 7, 7, 19, 255, 7, 7, 19, 255, 7, 7, 19, 255, 8, 8, 20, 255,
     8, 8, 20, 255, 8, 8]

  const SampleBmp: seq<uint8> := SampleFileHeader + SampleInfoHeader + SamplePixelBytes

  const SampleFile := FileHeader(StartTagLe, 1409334, 0, 0, 54)
  const SampleInfo := InfoHeader(40, 734, 480, 1, 32, 0, 0, 3780, 3780, 0, 0)

  lemma SampleFileHeaderEncodes()
    ensures SampleFileHeader == EncodeFileHeader(SampleFile)
  {
    assert U16Bytes(StartTagLe) == [66, 77] && U16Bytes(0) == [0, 0];
    assert U32Bytes(1409334) == [54, 129, 21, 0] && U32Bytes(54) == [54, 0, 0, 0];
  }

  lemma SampleInfoHeaderEncodes()
    ensures SampleInfoHeader == EncodeInfoHeader(SampleInfo)
  {
    assert FromInt32(480) == 480;
    assert U32Bytes(40) == [40, 0, 0, 0] && U32Bytes(734) == [222, 2, 0, 0];
    assert U32Bytes(480) == [224, 1, 0, 0] && U32Bytes(0) == [0, 0, 0, 0];
    assert U16Bytes(1) == [1, 0] && U16Bytes(32) == [32, 0];
    assert U32Bytes(3780) == [196, 14, 0, 0];
  }

  lemma ConcatAssociates<T>(a: seq<T>, b: seq<T>, c: seq<T>)
    ensures a + (b + c) == a + b + c
  {
  }

  /** The sample's file header decodes to the values the repository's own
      tests expect. */
  lemma SampleFileHeaderDecodes()
    ensures |SampleBmp| == 300 && Readable(SampleBmp)
    ensures ParseFileHeader(SampleBmp) == SampleFile
    ensures SampleFile.bfSize == 1409334 && SampleFile.bfOffBits == 54
  {
    SampleFileHeaderEncodes();
    ConcatAssociates(SampleFileHeader, SampleInfoHeader, SamplePixelBytes);
    FileHeaderRoundTrip(SampleFile, SampleInfoHeader + SamplePixelBytes);
  }

  /** The sample's info header decodes to the values the repository's own
      tests expect, and its pixels are stored bottom-up. */
  lemma SampleInfoHeaderDecodes()
    ensures |SampleBmp| == 300
    ensures ParseInfoHeader(SampleBmp) == SampleInfo
    ensures SampleInfo.biWidth == 734 && SampleInfo.biHeight == 480 && SampleInfo.biPlanes == 1
    ensures SampleInfo.biBitCount == 32 && SampleInfo.biXPelsPerMeter == 3780
    ensures SampleInfo.biYPelsPerMeter == 3780
    ensures GetPixelOrder(ParseInfoHeader(SampleBmp)) == BottomUp
  {
    SampleInfoHeaderEncodes();
    InfoHeaderRoundTrip(SampleFileHeader, SampleInfo, SamplePixelBytes);
  }

  /** The whole sample reads as its two headers and the 61 complete pixels
      of its 246 pixel bytes. */
  lemma SampleDecodes()
    ensures Readable(SampleBmp)
    ensures Read(SampleBmp) == Bmp(SampleFile, SampleInfo, PixelView(SamplePixelBytes))
    ensures |Read(SampleBmp).pixels| == 61
  {
    SampleFileHeaderDecodes();
    SampleInfoHeaderDecodes();
    assert SampleBmp[PixelStart..] == SamplePixelBytes;
  }
}
