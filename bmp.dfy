/** The BMP decoder (`fastimageReadBmp`): after the 14-byte file header comes
    the BITMAPINFOHEADER, of which the decoder reads the first 16 bytes
    (`bmp_infoheader_min_t`: biSize, biWidth, biHeight, biPlanes, biBitCount). */
module Bmp {
  import opened Bytes
  import opened Source
  import opened Image

  /** `BMP_FILEHEADER_SIZE`: the absolute offset of the info header. */
  const FileHeaderSize: nat := 14

  /** `sizeof(bmp_infoheader_min_t)`: three `int` and two `short` fields. */
  const InfoHeaderMinSize: nat := 16

  /** The prefix of the info header, as the signed C fields hold it. */
  datatype InfoHeader = InfoHeader(size: int, width: int, height: int, planes: int, bitCount: int)

  /** The values the C fields can hold. */
  predicate Representable(h: InfoHeader)
  {
    && -0x8000_0000 <= h.size < 0x8000_0000
    && -0x8000_0000 <= h.width < 0x8000_0000
    && -0x8000_0000 <= h.height < 0x8000_0000
    && -0x8000 <= h.planes < 0x8000
    && -0x8000 <= h.bitCount < 0x8000
  }

  /** The struct overlay, read field by field in little-endian order. */
  function Parse(b: seq<byte>): (h: InfoHeader)
    requires |b| == InfoHeaderMinSize
    ensures Representable(h)
  {
    InfoHeader(
      Signed32(U32LE(b[0..4])),
      Signed32(U32LE(b[4..8])),
      Signed32(U32LE(b[8..12])),
      Signed16(U16LE(b[12..14])),
      Signed16(U16LE(b[14..16])))
  }

  function Encode(h: InfoHeader): (b: seq<byte>)
    requires Representable(h)
    ensures |b| == InfoHeaderMinSize
  {
    LE32(Unsigned32(h.size)) + LE32(Unsigned32(h.width)) + LE32(Unsigned32(h.height))
      + LE16(Unsigned16(h.planes)) + LE16(Unsigned16(h.bitCount))
  }

  /** Reading back an encoded header gives the header. */
  lemma ParseEncode(h: InfoHeader)
    requires Representable(h)
    ensures Parse(Encode(h)) == h
  {
    var b := Encode(h);
    assert b[0..4] == LE32(Unsigned32(h.size));
    assert b[4..8] == LE32(Unsigned32(h.width));
    assert b[8..12] == LE32(Unsigned32(h.height));
    assert b[12..14] == LE16(Unsigned16(h.planes));
    assert b[14..16] == LE16(Unsigned16(h.bitCount));
    LE32RoundTrip(Unsigned32(h.size));
    LE32RoundTrip(Unsigned32(h.width));
    LE32RoundTrip(Unsigned32(h.height));
    LE16RoundTrip(Unsigned16(h.planes));
    LE16RoundTrip(Unsigned16(h.bitCount));
    Signed32RoundTrip(h.size);
    Signed32RoundTrip(h.width);
    Signed32RoundTrip(h.height);
    Signed16RoundTrip(h.planes);
    Signed16RoundTrip(h.bitCount);
  }

  /** The bit counts the decoder accepts. */
  predicate KnownBitCount(bitCount: int)
  {
    bitCount in {1, 4, 8, 16, 24, 32}
  }

  /** What the decoder does to the record once the header is in hand: copy
      the signed width and height into the `size_t` fields, then dispatch on
      biBitCount. Direct colour keeps the bit count as bits per pixel;
      1, 4 and 8 bits are palette indices into 32-bit RGBA entries. The
      channel count is assigned on every path, the error path included. */
  function Apply(img: ImageInfo, h: InfoHeader): (r: ImageInfo)
    ensures r.width == SizeT(h.width) && r.height == SizeT(h.height)
    ensures r.format == if KnownBitCount(h.bitCount) then img.format else Error
    ensures h.bitCount == 16 ==> r.bitsPerPixel == 16 && r.channels == 3 && r.palette == img.palette
    ensures h.bitCount == 24 ==> r.bitsPerPixel == 24 && r.channels == 3 && r.palette == img.palette
    ensures h.bitCount == 32 ==> r.bitsPerPixel == 32 && r.channels == 4 && r.palette == img.palette
    ensures h.bitCount in {1, 4, 8} ==> r.bitsPerPixel == 32 && r.channels == 4 && r.palette == h.bitCount
    ensures !KnownBitCount(h.bitCount) ==>
              r.bitsPerPixel == img.bitsPerPixel && r.channels == img.bitsPerPixel / 8 && r.palette == img.palette
  {
    var sized := img.(width := SizeT(h.width), height := SizeT(h.height));
    var depth :=
      if h.bitCount in {16, 24, 32} then sized.(bitsPerPixel := h.bitCount)
      else if h.bitCount in {1, 4, 8} then sized.(bitsPerPixel := 32, palette := h.bitCount)
      else sized.(format := Error);
    if h.bitCount == 16 then depth.(channels := 3) else depth.(channels := depth.bitsPerPixel / 8)
  }

  /** The decoder on a source: seek to offset 14, read 16 bytes, apply them.
      A failed seek or a short read sets `Error` and changes nothing else. */
  function Decode(c: Cursor, img: ImageInfo): (r: Decoded)
    ensures r.image.format == img.format || r.image.format == Error
    ensures r.next.data == c.data && r.next.mode == c.mode
    ensures r.image.format != Error ==> FileHeaderSize + InfoHeaderMinSize <= |c.data|
    ensures InRange(img) ==> InRange(r.image)
  {
    var s := SeekTo(c, FileHeaderSize);
    if !s.ok then Fail(img, s.next)
    else
      var f := Fetch(s.next, InfoHeaderMinSize);
      if |f.bytes| != InfoHeaderMinSize then Fail(img, f.next)
      else Decoded(Apply(img, Parse(f.bytes)), f.next)
  }

  /** When the stream holds the whole header, the decoder applies exactly
      bytes 14 to 29, whatever the seek mode; the seek to 14 is forward from
      the 4 signature bytes already consumed. */
  lemma DecodeReadsInfoHeader(d: seq<byte>, mode: SeekMode, img: ImageInfo)
    requires FileHeaderSize + InfoHeaderMinSize <= |d|
    ensures Decode(Cursor(d, 4, mode), img)
            == Decoded(Apply(img, Parse(d[14..30])), Cursor(d, 30, mode))
  {
    var c := Cursor(d, 4, mode);
    var s := SeekTo(c, FileHeaderSize);
    assert s.ok && s.next == Cursor(d, 14, mode);
    FetchAt(s.next, InfoHeaderMinSize, d[14..30]);
  }

  /** A stream too short for the header yields `Error` in either seek mode,
      leaving the other fields untouched. */
  lemma DecodeShortStream(d: seq<byte>, mode: SeekMode, img: ImageInfo)
    requires 4 <= |d| < FileHeaderSize + InfoHeaderMinSize
    ensures Decode(Cursor(d, 4, mode), img).image == img.(format := Error)
  {
    var c := Cursor(d, 4, mode);
    var s := SeekTo(c, FileHeaderSize);
    if s.ok {
      assert Remaining(s.next) < InfoHeaderMinSize;
    }
  }

  /** `fastimageReadBmp`. */
  method ReadBmp(reader: Reader, image: ImageInfo) returns (result: ImageInfo)
    modifies reader
    ensures Decoded(result, reader.State()) == Decode(old(reader.State()), image)
  {
    result := image;
    var ok := reader.Seek(FileHeaderSize);
    if !ok {
      result := result.(format := Error);
      return;
    }
    var bytes := reader.Read(InfoHeaderMinSize);
    if |bytes| != InfoHeaderMinSize {
      result := result.(format := Error);
      return;
    }
    var header := Parse(bytes);
    result := result.(width := SizeT(header.width), height := SizeT(header.height));
    if header.bitCount == 16 || header.bitCount == 24 || header.bitCount == 32 {
      result := result.(bitsPerPixel := header.bitCount);
    } else if header.bitCount == 1 || header.bitCount == 4 || header.bitCount == 8 {
      result := result.(bitsPerPixel := 32, palette := header.bitCount);
    } else {
      result := result.(format := Error);
    }
    if header.bitCount == 16 {
      result := result.(channels := 3);
    } else {
      result := result.(channels := result.bitsPerPixel / 8);
    }
  }
}
