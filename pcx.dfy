/** The PCX decoder (`fastimageReadPcx`): right after the 4-byte signature
    (manufacturer, version, encoding, bits per plane) the decoder reads the
    next 62 bytes of the ZSoft header (`pcx_header_min_t`): the window
    Xmin, Ymin, Xmax, Ymax and the resolutions HRes, VRes as `short`, the
    48-byte EGA colour map, the reserved byte and NPlanes. */
module Pcx {
  import opened Bytes
  import opened Source
  import opened Image

  /** `sizeof(pcx_header_min_t)`: six `short`, 48 + 1 + 1 bytes. */
  const HeaderMinSize: nat := 62

  datatype Header = Header(
    xmin: int, ymin: int, xmax: int, ymax: int, hres: int, vres: int,
    colormap: seq<byte>, reserved: byte, nPlanes: byte)

  predicate Representable(h: Header)
  {
    && -0x8000 <= h.xmin < 0x8000 && -0x8000 <= h.ymin < 0x8000
    && -0x8000 <= h.xmax < 0x8000 && -0x8000 <= h.ymax < 0x8000
    && -0x8000 <= h.hres < 0x8000 && -0x8000 <= h.vres < 0x8000
    && |h.colormap| == 48
  }

  /** The struct overlay, read field by field in little-endian order. */
  function Parse(b: seq<byte>): (h: Header)
    requires |b| == HeaderMinSize
    ensures Representable(h)
  {
    Header(
      Signed16(U16LE(b[0..2])), Signed16(U16LE(b[2..4])),
      Signed16(U16LE(b[4..6])), Signed16(U16LE(b[6..8])),
      Signed16(U16LE(b[8..10])), Signed16(U16LE(b[10..12])),
      b[12..60], b[60], b[61])
  }

  function Encode(h: Header): (b: seq<byte>)
    requires Representable(h)
    ensures |b| == HeaderMinSize
  {
    LE16(Unsigned16(h.xmin)) + LE16(Unsigned16(h.ymin))
      + LE16(Unsigned16(h.xmax)) + LE16(Unsigned16(h.ymax))
      + LE16(Unsigned16(h.hres)) + LE16(Unsigned16(h.vres))
      + h.colormap + [h.reserved, h.nPlanes]
  }

  lemma ShortRoundTrip(x: int)
    requires -0x8000 <= x < 0x8000
    ensures Signed16(U16LE(LE16(Unsigned16(x)))) == x
  {
    LE16RoundTrip(Unsigned16(x));
    Signed16RoundTrip(x);
  }

  /** Reading back an encoded header gives the header. */
  lemma ParseEncode(h: Header)
    requires Representable(h)
    ensures Parse(Encode(h)) == h
  {
    var b := Encode(h);
    assert b[0..2] == LE16(Unsigned16(h.xmin));
    assert b[2..4] == LE16(Unsigned16(h.ymin));
    assert b[4..6] == LE16(Unsigned16(h.xmax));
    assert b[6..8] == LE16(Unsigned16(h.ymax));
    assert b[8..10] == LE16(Unsigned16(h.hres));
    assert b[10..12] == LE16(Unsigned16(h.vres));
    assert b[12..60] == h.colormap;
    ShortRoundTrip(h.xmin);
    ShortRoundTrip(h.ymin);
    ShortRoundTrip(h.xmax);
    ShortRoundTrip(h.ymax);
    ShortRoundTrip(h.hres);
    ShortRoundTrip(h.vres);
  }

  /** The extent `(size_t)(max - min) + 1`. */
  function Extent(min: int, max: int): (r: nat)
    ensures r == SizeT(max - min + 1)
    ensures min <= max < min + 0x1_0000 ==> r == max - min + 1
  {
    SizeTSucc(max - min);
    SizeT(SizeT(max - min) + 1)
  }

  /** What the decoder does to the record once the header is in hand: the
      extents from the window, always 3 channels and 24 bits per pixel, and
      a dispatch on NPlanes (1: 8-bit palette, 3: direct RGB, else Error). */
  function Apply(img: ImageInfo, h: Header): (r: ImageInfo)
    ensures r.width == SizeT(h.xmax - h.xmin + 1) && r.height == SizeT(h.ymax - h.ymin + 1)
    ensures r.channels == 3 && r.bitsPerPixel == 24
    ensures r.format == if h.nPlanes in {1, 3} then img.format else Error
    ensures r.palette == if h.nPlanes == 1 then 8 else img.palette
  {
    var sized := img.(width := Extent(h.xmin, h.xmax), height := Extent(h.ymin, h.ymax),
                      channels := 3, bitsPerPixel := 24);
    if h.nPlanes == 1 then sized.(palette := 8)
    else if h.nPlanes != 3 then sized.(format := Error)
    else sized
  }

  /** There is no extent check: an empty window (max = min - 1) gives a zero
      width, and a reversed one wraps to a width near 2^64, without `Error`. */
  lemma ApplyAcceptsAnyWindow(img: ImageInfo, h: Header)
    requires Representable(h) && h.nPlanes == 3
    ensures Apply(img, h).format == img.format
    ensures h.xmax == h.xmin - 1 ==> Apply(img, h).width == 0
    ensures h.xmax < h.xmin - 1 ==> Apply(img, h).width >= 0x1_0000_0000_0000_0000 - 0x1_0000
  {
  }

  /** The decoder on a source: read 62 bytes, apply them. A short read sets
      `Error` and changes nothing else. */
  function Decode(c: Cursor, img: ImageInfo): (r: Decoded)
    ensures r.image.format == img.format || r.image.format == Error
    ensures r.next.data == c.data && r.next.mode == c.mode
    ensures r.image.format != Error ==> c.pos + HeaderMinSize <= |c.data|
    ensures InRange(img) ==> InRange(r.image)
  {
    var f := Fetch(c, HeaderMinSize);
    if |f.bytes| != HeaderMinSize then Fail(img, f.next)
    else Decoded(Apply(img, Parse(f.bytes)), f.next)
  }

  /** With the 62 header bytes in the stream, the decoder applies exactly
      them and moves past them. */
  lemma DecodeReadsHeader(c: Cursor, img: ImageInfo)
    requires c.pos + HeaderMinSize <= |c.data|
    ensures Decode(c, img)
            == Decoded(Apply(img, Parse(c.data[c.pos .. c.pos + HeaderMinSize])), c.(pos := c.pos + HeaderMinSize))
  {
    FetchAt(c, HeaderMinSize, c.data[c.pos .. c.pos + HeaderMinSize]);
  }

  /** A stream with fewer than 62 bytes left yields `Error` and changes
      nothing else. */
  lemma DecodeShortStream(c: Cursor, img: ImageInfo)
    requires |c.data| < c.pos + HeaderMinSize
    ensures Decode(c, img).image == img.(format := Error)
  {
  }

  /** `fastimageReadPcx`. */
  method ReadPcx(reader: Reader, image: ImageInfo) returns (result: ImageInfo)
    modifies reader
    ensures Decoded(result, reader.State()) == Decode(old(reader.State()), image)
  {
    result := image;
    var bytes := reader.Read(HeaderMinSize);
    if |bytes| != HeaderMinSize {
      result := result.(format := Error);
      return;
    }
    var header := Parse(bytes);
    result := result.(width := Extent(header.xmin, header.xmax),
                      height := Extent(header.ymin, header.ymax));
    result := result.(channels := 3, bitsPerPixel := 24);
    if header.nPlanes == 1 {
      result := result.(palette := 8);
    } else if header.nPlanes != 3 {
      result := result.(format := Error);
    }
  }
}
