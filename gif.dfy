/** The GIF decoder (`fastimageReadGif`): after "GIF8" it reads three
    `unsigned short`: the rest of the version ("7a" or "9a") and the logical
    screen width and height (sections 17 and 18 of GIF89a). */
module Gif {
  import opened Bytes
  import opened Source
  import opened Image

  const HeaderMinSize: nat := 6

  /** "7a" and "9a" read as a little-endian `unsigned short`:
      `'7' + 'a' * 256` and `'9' + 'a' * 256`. */
  const Version87a: nat := 0x37 + 0x61 * 0x100
  const Version89a: nat := 0x39 + 0x61 * 0x100

  datatype ScreenHeader = ScreenHeader(versionTail: nat, width: nat, height: nat)

  predicate Representable(h: ScreenHeader)
  {
    h.versionTail < 0x1_0000 && h.width < 0x1_0000 && h.height < 0x1_0000
  }

  function Parse(b: seq<byte>): (h: ScreenHeader)
    requires |b| == HeaderMinSize
    ensures Representable(h)
  {
    ScreenHeader(U16LE(b[0..2]), U16LE(b[2..4]), U16LE(b[4..6]))
  }

  function Encode(h: ScreenHeader): (b: seq<byte>)
    requires Representable(h)
    ensures |b| == HeaderMinSize
  {
    LE16(h.versionTail) + LE16(h.width) + LE16(h.height)
  }

  lemma ParseEncode(h: ScreenHeader)
    requires Representable(h)
    ensures Parse(Encode(h)) == h
  {
    var b := Encode(h);
    assert b[0..2] == LE16(h.versionTail);
    assert b[2..4] == LE16(h.width);
    assert b[4..6] == LE16(h.height);
    LE16RoundTrip(h.versionTail);
    LE16RoundTrip(h.width);
    LE16RoundTrip(h.height);
  }

  /** The version test accepts exactly the two byte pairs "7a" and "9a". */
  lemma VersionBytes(b: seq<byte>)
    requires |b| == HeaderMinSize
    ensures Parse(b).versionTail in {Version87a, Version89a}
            <==> b[1] == 0x61 && (b[0] == 0x37 || b[0] == 0x39)
  {
  }

  /** The decoder on a source: read 6 bytes, check the version, then take the
      width and height and report a fixed 8-bit palette of 24-bit colours. */
  function Decode(c: Cursor, img: ImageInfo): (r: Decoded)
    ensures r.image.format == img.format || r.image.format == Error
    ensures r.next.data == c.data && r.next.mode == c.mode
    ensures r.image.format != Error ==> c.pos + HeaderMinSize <= |c.data|
    ensures r.image.format != Error ==>
              && r.image.width < 0x1_0000 && r.image.height < 0x1_0000
              && r.image.bitsPerPixel == 24 && r.image.channels == 3 && r.image.palette == 8
    ensures img.format != Error && r.image.format == Error ==> r.image == img.(format := Error)
    ensures InRange(img) ==> InRange(r.image)
  {
    var f := Fetch(c, HeaderMinSize);
    if |f.bytes| != HeaderMinSize then Fail(img, f.next)
    else
      var h := Parse(f.bytes);
      if h.versionTail != Version87a && h.versionTail != Version89a then Fail(img, f.next)
      else Decoded(img.(width := h.width, height := h.height, bitsPerPixel := 24, channels := 3, palette := 8), f.next)
  }

  /** With the 6 header bytes in the stream, the decoder takes the screen
      width and height from bytes 2-3 and 4-5 when bytes 0-1 are "7a" or
      "9a", and otherwise sets `Error` and changes nothing else. */
  lemma DecodeReadsScreen(c: Cursor, img: ImageInfo)
    requires c.pos + HeaderMinSize <= |c.data|
    ensures var b := c.data[c.pos .. c.pos + HeaderMinSize];
            var next := c.(pos := c.pos + HeaderMinSize);
            Decode(c, img)
            == if b[1] == 0x61 && (b[0] == 0x37 || b[0] == 0x39)
               then Decoded(img.(width := U16LE(b[2..4]), height := U16LE(b[4..6]),
                                 bitsPerPixel := 24, channels := 3, palette := 8), next)
               else Decoded(img.(format := Error), next)
  {
    var b := c.data[c.pos .. c.pos + HeaderMinSize];
    FetchAt(c, HeaderMinSize, b);
    VersionBytes(b);
  }

  /** A stream with fewer than 6 bytes left yields `Error` and changes
      nothing else. */
  lemma DecodeShortStream(c: Cursor, img: ImageInfo)
    requires |c.data| < c.pos + HeaderMinSize
    ensures Decode(c, img).image == img.(format := Error)
  {
  }

  /** `fastimageReadGif`. */
  method ReadGif(reader: Reader, image: ImageInfo) returns (result: ImageInfo)
    modifies reader
    ensures Decoded(result, reader.State()) == Decode(old(reader.State()), image)
  {
    result := image;
    var bytes := reader.Read(HeaderMinSize);
    if |bytes| != HeaderMinSize {
      result := result.(format := Error);
      return;
    }
    var header := Parse(bytes);
    if header.versionTail != Version87a && header.versionTail != Version89a {
      result := result.(format := Error);
      return;
    }
    result := result.(width := header.width, height := header.height);
    result := result.(bitsPerPixel := 24, channels := 3, palette := 8);
  }
}
