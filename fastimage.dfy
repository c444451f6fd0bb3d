/** `fastimageOpen`: read the 4-byte signature, classify it by magic number,
    and run the header decoder of the format it names. */
module FastImage {
  import opened Bytes
  import opened Source
  import opened Image
  import Bmp
  import Pcx
  import Png
  import Gif
  import Jpeg

  const SignatureSize: nat := 4

  /** The magic numbers the classifier compares against. */
  const BmpMagic: seq<byte> := [0x42, 0x4D]               // "BM"
  const PngMagic: seq<byte> := [0x89, 0x50, 0x4E, 0x47]   // "\x89PNG"
  const GifMagic: seq<byte> := [0x47, 0x49, 0x46, 0x38]   // "GIF8"
  const RiffMagic: seq<byte> := [0x52, 0x49, 0x46, 0x46]  // "RIFF"
  const JpegMagic: seq<byte> := [0xFF, 0xD8]              // SOI
  const PcxMagic: seq<byte> := [0x0A, 0x05, 0x01, 0x08]   // ZSoft, version 5, RLE, 8 bits

  /** The signature test the classifier runs for format `f`; the formats
      without a test never match. */
  predicate Matches(sign: seq<byte>, f: Format)
    requires |sign| == SignatureSize
  {
    match f
    case Bmp => sign[..2] == BmpMagic
    case Png => sign == PngMagic
    case Gif => sign == GifMagic
    case WebP => sign == RiffMagic
    case Jpg => sign[..2] == JpegMagic
    case Pcx => sign == PcxMagic
    case _ => false
  }

  /** The six magic numbers start with six different bytes, so a signature
      passes at most one test, and the order of the tests does not matter. */
  lemma MatchesAtMostOne(sign: seq<byte>, f: Format, g: Format)
    requires |sign| == SignatureSize
    requires Matches(sign, f) && Matches(sign, g)
    ensures f == g
  {
    assert Matches(sign, f) ==> sign[0] == FirstByte(f);
    assert Matches(sign, g) ==> sign[0] == FirstByte(g);
  }

  /** The first byte of each magic number. */
  function FirstByte(f: Format): byte
  {
    match f
    case Bmp => 0x42
    case Png => 0x89
    case Gif => 0x47
    case WebP => 0x52
    case Jpg => 0xFF
    case Pcx => 0x0A
    case _ => 0
  }

  /** The tag the signature tests leave in `image.format`: the three
      independent tests for BMP, PNG and GIF, then the chain RIFF, JPEG, PCX.
      TGA and HEIF have no test and are never produced, and neither is
      `Error`. */
  function Classify(sign: seq<byte>): (f: Format)
    requires |sign| == SignatureSize
    ensures f != Unknown ==> Matches(sign, f)
    ensures f != Error && f != Tga && f != Heif
  {
    var unknown := Unknown;
    var bmp := if sign[..2] == BmpMagic then Format.Bmp else unknown;
    var png := if sign == PngMagic then Format.Png else bmp;
    var gif := if sign == GifMagic then Format.Gif else png;
    if sign == RiffMagic then WebP
    else if sign[..2] == JpegMagic then Jpg
    else if sign == PcxMagic then Format.Pcx
    else gif
  }

  /** The classifier returns format `g` exactly when the test for `g`
      passes: a later test never overrides an earlier one. */
  lemma ClassifyExact(sign: seq<byte>, g: Format)
    requires |sign| == SignatureSize
    ensures Classify(sign) == g && g != Unknown <==> Matches(sign, g)
  {
    var f := Classify(sign);
    if Matches(sign, g) && f != Unknown {
      MatchesAtMostOne(sign, f, g);
    }
  }

  /** `Unknown` is the tag of a signature that passes none of the tests. */
  lemma ClassifyUnknown(sign: seq<byte>)
    requires |sign| == SignatureSize
    ensures Classify(sign) == Unknown <==> forall g :: !Matches(sign, g)
  {
    forall g | Matches(sign, g) {
      ClassifyExact(sign, g);
    }
  }

  /** `fastimageOpen` on a source at offset 0. A short signature read leaves
      the zeroed record, whose tag is `Error`. Otherwise the tag is set by the
      classifier and each decoder runs when the tag still names its format. */
  function Identify(c: Cursor): (r: Decoded)
    requires c.pos == 0
    ensures r.next.data == c.data && r.next.mode == c.mode
    ensures InRange(r.image)
    ensures |c.data| < SignatureSize ==> r.image == Blank
    ensures SignatureSize <= |c.data| ==>
              r.image.format == Classify(c.data[..SignatureSize]) || r.image.format == Error
  {
    var sign := Fetch(c, SignatureSize);
    if |sign.bytes| != SignatureSize then Decoded(Blank, sign.next)
    else Decoders(Decoded(Blank.(format := Classify(sign.bytes)), sign.next), sign.bytes)
  }

  /** The guarded decoder calls of `fastimageOpen`, in source order, on the
      record the classifier leaves and the source just past the signature:
      each decoder runs when the tag still names its format. */
  function Decoders(classified: Decoded, sign: seq<byte>): (r: Decoded)
    requires classified.next.pos == SignatureSize && |sign| == SignatureSize
    ensures r.next.data == classified.next.data && r.next.mode == classified.next.mode
    ensures r.image.format == classified.image.format || r.image.format == Error
    ensures InRange(classified.image) ==> InRange(r.image)
  {
    var bmp := if classified.image.format == Format.Bmp
               then Bmp.Decode(classified.next, classified.image) else classified;
    var pcx := if bmp.image.format == Format.Pcx
               then Pcx.Decode(bmp.next, bmp.image) else bmp;
    var png := if pcx.image.format == Format.Png
               then Png.Decode(pcx.next, pcx.image) else pcx;
    var gif := if png.image.format == Format.Gif
               then Gif.Decode(png.next, png.image) else png;
    if gif.image.format == Jpg
    then Jpeg.Decode(gif.next, sign, gif.image) else gif
  }

  /** The one decoder that belongs to a tag, run on the record the
      classifier leaves and the source just past the signature. */
  function Dispatch(f: Format, c: Cursor, sign: seq<byte>): (r: Decoded)
    requires c.pos == SignatureSize && |sign| == SignatureSize
  {
    var img := Blank.(format := f);
    match f
    case Bmp => Bmp.Decode(c, img)
    case Pcx => Pcx.Decode(c, img)
    case Png => Png.Decode(c, img)
    case Gif => Gif.Decode(c, img)
    case Jpg => Jpeg.Decode(c, sign, img)
    case _ => Decoded(img, c)
  }

  /** Decoders only ever write `Error` into the tag, so no test after the
      first decoder fires again: exactly the decoder of the classified format
      runs, and none for `Unknown` or WebP. */
  lemma OneDecoderRuns(d: seq<byte>, mode: SeekMode)
    requires SignatureSize <= |d|
    ensures Identify(Cursor(d, 0, mode))
            == Dispatch(Classify(d[..SignatureSize]), Cursor(d, SignatureSize, mode), d[..SignatureSize])
  {
    FetchAt(Cursor(d, 0, mode), SignatureSize, d[..SignatureSize]);
    var c := Cursor(d, SignatureSize, mode);
    var sign := d[..SignatureSize];
    var img := Blank.(format := Classify(sign));
    match img.format
    case Bmp => assert Bmp.Decode(c, img).image.format in {Format.Bmp, Error};
    case Pcx => assert Pcx.Decode(c, img).image.format in {Format.Pcx, Error};
    case Png => assert Png.Decode(c, img).image.format in {Format.Png, Error};
    case Gif => assert Gif.Decode(c, img).image.format in {Format.Gif, Error};
    case _ =>
  }

  /** An unrecognised signature, and "RIFF", leave every numeric field zero. */
  lemma UndecodedFormatsAreZero(d: seq<byte>, mode: SeekMode)
    requires SignatureSize <= |d|
    requires Classify(d[..SignatureSize]) in {Unknown, WebP}
    ensures Identify(Cursor(d, 0, mode)).image == Blank.(format := Classify(d[..SignatureSize]))
  {
    OneDecoderRuns(d, mode);
  }

  /** `fastimageOpen`. */
  method Open(reader: Reader) returns (image: ImageInfo)
    requires reader.pos == 0
    modifies reader
    ensures Decoded(image, reader.State()) == Identify(old(reader.State()))
  {
    image := Blank;
    var sign := reader.Read(SignatureSize);
    if |sign| != SignatureSize {
      image := image.(format := Error);
      return;
    }
    image := image.(format := Unknown);
    if sign[..2] == BmpMagic {
      image := image.(format := Format.Bmp);
    }
    if sign == PngMagic {
      image := image.(format := Format.Png);
    }
    if sign == GifMagic {
      image := image.(format := Format.Gif);
    }
    if sign == RiffMagic {
      image := image.(format := WebP);
    } else if sign[..2] == JpegMagic {
      image := image.(format := Jpg);
    } else if sign == PcxMagic {
      image := image.(format := Format.Pcx);
    }
    image := RunDecoders(reader, sign, image);
  }

  /** The guarded decoder calls in place. */
  method RunDecoders(reader: Reader, sign: seq<byte>, image: ImageInfo) returns (result: ImageInfo)
    requires reader.pos == SignatureSize && |sign| == SignatureSize
    modifies reader
    ensures Decoded(result, reader.State()) == Decoders(Decoded(image, old(reader.State())), sign)
  {
    result := image;
    if result.format == Format.Bmp {
      result := Bmp.ReadBmp(reader, result);
    }
    if result.format == Format.Pcx {
      result := Pcx.ReadPcx(reader, result);
    }
    if result.format == Format.Png {
      result := Png.ReadPng(reader, result);
    }
    if result.format == Format.Gif {
      result := Gif.ReadGif(reader, result);
    }
    if result.format == Jpg {
      result := Jpeg.ReadJpeg(reader, sign, result);
    }
  }
}
