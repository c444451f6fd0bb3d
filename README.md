# fastimage: image header sniffing, modelled in Dafny

fastimage reads just enough of an image stream to report its format,
width, height, channel count, bits per pixel and palette depth, without
decoding pixels. `fastimageOpen` reads a 4-byte signature and classifies it
by magic number: BMP, PNG, GIF, RIFF (WebP), JPEG or PCX. It then runs the
header decoder of that format against an abstract reader, which has a
`read` that may come up short and an absolute `seek` that reports success.
A decoder that meets a short read, a failed seek or a field value it does
not accept writes the `Error` tag into the record.

The model has one module per source concern:

- `Bytes`: fixed-width fields and the C conversions the decoders apply.
  This covers big-endian arithmetic, little-endian struct overlays,
  `short`/`int` sign and `size_t` wrap-around. Each reader has an encoder
  and a round-trip lemma in both directions.
- `Source`: the reader. `Cursor` is its state as a value. `Fetch` and
  `SeekTo` are `read` and `seek` as functions of that state. The class
  `Reader` performs them in place and is proved to agree with them. A
  `SeekMode` tells the file reader (`fseeko64`, which accepts any
  non-negative offset) from the HTTP reader (forward-only: it reads
  through the body to reach the target).
- `Image`: the result record and the format tags.
- `Bmp`, `Pcx`, `Png`, `Gif`, `Jpeg`: one decoder each.
  - The pure function `Decode` states the decoder's whole effect on the
    record and on the reader.
  - The method `ReadX` performs the same steps on a `Reader` object and
    is proved equal to `Decode`.
  - `Apply` is what the decoder writes once it has the header fields.
- PNG and JPEG walk chunk or segment lists in a `while(1)` loop.
  - `Step` models one pass of the loop body and `ScanChunks` /
    `ScanSegments` the whole walk.
  - `TakeStep` and `FindIhdr` / `SkipSegments` are the in-place loop,
    proved equal to the walk.
  - Lemmas show that the walk steps exactly over well-formed lists of
    other chunks or segments. They also show that the outcome does not
    depend on the seek mode.
- `FastImage`: the classifier and `fastimageOpen`. The lemmas prove three
  things. The six signature tests are mutually exclusive. The classifier
  returns a format exactly when its test passes. Exactly one decoder, the
  one for the classified format, runs.

What the decoders read, and what they leave on failure:

- The BMP decoder seeks to offset 14 and reads the 16-byte
  `bmp_infoheader_min_t` (three `int`, two `short`).
- The PCX decoder reads the 62-byte `pcx_header_min_t` (six `short`,
  48 colour-map bytes, a reserved byte and NPlanes).
- The PNG walk seeks to the chunk header offset + 8 + 4 + length. That is
  past the chunk's data and its CRC, onto the next chunk header.
- The PNG decoder checks that IHDR declares length 13, then reads the
  first 10 bytes of its data: width, height, bit depth and colour type.
- No decoder rejects a zero or reversed extent. A PCX window with
  `Xmax < Xmin - 1` wraps to a width near 2^64 (`Pcx.ApplyAcceptsAnyWindow`).
- Setting `Error` does not zero the numeric fields. A decoder leaves in
  place what it had already written:
  - BMP: width, height and channels on an unknown bit count.
  - PCX: width, height, 3 channels and 24 bits per pixel when NPlanes is
    neither 1 nor 3.
  - PNG: width and height on an unknown colour type.

## Model

| member | source | states |
|---|---|---|
| Bytes.U16LE | fastimage.c:244 | the little-endian reading `b0 + 256*b1` of two bytes is below 2^16 |
| Bytes.U16BE | fastimage.c:262 | the big-endian reading `256*b0 + b1` is below 2^16 |
| Bytes.U32LE | fastimage.c:59-65 | the little-endian `int` overlay pattern is below 2^32 |
| Bytes.U32BE | fastimage.c:159 | `b0*16777216 + b1*65536 + b2*256 + b3` is below 2^32 |
| Bytes.Signed16 | fastimage.c:45-55 | a `short` holds the two's-complement value of its pattern: in range, and congruent to the pattern mod 2^16 |
| Bytes.Signed32 | fastimage.c:59-65 | an `int` holds the two's-complement value of its pattern: in range, and congruent mod 2^32 |
| Bytes.SizeT | fastimage.c:86-87 | the conversion to `size_t` is reduction mod 2^64: identity on non-negative values, adds 2^64 to negative ones |
| Bytes.SizeTSucc | fastimage.c:122-123 | `(size_t)(x) + 1` equals the conversion of `x + 1` |
| Bytes.LE16 | fastimage.c:244 | encoder of a 16-bit value as two little-endian bytes |
| Bytes.BE16 | fastimage.c:262 | encoder of a 16-bit value as two big-endian bytes |
| Bytes.LE32 | fastimage.c:59-65 | encoder of a 32-bit value as four little-endian bytes |
| Bytes.BE32 | fastimage.c:159 | encoder of a 32-bit value as four big-endian bytes |
| Bytes.Unsigned16 | fastimage.c:45-55 | the bit pattern of a `short` is below 2^16 |
| Bytes.Unsigned32 | fastimage.c:59-65 | the bit pattern of an `int` is below 2^32 |
| Bytes.LE16RoundTrip | fastimage.c:244 | reading back an encoded 16-bit little-endian value gives the value |
| Bytes.BE16RoundTrip | fastimage.c:262 | reading back an encoded 16-bit big-endian value gives the value |
| Bytes.U16LERoundTrip | fastimage.c:244 | encoding the value read from two bytes gives the bytes back |
| Bytes.U16BERoundTrip | fastimage.c:262 | encoding the big-endian value read from two bytes gives the bytes back |
| Bytes.LE32RoundTrip | fastimage.c:59-65 | reading back an encoded 32-bit little-endian value gives the value |
| Bytes.BE32RoundTrip | fastimage.c:159 | reading back an encoded 32-bit big-endian value gives the value |
| Bytes.U32LERoundTrip | fastimage.c:59-65 | encoding the value read from four bytes gives the bytes back |
| Bytes.U32BERoundTrip | fastimage.c:176-177 | encoding the big-endian value read from four bytes gives the bytes back |
| Bytes.Signed16RoundTrip | fastimage.c:45-55 | every `short` value survives pattern-then-value |
| Bytes.Signed32RoundTrip | fastimage.c:59-65 | every `int` value survives pattern-then-value |
| Source.Fetch | fastimage.h:59 | a read of n returns min(n, remaining) bytes, so exactly n iff n bytes remain; they are the bytes at the position, and the position moves past them |
| Source.SeekTo | fastimage.c:544-574 | seek keeps the stream; on success the position is the target; file mode succeeds iff the target is non-negative; HTTP mode succeeds iff the target is at or after the position and within the body |
| Source.SeekMode | fastimage.c:390-397 | the two seek behaviours: the file seek (`fseeko64`) and the forward-only HTTP seek of fastimage.c:544-574 |
| Source.FetchAt | fastimage.c:385-388 | a read of bytes known to be in the stream returns exactly them |
| Source.SeekForward | fastimage.c:552-573 | a seek forward to a position inside the stream succeeds in both modes |
| Source.Reader.constructor | fastimage.h:62-66 | a new reader serves the given stream from offset 0 |
| Source.Reader.Read | fastimage.h:59 | `reader->read` in place returns the bytes and reaches the state `Fetch` describes |
| Source.Reader.Seek | fastimage.h:60 | `reader->seek` in place reports the success and reaches the state `SeekTo` describes |
| Image.Format | fastimage.h:37-48 | the ten format tags in declaration order, `Error` first so that a zeroed record reads `Error` |
| Image.ImageInfo | fastimage.h:50-57 | the result record: tag, `size_t` width and height, `unsigned int` channels, bits per pixel and palette |
| Image.Blank | fastimage.c:324 | the record after the `memset`: every field zero, so the tag is `Error` |
| Image.Fail | fastimage.c:75 | setting `Error` leaves every other field as it was |
| Bmp.Parse | fastimage.c:59-65 | the 16-byte overlay yields fields that fit their `int`/`short` types |
| Bmp.Encode | fastimage.c:59-65 | an info header encodes to 16 bytes |
| Bmp.ParseEncode | fastimage.c:59-65 | parsing an encoded info header gives it back |
| Bmp.Apply | fastimage.c:86-107 | width and height are the `size_t` conversions of the signed fields; 16/24/32 bits give that depth with 3/3/4 channels; 1/4/8 bits give 32 bits per pixel, 4 channels and the palette depth; any other count sets `Error` and channels become bitsperpixel / 8 |
| Bmp.Decode | fastimage.c:68-108 | the tag is kept or becomes `Error`; success needs 30 bytes in the stream; fields stay in range |
| Bmp.DecodeReadsInfoHeader | fastimage.c:74-86 | on a long enough stream the decoder applies exactly bytes 14 to 29, in either seek mode |
| Bmp.DecodeShortStream | fastimage.c:74-84 | a stream shorter than 30 bytes yields `Error` with every other field unchanged |
| Bmp.ReadBmp | fastimage.c:68-108 | `fastimageReadBmp` in place equals `Decode` on the reader's state |
| Pcx.Parse | fastimage.c:45-55 | the 62-byte overlay yields six `short` fields and a 48-byte colour map |
| Pcx.Encode | fastimage.c:45-55 | a header encodes to 62 bytes |
| Pcx.ShortRoundTrip | fastimage.c:46-51 | a `short` field survives encoding and overlay reading |
| Pcx.ParseEncode | fastimage.c:45-55 | parsing an encoded header gives it back |
| Pcx.Extent | fastimage.c:122-123 | `(size_t)(max - min) + 1` is `max - min + 1` mod 2^64, and exactly that for a window of at most 2^16 |
| Pcx.Apply | fastimage.c:122-130 | extents from the window, 3 channels and 24 bits always; NPlanes 1 gives an 8-bit palette, 3 keeps the tag, anything else sets `Error` |
| Pcx.ApplyAcceptsAnyWindow | fastimage.c:122-130 | with 3 planes the tag survives any window: an empty one gives width 0, a reversed one wraps near 2^64 |
| Pcx.Decode | fastimage.c:110-131 | the tag is kept or becomes `Error`; success needs 62 bytes after the position; fields stay in range |
| Pcx.DecodeReadsHeader | fastimage.c:116-130 | with 62 bytes left the decoder applies exactly the 62 bytes at the position and moves past them |
| Pcx.DecodeShortStream | fastimage.c:116-120 | with fewer than 62 bytes left the record becomes `Error` with every other field unchanged |
| Pcx.ReadPcx | fastimage.c:110-131 | `fastimageReadPcx` in place equals `Decode` on the reader's state |
| Gif.Parse | fastimage.c:213-218 | three `unsigned short` overlays, each below 2^16 |
| Gif.Encode | fastimage.c:213-218 | a screen header encodes to 6 bytes |
| Gif.ParseEncode | fastimage.c:213-218 | parsing an encoded header gives it back |
| Gif.VersionBytes | fastimage.c:224-225 | the version test passes exactly for the byte pairs "7a" and "9a" |
| Gif.Decode | fastimage.c:211-236 | success needs 6 bytes and gives 16-bit extents, 24 bits, 3 channels, palette 8; failure changes only the tag |
| Gif.DecodeReadsScreen | fastimage.c:218-235 | with 6 bytes left: version bytes "7a" or "9a" give width from bytes 2-3, height from bytes 4-5, 24 bits, 3 channels, palette 8; any other version gives `Error` with every other field unchanged |
| Gif.DecodeShortStream | fastimage.c:218-222 | with fewer than 6 bytes left the record becomes `Error` with every other field unchanged |
| Gif.ReadGif | fastimage.c:211-236 | `fastimageReadGif` in place equals `Decode` on the reader's state |
| Png.Parse | fastimage.c:176-177 | width and height are big-endian 32-bit values |
| Png.Encode | fastimage.c:176-177 | IHDR fields encode to 10 bytes |
| Png.ParseEncode | fastimage.c:176-177 | parsing encoded IHDR fields gives them back |
| Png.Apply | fastimage.c:176-203 | colour types 0/2/3/4/6 give 1/3/3/2/4 channels, type 3 sets the palette to the bit depth; bits per pixel is 24 with a palette, else depth times channels; any other type sets `Error` after width and height |
| Png.Step | fastimage.c:151-168 | one pass stops at IHDR just past the 8-byte header with a 32-bit length, or goes on at least 12 bytes further with fewer bytes remaining |
| Png.ScanChunks | fastimage.c:151-168 | the walk keeps the stream, and a found IHDR has a 32-bit length and lies past the start and inside the stream |
| Png.Decode | fastimage.c:142-148 | success needs the signature tail `0D 0A 1A 0A` at offset 4 and 26 bytes in all; the tag is kept or becomes `Error` |
| Png.DecodeChunks | fastimage.c:150-209 | success from offset 8 means the walk found an IHDR declaring length 13 with its 10 field bytes in the stream, and the record is `Apply` of those bytes |
| Png.DecodeIhdr | fastimage.c:170-203 | success only for an IHDR declaring length 13 whose 10 bytes are present, and then the record is `Apply` of those bytes and the source is just past them |
| Png.ChunkBytes | fastimage.c:152-164 | a chunk occupies 8 + data + 4 bytes |
| Png.ChunkAt | fastimage.c:154-164 | in a chunk at p the length and type lie at p and p + 4, and its end is p + 12 + length |
| Png.StepOverChunk | fastimage.c:154-167 | a pass at a non-IHDR header whose chunk lies in the stream goes on exactly at p + 12 + length |
| Png.SkipChunk | fastimage.c:154-167 | the walk skips one well-formed non-IHDR chunk exactly, in either mode |
| Png.ChunkListLayout | fastimage.c:151-168 | a list of chunks in the stream splits into its first chunk and the rest |
| Png.SkipChunks | fastimage.c:151-168 | the walk skips any run of well-formed non-IHDR chunks exactly |
| Png.DecodeWellFormed | fastimage.c:133-209 | a stream holding the signature tail, any run of other chunks, and an IHDR header with length 13 followed by 10 field bytes, with anything after them, decodes to `Apply` of those bytes in either mode |
| Png.WellFormedScan | fastimage.c:151-168 | on such a stream the walk from offset 8 finds IHDR with length 13 just before the fields |
| Png.WellFormedLayout | fastimage.c:141-177 | where the signature tail, the chunk run, the IHDR header and the fields lie in such a stream |
| Png.IhdrHeaderAt | fastimage.c:154-162 | an IHDR header declaring 13 stops the pass and the walk just past the header |
| Png.StepModes | fastimage.c:151-168 | a pass goes on to the same header in both modes and finds the same IHDR; only past the end does the file seek succeed where the HTTP one fails |
| Png.ScanChunksModes | fastimage.c:151-168 | the walk finds the same IHDR at the same offset, or fails, in both modes |
| Png.DecodeModes | fastimage.c:133-209 | the decoded record does not depend on the seek mode |
| Png.DecodeChunksModes | fastimage.c:150-209 | after the signature the record does not depend on the seek mode |
| Png.DecodeIhdrModes | fastimage.c:170-177 | walks that end alike over one stream give the same record |
| Png.TakeStep | fastimage.c:152-167 | one loop pass in place produces the outcome `Step` describes and keeps the byte count equal to the position |
| Png.FindIhdr | fastimage.c:151-168 | the `while(1)` loop in place ends where the walk ends, reporting found and length exactly as the walk does |
| Png.ApplyIhdr | fastimage.c:176-203 | the colour-type switch in place gives the record `Apply` describes |
| Png.ReadPng | fastimage.c:133-209 | `fastimageReadPng` in place equals `Decode` on the reader's state |
| Jpeg.FrameMarkerBytes | fastimage.c:272 | the walk stops exactly at the byte pairs FF C0, FF C1, FF C2 |
| Jpeg.Parse | fastimage.c:311-312 | the frame height and width are big-endian 16-bit values |
| Jpeg.Encode | fastimage.c:311-312 | frame fields encode to 6 bytes |
| Jpeg.ParseEncode | fastimage.c:311-312 | parsing encoded frame fields gives them back |
| Jpeg.Apply | fastimage.c:311-314 | width from bytes 3-4, height from 1-2, channels = components, bits per pixel = components times precision, below 2^16 |
| Jpeg.Step | fastimage.c:249-292 | one pass stops at a frame marker just past a length field inside the stream, or goes on from a non-frame marker at least 4 bytes further, still inside the stream |
| Jpeg.ScanSegments | fastimage.c:248-293 | the walk keeps the stream, and a found frame marker lies past the start and inside the stream |
| Jpeg.ScanContinues | fastimage.c:248-293 | a pass that goes on hands the walk to the next marker pair |
| Jpeg.StepOutcome | fastimage.c:254-290 | a pass fails on a short length read or a length below 2, finds a frame marker with payload length - 2, and otherwise goes on iff the next marker pair lies in the stream |
| Jpeg.StepModes | fastimage.c:276-290 | a pass ends alike or goes on to the same marker in both modes |
| Jpeg.ScanSegmentsModes | fastimage.c:248-293 | the walk ends alike in both modes |
| Jpeg.SegmentBytes | fastimage.c:253-286 | a segment occupies marker + length field + payload bytes |
| Jpeg.SegmentAt | fastimage.c:253-277 | in a segment at p the length field lies at p + 2 and its end is p + 2 + length |
| Jpeg.StepOver | fastimage.c:254-292 | a pass at a non-frame marker goes on at the segment's end with the marker pair read there |
| Jpeg.SkipAt | fastimage.c:248-293 | the walk from a non-frame marker pair goes on from the pair at the end of its segment |
| Jpeg.SkipSegment | fastimage.c:248-293 | the walk skips one well-formed non-frame segment exactly, in either mode |
| Jpeg.SegmentListLayout | fastimage.c:248-293 | a list of segments in the stream splits into its first segment and the rest |
| Jpeg.SkipSegmentList | fastimage.c:248-293 | the walk skips any run of well-formed non-frame segments exactly |
| Jpeg.Decode | fastimage.c:238-317 | the tag is kept or becomes `Error`; success means the walk from the signature's marker found a frame marker with a payload of at least 6 whose bytes are in the stream, and the record is `Apply` of them; fields stay in range |
| Jpeg.DecodeFrame | fastimage.c:295-316 | success only at a frame marker with payload at least 6 whose 6 bytes are present; then the record is `Apply` of them; failure changes only the tag |
| Jpeg.DecodeModes | fastimage.c:238-317 | the decoded record does not depend on the seek mode |
| Jpeg.DecodeFrameModes | fastimage.c:295-316 | walks that end alike over one stream give the same record |
| Jpeg.WellFormedLayout | fastimage.c:248-305 | where the segments, the frame marker, its length and the fields lie in a well-formed stream |
| Jpeg.FrameAt | fastimage.c:254-274 | a frame marker with a length of at least 2 stops the walk just past the length field |
| Jpeg.WellFormedScan | fastimage.c:244-293 | on a well-formed stream the walk from the SOI pair finds the frame marker with payload length - 2 |
| Jpeg.DecodeWellFormed | fastimage.c:238-317 | SOI, any run of non-frame segments, then a frame segment with the 6 fields decode to `Apply` of those fields, in either mode |
| Jpeg.DecodeLaidOut | fastimage.c:238-317 | the same, with the parts of the stream already located |
| Jpeg.FrameFields | fastimage.c:295-314 | a frame found with room for the fields reads and applies the 6 bytes at its position |
| Jpeg.TakeStep | fastimage.c:249-292 | one loop pass in place produces the outcome `Step` describes and keeps the byte count equal to the position |
| Jpeg.SkipSegments | fastimage.c:248-293 | the `while(1)` loop in place ends where the walk ends, with the same marker and payload |
| Jpeg.ReadJpeg | fastimage.c:238-317 | `fastimageReadJpeg` in place equals `Decode` on the reader's state |
| FastImage.Matches | fastimage.c:334-345 | the six signature tests: "BM" in the first two bytes, "\x89PNG", "GIF8", "RIFF", FF D8 in the first two bytes, and 0A 05 01 08 |
| FastImage.MatchesAtMostOne | fastimage.c:334-345 | a signature passes at most one of the six magic-number tests |
| FastImage.Classify | fastimage.c:332-345 | a tag other than `Unknown` is one whose test passes; `Error`, TGA and HEIF are never produced |
| FastImage.ClassifyExact | fastimage.c:332-345 | the classifier returns a format iff its test passes, whatever the test order |
| FastImage.ClassifyUnknown | fastimage.c:332-345 | `Unknown` iff no test passes |
| FastImage.Identify | fastimage.c:319-383 | a short signature gives the zeroed record (tag `Error`); otherwise the tag is the classified one or `Error`, and fields stay in range |
| FastImage.Decoders | fastimage.c:353-380 | the guarded decoder calls keep the stream and the mode, keep the classified tag or set `Error`, and keep fields in range |
| FastImage.OneDecoderRuns | fastimage.c:353-380 | exactly the decoder of the classified format runs, on the source just past the signature |
| FastImage.UndecodedFormatsAreZero | fastimage.c:324-376 | an unrecognised signature or RIFF leaves every numeric field zero |
| FastImage.Open | fastimage.c:319-383 | `fastimageOpen` in place equals `Identify` on the reader's initial state |
| FastImage.RunDecoders | fastimage.c:353-380 | the guarded decoder calls in place equal `Decoders` on the reader's state |

## Left out

- `fastimageOpenFile`, `fastimageOpenFileA`, `fastimageOpenFileW` and `fastimageOpenHttpW`: opening files and URLs, the `_wfopen` shim, WinHTTP sessions and URL splitting are I/O. The model stops at the reader interface.
- `fastimageFileRead` and `fastimageHttpRead` become `Source.Fetch`. A read returns every requested byte that remains. A transport error that ends a read early is not modelled.
- `Source.Fetch` differs from `fastimageHttpRead` when a read arrives in several pieces. Each `WinHttpReadData` call at fastimage.c:527 writes at the start of the buffer, not after the bytes already received. The front of the buffer is then overwritten and its tail is stale. The model returns the stream's bytes in order.
- `Bytes.SizeT` fixes `size_t` at 64 bits. On a 32-bit build the conversion of a negative BMP width or height, and the PCX extents, wrap mod 2^32 instead.
- `Source.SeekTo`: the HTTP seek also fails when `malloc` fails or the distance exceeds `SIZE_MAX`. Allocation failure is not modelled, and 64-bit offsets are unbounded integers.
- `test.c`, the command-line test driver, is not part of this model.
- TGA, WebP and HEIF have no decoder in the source, only placeholder comments. TGA and HEIF are never classified. RIFF is classified as WebP and returned undecoded.
- The `unsigned short`, `short` and `int` struct overlays depend on the host's byte order. The model fixes it to little-endian. This applies to BMP, PCX, GIF and the JPEG marker pairs.
- `FastImage.Identify` and `FastImage.Open` require the reader at offset 0. The decoders' absolute seek targets rely on it, and the source never checks it.
- Concurrency and reader errors that are neither short reads nor failed seeks are out of scope.
