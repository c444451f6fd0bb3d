/** The PNG decoder (`fastimageReadPng`). It completes the 8-byte signature
    (section 5.2 of ISO/IEC 15948), walks the chunk list (section 5.3: a
    4-byte big-endian length, a 4-byte type, the data, a 4-byte CRC) until a
    chunk of type IHDR, and reads the first 10 bytes of its data: width,
    height, bit depth and colour type (section 11.2.2). */
module Png {
  import opened Bytes
  import opened Source
  import opened Image

  /** Bytes 4 to 7 of the PNG signature. */
  const SignatureTail: seq<byte> := [0x0D, 0x0A, 0x1A, 0x0A]

  /** "IHDR". */
  const IhdrType: seq<byte> := [0x49, 0x48, 0x44, 0x52]

  /** The data length of a conforming IHDR chunk. */
  const IhdrLength: nat := 13

  /** Length and type of a chunk. */
  const ChunkHeadSize: nat := 8

  /** The IHDR fields the decoder reads: width, height, bit depth, colour type. */
  const IhdrMinSize: nat := 10

  datatype Ihdr = Ihdr(width: nat, height: nat, bitDepth: byte, colorType: byte)

  predicate Representable(h: Ihdr)
  {
    h.width < 0x1_0000_0000 && h.height < 0x1_0000_0000
  }

  function Parse(b: seq<byte>): (h: Ihdr)
    requires |b| == IhdrMinSize
    ensures Representable(h)
  {
    Ihdr(U32BE(b[0..4]), U32BE(b[4..8]), b[8], b[9])
  }

  function Encode(h: Ihdr): (b: seq<byte>)
    requires Representable(h)
    ensures |b| == IhdrMinSize
  {
    BE32(h.width) + BE32(h.height) + [h.bitDepth, h.colorType]
  }

  lemma ParseEncode(h: Ihdr)
    requires Representable(h)
    ensures Parse(Encode(h)) == h
  {
    var b := Encode(h);
    assert b[0..4] == BE32(h.width);
    assert b[4..8] == BE32(h.height);
    BE32RoundTrip(h.width);
    BE32RoundTrip(h.height);
  }

  /** The colour types of section 11.2.2 that the decoder accepts. */
  predicate KnownColorType(t: int)
  {
    t in {0, 2, 3, 4, 6}
  }

  /** What the decoder does to the record once IHDR is in hand: width and
      height, then channels by colour type (greyscale 1, truecolour 3,
      indexed 3 with a palette of `bitDepth` bits, greyscale with alpha 2,
      truecolour with alpha 4), then bits per pixel: 24 when there is a
      palette, else bit depth times channels. An unknown colour type sets
      `Error` after width and height were written. */
  function Apply(img: ImageInfo, h: Ihdr): (r: ImageInfo)
    ensures r.width == h.width && r.height == h.height
    ensures r.format == if KnownColorType(h.colorType) then img.format else Error
    ensures h.colorType == 0 ==> r.channels == 1 && r.palette == img.palette
    ensures h.colorType == 2 ==> r.channels == 3 && r.palette == img.palette
    ensures h.colorType == 3 ==> r.channels == 3 && r.palette == h.bitDepth
    ensures h.colorType == 4 ==> r.channels == 2 && r.palette == img.palette
    ensures h.colorType == 6 ==> r.channels == 4 && r.palette == img.palette
    ensures KnownColorType(h.colorType) ==>
              r.bitsPerPixel == if r.palette != 0 then 24 else h.bitDepth * r.channels
    ensures !KnownColorType(h.colorType) ==>
              r == img.(format := Error, width := h.width, height := h.height)
  {
    var sized := img.(width := h.width, height := h.height);
    var colored :=
      if h.colorType == 0 then sized.(channels := 1)
      else if h.colorType == 2 then sized.(channels := 3)
      else if h.colorType == 3 then sized.(channels := 3, palette := h.bitDepth)
      else if h.colorType == 4 then sized.(channels := 2)
      else if h.colorType == 6 then sized.(channels := 4)
      else sized.(format := Error);
    if !KnownColorType(h.colorType) then colored
    else if colored.palette != 0 then colored.(bitsPerPixel := 24)
    else colored.(bitsPerPixel := h.bitDepth * colored.channels)
  }

  /** Where the chunk walk stops: at an IHDR header, with its declared length
      and the source just past the header, or at a short read or failed seek. */
  datatype Scan = Found(length: nat, at: Cursor) | Failed(at: Cursor)

  /** The outcome of one pass of the walk: it stops, or it goes on from the
      next chunk header. */
  datatype Pass = Stop(result: Scan) | Continue(next: Cursor)

  /** One pass of the `while(1)` body of `fastimageReadPng`, from the chunk
      header at `offset`: read the 8-byte header; stop on a short read or at
      IHDR; otherwise seek to `offset + 8 + 4 + length`, past the chunk's data
      and its CRC, onto the next header. `offset` is the decoder's own count
      of the bytes consumed (`png_curr_offt`); the requires clause is the
      invariant that it equals the source position. A pass that goes on has
      consumed at least the header and the CRC. */
  function Step(c: Cursor, offset: nat): (s: Pass)
    requires offset == c.pos
    ensures s.Stop? ==> s.result.at.data == c.data && s.result.at.mode == c.mode
    ensures s.Stop? && s.result.Found? ==>
              && s.result.length < 0x1_0000_0000
              && s.result.at.pos == c.pos + ChunkHeadSize <= |c.data|
    ensures s.Continue? ==>
              && s.next.data == c.data && s.next.mode == c.mode
              && c.pos + ChunkHeadSize + 4 <= s.next.pos
              && Remaining(s.next) < Remaining(c)
  {
    var head := Fetch(c, ChunkHeadSize);
    if |head.bytes| != ChunkHeadSize then Stop(Failed(head.next))
    else
      var length := U32BE(head.bytes[0..4]);
      if head.bytes[4..8] == IhdrType then Stop(Found(length, head.next))
      else
        var target := offset + ChunkHeadSize + 4 + length;
        var sought := SeekTo(head.next, target);
        if !sought.ok then Stop(Failed(sought.next))
        else Continue(sought.next)
  }

  /** The chunk walk: passes until one stops. */
  function ScanChunks(c: Cursor, offset: nat): (r: Scan)
    requires offset == c.pos
    ensures r.at.data == c.data && r.at.mode == c.mode
    ensures r.Found? ==> r.length < 0x1_0000_0000
    ensures r.Found? ==> c.pos + ChunkHeadSize <= r.at.pos <= |c.data|
    decreases Remaining(c)
  {
    match Step(c, offset)
    case Stop(r) => r
    case Continue(next) => ScanChunks(next, next.pos)
  }

  /** The decoder on a source positioned after the first 4 signature bytes. */
  function Decode(c: Cursor, img: ImageInfo): (r: Decoded)
    requires c.pos == 4
    ensures r.image.format == img.format || r.image.format == Error
    ensures r.next.data == c.data && r.next.mode == c.mode
    ensures r.image.format != Error ==>
              4 + |SignatureTail| + ChunkHeadSize + IhdrMinSize <= |c.data|
              && c.data[4..8] == SignatureTail
    ensures InRange(img) ==> InRange(r.image)
  {
    var tail := Fetch(c, 4);
    if |tail.bytes| != 4 then Fail(img, tail.next)
    else if tail.bytes != SignatureTail then Fail(img, tail.next)
    else DecodeChunks(tail.next, img)
  }

  /** The rest of the decoder, once the signature is complete at offset 8:
      find IHDR, then check its length and read and apply its fields. */
  function DecodeChunks(c: Cursor, img: ImageInfo): (r: Decoded)
    requires c.pos == 8
    ensures r.image.format == img.format || r.image.format == Error
    ensures r.next.data == c.data && r.next.mode == c.mode
    ensures r.image.format != Error ==> c.pos + ChunkHeadSize + IhdrMinSize <= |c.data|
    ensures r.image.format != Error ==>
              var s := ScanChunks(c, 8);
              && s.Found? && s.length == IhdrLength
              && s.at.pos + IhdrMinSize <= |c.data|
              && r == Decoded(Apply(img, Parse(c.data[s.at.pos .. s.at.pos + IhdrMinSize])),
                              s.at.(pos := s.at.pos + IhdrMinSize))
    ensures InRange(img) ==> InRange(r.image)
  {
    var scan := ScanChunks(c, 8);
    assert scan.at.data == c.data;
    DecodeIhdr(scan, img)
  }

  /** What follows the walk: an IHDR chunk declaring length 13 whose first
      10 data bytes can be read yields the record `Apply` makes of them;
      anything else is an error. */
  function DecodeIhdr(scan: Scan, img: ImageInfo): (r: Decoded)
    ensures r.image.format == img.format || r.image.format == Error
    ensures r.next.data == scan.at.data && r.next.mode == scan.at.mode
    ensures r.image.format != Error ==>
              && scan.Found? && scan.length == IhdrLength
              && scan.at.pos + IhdrMinSize <= |scan.at.data|
              && r == Decoded(Apply(img, Parse(scan.at.data[scan.at.pos .. scan.at.pos + IhdrMinSize])),
                              scan.at.(pos := scan.at.pos + IhdrMinSize))
    ensures InRange(img) ==> InRange(r.image)
  {
    match scan
    case Failed(at) => Fail(img, at)
    case Found(length, at) =>
      if length != IhdrLength then Fail(img, at)
      else
        var fields := Fetch(at, IhdrMinSize);
        if |fields.bytes| != IhdrMinSize then Fail(img, fields.next)
        else Decoded(Apply(img, Parse(fields.bytes)), fields.next)
  }

  /** A chunk as it lies in the stream: big-endian data length, type, data
      and CRC (section 5.3). The decoder never checks the CRC. */
  datatype Chunk = Chunk(size: seq<byte>, kind: seq<byte>, body: seq<byte>, crc: seq<byte>)

  predicate WellFormedChunk(k: Chunk)
  {
    |k.size| == 4 && |k.kind| == 4 && |k.crc| == 4 && U32BE(k.size) == |k.body|
  }

  function ChunkBytes(k: Chunk): (b: seq<byte>)
    requires WellFormedChunk(k)
    ensures |b| == ChunkHeadSize + |k.body| + 4
  {
    k.size + k.kind + k.body + k.crc
  }

  /** A run of chunks, none of them IHDR. */
  predicate Skippable(ks: seq<Chunk>)
  {
    forall i :: 0 <= i < |ks| ==> WellFormedChunk(ks[i]) && ks[i].kind != IhdrType
  }

  function ChunkListBytes(ks: seq<Chunk>): (b: seq<byte>)
    requires Skippable(ks)
  {
    if ks == [] then [] else ChunkBytes(ks[0]) + ChunkListBytes(ks[1..])
  }

  /** Where the parts of a well-formed chunk at `p` lie; `q` is its end,
      just past the CRC. */
  lemma ChunkAt(d: seq<byte>, k: Chunk, p: nat, q: nat)
    requires WellFormedChunk(k)
    requires q == p + |ChunkBytes(k)| <= |d| && d[p .. q] == ChunkBytes(k)
    ensures d[p .. p + 4] == k.size && d[p + 4 .. p + ChunkHeadSize] == k.kind
    ensures q == p + ChunkHeadSize + 4 + U32BE(k.size)
  {
    SplitAt(d, p, k.size + k.kind, k.body + k.crc);
    SplitAt(d, p, k.size, k.kind);
  }

  /** A pass from a chunk header at `p` that is not IHDR: it seeks to `q`,
      past the data and the CRC the header announces. */
  lemma StepOverChunk(d: seq<byte>, mode: SeekMode, p: nat, q: nat)
    requires p + ChunkHeadSize <= |d| && d[p + 4 .. p + ChunkHeadSize] != IhdrType
    requires q == p + ChunkHeadSize + 4 + U32BE(d[p .. p + 4]) <= |d|
    ensures Step(Cursor(d, p, mode), p) == Continue(Cursor(d, q, mode))
  {
    var head := d[p .. p + ChunkHeadSize];
    FetchAt(Cursor(d, p, mode), ChunkHeadSize, head);
    assert head[0..4] == d[p .. p + 4] && head[4..8] == d[p + 4 .. p + ChunkHeadSize];
    SeekForward(Cursor(d, p + ChunkHeadSize, mode), q);
  }

  /** One step of the walk: a chunk that is not IHDR and lies wholly in the
      stream is skipped exactly, in either seek mode, landing on the header
      at `p`, just past the chunk's CRC. */
  lemma SkipChunk(c: Cursor, k: Chunk, p: nat)
    requires WellFormedChunk(k) && k.kind != IhdrType
    requires p == c.pos + |ChunkBytes(k)| <= |c.data|
    requires c.data[c.pos .. p] == ChunkBytes(k)
    ensures ScanChunks(c, c.pos) == ScanChunks(c.(pos := p), p)
  {
    ChunkAt(c.data, k, c.pos, p);
    StepOverChunk(c.data, c.mode, c.pos, p);
  }

  /** A non-empty run of chunks at `p`: its first chunk, and the rest from
      `r`. */
  lemma ChunkListLayout(d: seq<byte>, ks: seq<Chunk>, p: nat, q: nat, r: nat)
    requires Skippable(ks) && ks != []
    requires q == p + |ChunkListBytes(ks)| <= |d| && d[p .. q] == ChunkListBytes(ks)
    requires r == p + |ChunkBytes(ks[0])|
    ensures WellFormedChunk(ks[0]) && ks[0].kind != IhdrType && d[p .. r] == ChunkBytes(ks[0])
    ensures Skippable(ks[1..]) && q == r + |ChunkListBytes(ks[1..])| && d[r .. q] == ChunkListBytes(ks[1..])
  {
    SplitAt(d, p, ChunkBytes(ks[0]), ChunkListBytes(ks[1..]));
  }

  /** The whole walk over a run of chunks that are not IHDR, lying in the
      stream from the position up to `p`. */
  lemma {:induction false} SkipChunks(c: Cursor, ks: seq<Chunk>, p: nat)
    requires Skippable(ks)
    requires p == c.pos + |ChunkListBytes(ks)| <= |c.data|
    requires c.data[c.pos .. p] == ChunkListBytes(ks)
    ensures ScanChunks(c, c.pos) == ScanChunks(c.(pos := p), p)
    decreases |ks|
  {
    if ks != [] {
      var q := c.pos + |ChunkBytes(ks[0])|;
      ChunkListLayout(c.data, ks, c.pos, p, q);
      SkipChunk(c, ks[0], q);
      SkipChunks(c.(pos := q), ks[1..], p);
    }
  }

  /** A stream that holds, from offset 4 up to `k`, the rest of the PNG
      signature, any run of other chunks, an IHDR chunk header declaring
      length 13 and the first 10 bytes of its data decodes to the IHDR fields
      those bytes hold, in either seek mode. Whatever follows `k` (the rest of
      IHDR, its CRC, the image data) is never read. */
  lemma DecodeWellFormed(d: seq<byte>, mode: SeekMode, ks: seq<Chunk>, fields: seq<byte>, img: ImageInfo, k: nat)
    requires Skippable(ks) && |fields| == IhdrMinSize && 4 <= k <= |d|
    requires d[4..k] == SignatureTail + ChunkListBytes(ks) + [0, 0, 0, 13] + IhdrType + fields
    ensures Decode(Cursor(d, 4, mode), img) == Decoded(Apply(img, Parse(fields)), Cursor(d, k, mode))
  {
    var data := k - IhdrMinSize;
    WellFormedScan(d, mode, ks, fields, data, k);
    FetchAt(Cursor(d, 4, mode), 4, SignatureTail);
    FetchAt(Cursor(d, data, mode), IhdrMinSize, fields);
  }

  /** The walk part of `DecodeWellFormed`: it ends just past the IHDR chunk
      header, at offset `data`, having read the declared length 13. */
  lemma WellFormedScan(d: seq<byte>, mode: SeekMode, ks: seq<Chunk>, fields: seq<byte>, data: nat, k: nat)
    requires Skippable(ks) && |fields| == IhdrMinSize && 4 <= k <= |d| && data == k - IhdrMinSize
    requires d[4..k] == SignatureTail + ChunkListBytes(ks) + [0, 0, 0, 13] + IhdrType + fields
    ensures d[4..8] == SignatureTail && 8 <= data
    ensures ScanChunks(Cursor(d, 8, mode), 8) == Found(IhdrLength, Cursor(d, data, mode))
    ensures d[data .. k] == fields
  {
    var ihdr := 8 + |ChunkListBytes(ks)|;
    WellFormedLayout(d, ks, fields, ihdr, data, k);
    SkipChunks(Cursor(d, 8, mode), ks, ihdr);
    IhdrHeaderAt(Cursor(d, ihdr, mode), data);
  }

  /** Where the parts of a well-formed stream lie. */
  lemma WellFormedLayout(d: seq<byte>, ks: seq<Chunk>, fields: seq<byte>, ihdr: nat, data: nat, k: nat)
    requires Skippable(ks) && |fields| == IhdrMinSize && 4 <= k <= |d|
    requires ihdr == 8 + |ChunkListBytes(ks)| && data == k - IhdrMinSize
    requires d[4..k] == SignatureTail + ChunkListBytes(ks) + [0, 0, 0, 13] + IhdrType + fields
    ensures d[4..8] == SignatureTail && data == ihdr + ChunkHeadSize
    ensures d[8 .. ihdr] == ChunkListBytes(ks)
    ensures d[ihdr .. data] == [0, 0, 0, 13] + IhdrType
    ensures d[data .. k] == fields
  {
    var list := ChunkListBytes(ks);
    var header: seq<byte> := [0, 0, 0, 13] + IhdrType;
    SplitAt(d, 4, SignatureTail + list + header, fields);
    SplitAt(d, 4, SignatureTail + list, header);
    SplitAt(d, 4, SignatureTail, list);
  }

  /** An IHDR chunk header declaring length 13 at the position. */
  lemma IhdrHeaderAt(c: Cursor, data: nat)
    requires data == c.pos + ChunkHeadSize <= |c.data|
    requires c.data[c.pos .. data] == [0, 0, 0, 13] + IhdrType
    ensures Step(c, c.pos) == Stop(Found(IhdrLength, c.(pos := data)))
    ensures ScanChunks(c, c.pos) == Found(IhdrLength, c.(pos := data))
  {
    var head: seq<byte> := [0, 0, 0, 13] + IhdrType;
    FetchAt(c, ChunkHeadSize, head);
    assert head[0..4] == [0, 0, 0, 13] && head[4..8] == IhdrType;
  }

  /** A pass goes the same way on a file and on an HTTP body, except past the
      end: there the file seek succeeds where the HTTP seek fails, and the
      file walk then fails on the next header read. */
  lemma StepModes(d: seq<byte>, p: nat)
    requires p <= |d|
    ensures var s := Step(Cursor(d, p, Seekable), p);
            var t := Step(Cursor(d, p, ForwardOnly), p);
            t.Continue? ==> t.next.pos <= |d| && s == Continue(t.next.(mode := Seekable))
    ensures var s := Step(Cursor(d, p, Seekable), p);
            var t := Step(Cursor(d, p, ForwardOnly), p);
            t.Stop? && t.result.Found? ==> s == Stop(t.result.(at := t.result.at.(mode := Seekable)))
    ensures var s := Step(Cursor(d, p, Seekable), p);
            var t := Step(Cursor(d, p, ForwardOnly), p);
            t.Stop? && t.result.Failed? ==> (s.Stop? && s.result.Failed?) || (s.Continue? && |d| < s.next.pos)
  {
    var cs := Cursor(d, p, Seekable);
    var cf := Cursor(d, p, ForwardOnly);
    if p + ChunkHeadSize <= |d| {
      FetchAt(cs, ChunkHeadSize, d[p .. p + ChunkHeadSize]);
      FetchAt(cf, ChunkHeadSize, d[p .. p + ChunkHeadSize]);
    }
  }

  /** Both readers give the walk the same outcome: the file reader may seek
      past the end where the HTTP reader fails to seek, but the read that
      follows is then short, so both fail. */
  lemma {:induction false} ScanChunksModes(d: seq<byte>, p: nat)
    requires p <= |d|
    ensures var s := ScanChunks(Cursor(d, p, Seekable), p);
            var t := ScanChunks(Cursor(d, p, ForwardOnly), p);
            s.Found? == t.Found? && (s.Found? ==> s.length == t.length && s.at.pos == t.at.pos)
    decreases |d| - p
  {
    StepModes(d, p);
    var s := Step(Cursor(d, p, Seekable), p);
    var t := Step(Cursor(d, p, ForwardOnly), p);
    if t.Continue? {
      ScanChunksModes(d, t.next.pos);
    } else if s.Continue? {
      var n := s.next;
      assert Step(n, n.pos).Stop? && Step(n, n.pos).result.Failed?;
    }
  }

  /** The decoded record does not depend on the seek mode. */
  lemma DecodeModes(d: seq<byte>, img: ImageInfo)
    requires 4 <= |d|
    ensures Decode(Cursor(d, 4, Seekable), img).image == Decode(Cursor(d, 4, ForwardOnly), img).image
  {
    if 8 <= |d| {
      FetchAt(Cursor(d, 4, Seekable), 4, d[4..8]);
      FetchAt(Cursor(d, 4, ForwardOnly), 4, d[4..8]);
      DecodeChunksModes(d, img);
    }
  }

  lemma DecodeChunksModes(d: seq<byte>, img: ImageInfo)
    requires 8 <= |d|
    ensures DecodeChunks(Cursor(d, 8, Seekable), img).image == DecodeChunks(Cursor(d, 8, ForwardOnly), img).image
  {
    ScanChunksModes(d, 8);
    DecodeIhdrModes(ScanChunks(Cursor(d, 8, Seekable), 8), ScanChunks(Cursor(d, 8, ForwardOnly), 8), img);
  }

  /** Walks that end the same way over the same stream lead to the same
      record. */
  lemma DecodeIhdrModes(s: Scan, t: Scan, img: ImageInfo)
    requires s.Found? == t.Found? && (s.Found? ==> s.length == t.length && s.at.pos == t.at.pos)
    requires s.at.data == t.at.data
    ensures DecodeIhdr(s, img).image == DecodeIhdr(t, img).image
  {
    if s.Found? {
      assert Fetch(s.at, IhdrMinSize).bytes == Fetch(t.at, IhdrMinSize).bytes;
    }
  }

  /** One pass of the loop in place: `done` when the walk stops, `found`
      when it stops at IHDR with the declared `length`; otherwise the walk
      goes on with `consumed'` bytes consumed. */
  method TakeStep(reader: Reader, consumed: nat) returns (done: bool, found: bool, length: nat, consumed': nat)
    requires consumed == reader.pos
    modifies reader
    ensures done ==> Step(old(reader.State()), consumed)
                     == Stop(if found then Found(length, reader.State()) else Failed(reader.State()))
    ensures !done ==> Step(old(reader.State()), consumed) == Continue(reader.State())
    ensures !done ==> consumed' == reader.pos
  {
    consumed' := consumed;
    var head := reader.Read(ChunkHeadSize);
    if |head| != ChunkHeadSize {
      return true, false, 0, consumed';
    }
    consumed' := consumed' + ChunkHeadSize;
    length := U32BE(head[0..4]);
    if head[4..8] == IhdrType {
      return true, true, length, consumed';
    }
    consumed' := consumed' + 4 + length;
    var ok := reader.Seek(consumed');
    if !ok {
      return true, false, 0, consumed';
    }
    done, found := false, false;
  }

  /** The `while(1)` loop of `fastimageReadPng`: the chunk walk in place.
      `found` is false exactly when the walk failed on a read or a seek. */
  method FindIhdr(reader: Reader, offset: nat) returns (found: bool, length: nat)
    requires offset == reader.pos
    modifies reader
    ensures found ==> ScanChunks(old(reader.State()), offset) == Found(length, reader.State())
    ensures !found ==> ScanChunks(old(reader.State()), offset) == Failed(reader.State())
  {
    ghost var start := reader.State();
    var consumed := offset;
    while true
      invariant consumed == reader.pos
      invariant reader.data == start.data && reader.mode == start.mode
      invariant ScanChunks(reader.State(), consumed) == ScanChunks(start, offset)
      decreases Remaining(reader.State())
    {
      var done;
      done, found, length, consumed := TakeStep(reader, consumed);
      if done {
        return;
      }
    }
  }

  /** The colour-type switch and the bits-per-pixel rule of `fastimageReadPng`. */
  method ApplyIhdr(image: ImageInfo, header: Ihdr) returns (result: ImageInfo)
    ensures result == Apply(image, header)
  {
    result := image.(width := header.width, height := header.height);
    if header.colorType == 0 {
      result := result.(channels := 1);
    } else if header.colorType == 2 {
      result := result.(channels := 3);
    } else if header.colorType == 3 {
      result := result.(channels := 3, palette := header.bitDepth);
    } else if header.colorType == 4 {
      result := result.(channels := 2);
    } else if header.colorType == 6 {
      result := result.(channels := 4);
    } else {
      result := result.(format := Error);
      return;
    }
    if result.palette != 0 {
      result := result.(bitsPerPixel := 24);
    } else {
      result := result.(bitsPerPixel := header.bitDepth * result.channels);
    }
  }

  /** `fastimageReadPng`. */
  method ReadPng(reader: Reader, image: ImageInfo) returns (result: ImageInfo)
    requires reader.pos == 4
    modifies reader
    ensures Decoded(result, reader.State()) == Decode(old(reader.State()), image)
  {
    result := image;
    var offset: nat := 4;
    var bytes := reader.Read(4);
    if |bytes| != 4 {
      result := result.(format := Error);
      return;
    }
    offset := offset + 4;
    if bytes != SignatureTail {
      result := result.(format := Error);
      return;
    }
    var found, length := FindIhdr(reader, offset);
    if !found {
      result := result.(format := Error);
      return;
    }
    if length != IhdrLength {
      result := result.(format := Error);
      return;
    }
    bytes := reader.Read(IhdrMinSize);
    if |bytes| != IhdrMinSize {
      result := result.(format := Error);
      return;
    }
    result := ApplyIhdr(result, Parse(bytes));
  }
}
