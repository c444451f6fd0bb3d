/** The JPEG decoder (`fastimageReadJpeg`). The stream is a sequence of
    marker segments (section B.1.1.4 of ITU-T T.81): a 2-byte marker, then a
    big-endian length that counts itself. The decoder skips segments until a
    start-of-frame marker SOF0, SOF1 or SOF2 (Table B.1) and reads the first
    6 bytes of its frame header (section B.2.2): sample precision, number of
    lines (height), samples per line (width), number of components. */
module Jpeg {
  import opened Bytes
  import opened Source
  import opened Image

  /** The marker pair FF Cn read as a little-endian `unsigned short`. */
  const Sof0: nat := 0xC0FF
  const Sof1: nat := 0xC1FF
  const Sof2: nat := 0xC2FF

  /** The frame-header fields the decoder reads. */
  const FrameMinSize: nat := 6

  predicate IsFrameMarker(marker: nat)
  {
    marker == Sof0 || marker == Sof1 || marker == Sof2
  }

  /** A marker pair stops the walk exactly when it is FF C0, FF C1 or FF C2;
      any other pair, including one whose first byte is not FF, is taken for a
      segment with a length field. */
  lemma FrameMarkerBytes(m: seq<byte>)
    requires |m| == 2
    ensures IsFrameMarker(U16LE(m)) <==> m[0] == 0xFF && m[1] in {0xC0, 0xC1, 0xC2}
  {
  }

  datatype Frame = Frame(precision: byte, height: nat, width: nat, components: byte)

  predicate Representable(f: Frame)
  {
    f.height < 0x1_0000 && f.width < 0x1_0000
  }

  function Parse(b: seq<byte>): (f: Frame)
    requires |b| == FrameMinSize
    ensures Representable(f)
  {
    Frame(b[0], U16BE(b[1..3]), U16BE(b[3..5]), b[5])
  }

  function Encode(f: Frame): (b: seq<byte>)
    requires Representable(f)
    ensures |b| == FrameMinSize
  {
    [f.precision] + BE16(f.height) + BE16(f.width) + [f.components]
  }

  lemma ParseEncode(f: Frame)
    requires Representable(f)
    ensures Parse(Encode(f)) == f
  {
    var b := Encode(f);
    assert b[1..3] == BE16(f.height);
    assert b[3..5] == BE16(f.width);
    BE16RoundTrip(f.height);
    BE16RoundTrip(f.width);
  }

  /** What the decoder does to the record with the frame header in hand:
      width from bytes 3-4, height from bytes 1-2, one channel per component,
      and bits per pixel = components * precision. */
  function Apply(img: ImageInfo, f: Frame): (r: ImageInfo)
    ensures r.format == img.format && r.palette == img.palette
    ensures r.width == f.width && r.height == f.height
    ensures r.channels == f.components && r.bitsPerPixel == f.components * f.precision
    ensures r.bitsPerPixel < 0x1_0000
  {
    img.(width := f.width, height := f.height, channels := f.components,
         bitsPerPixel := f.components * f.precision)
  }

  /** Where the segment walk stops: at a segment with a frame marker, with
      its payload size (length - 2) and the source just past the length
      field, or at a short read, a length below 2, or a failed seek. */
  datatype Scan = Found(marker: nat, payload: nat, at: Cursor) | Failed(at: Cursor)

  /** The outcome of one pass of the walk: it stops, or it goes on from the
      next marker pair with the source just past it. */
  datatype Pass = Stop(result: Scan) | Continue(next: Cursor, marker: nat)

  /** One pass of the `while(1)` body of `fastimageReadJpeg`, the source just
      past the 2-byte `marker`: read the big-endian segment length; stop on a
      short read, a length below 2, or a frame marker; otherwise seek over
      the payload and read the next marker pair. `offset` is the decoder's
      count of bytes consumed (`jpg_curr_offt`); the requires clause is the
      invariant that it equals the source position. A pass that goes on
      consumes at least the length field and the next marker. */
  function Step(c: Cursor, offset: nat, marker: nat): (s: Pass)
    requires offset == c.pos
    ensures s.Stop? ==> s.result.at.data == c.data && s.result.at.mode == c.mode
    ensures s.Stop? && s.result.Found? ==>
              && s.result.marker == marker && IsFrameMarker(marker)
              && s.result.at.pos == c.pos + 2 <= |c.data|
    ensures s.Continue? ==>
              && !IsFrameMarker(marker)
              && s.next.data == c.data && s.next.mode == c.mode
              && c.pos + 4 <= s.next.pos <= |c.data|
  {
    var size := Fetch(c, 2);
    if |size.bytes| != 2 then Stop(Failed(size.next))
    else
      var length := U16BE(size.bytes);
      if length < 2 then Stop(Failed(size.next))
      else if IsFrameMarker(marker) then Stop(Found(marker, length - 2, size.next))
      else
        var target := offset + 2 + (length - 2);
        var sought := SeekTo(size.next, target);
        if !sought.ok then Stop(Failed(sought.next))
        else
          var next := Fetch(sought.next, 2);
          if |next.bytes| != 2 then Stop(Failed(next.next))
          else Continue(next.next, U16LE(next.bytes))
  }

  /** The segment walk: passes until one stops. */
  function ScanSegments(c: Cursor, offset: nat, marker: nat): (r: Scan)
    requires offset == c.pos
    ensures r.at.data == c.data && r.at.mode == c.mode
    ensures r.Found? ==> IsFrameMarker(r.marker)
    ensures r.Found? ==> c.pos + 2 <= r.at.pos <= |c.data|
    decreases Remaining(c)
  {
    match Step(c, offset, marker)
    case Stop(r) => r
    case Continue(next, m) => ScanSegments(next, next.pos, m)
  }

  /** A pass that goes on from the marker pair at `p` to the one at `q`
      hands the walk to the next marker. */
  lemma ScanContinues(d: seq<byte>, mode: SeekMode, p: nat, q: nat, marker: nat, next: nat)
    requires Step(Cursor(d, p + 2, mode), p + 2, marker) == Continue(Cursor(d, q + 2, mode), next)
    ensures ScanSegments(Cursor(d, p + 2, mode), p + 2, marker) == ScanSegments(Cursor(d, q + 2, mode), q + 2, next)
  {
  }

  /** A pass fails on a short read of the length field, on a length below 2
      and when the payload reaches past the end of the stream, and goes on
      exactly when the length is well-formed, the marker is not a frame
      marker and the next marker pair lies inside the stream. */
  lemma StepOutcome(c: Cursor, marker: nat)
    requires c.pos <= |c.data|
    ensures |c.data| < c.pos + 2 ==> Step(c, c.pos, marker).Stop? && Step(c, c.pos, marker).result.Failed?
    ensures c.pos + 2 <= |c.data| ==>
              var length := U16BE(c.data[c.pos .. c.pos + 2]);
              && (length < 2 ==> Step(c, c.pos, marker) == Stop(Failed(c.(pos := c.pos + 2))))
              && (2 <= length && IsFrameMarker(marker) ==>
                    Step(c, c.pos, marker) == Stop(Found(marker, length - 2, c.(pos := c.pos + 2))))
              && (2 <= length && !IsFrameMarker(marker) ==>
                    (Step(c, c.pos, marker).Continue? <==> c.pos + length + 2 <= |c.data|))
  {
    if c.pos + 2 <= |c.data| {
      FetchAt(c, 2, c.data[c.pos .. c.pos + 2]);
      var length := U16BE(c.data[c.pos .. c.pos + 2]);
      var t := c.pos + length;
      if 2 <= length && !IsFrameMarker(marker) && t <= |c.data| {
        SeekForward(c.(pos := c.pos + 2), t);
      }
    }
  }

  /** Two walks end the same way: both fail, or both find the same frame
      marker with the same payload size at the same position. */
  predicate Agree(s: Scan, t: Scan)
  {
    && s.Found? == t.Found?
    && (s.Found? ==> s.marker == t.marker && s.payload == t.payload && s.at.pos == t.at.pos)
  }

  /** A pass goes the same way on a file and on an HTTP body. A file seek
      past the end succeeds where the HTTP seek fails, but the read of the
      next marker that follows it is short, so the pass fails either way. */
  lemma StepModes(d: seq<byte>, p: nat, marker: nat)
    requires p <= |d|
    ensures var s := Step(Cursor(d, p, Seekable), p, marker);
            var t := Step(Cursor(d, p, ForwardOnly), p, marker);
            && s.Stop? == t.Stop?
            && (s.Stop? ==> Agree(s.result, t.result))
            && (s.Continue? ==> s.next.pos == t.next.pos && s.marker == t.marker)
  {
    var cs := Cursor(d, p, Seekable);
    var cf := Cursor(d, p, ForwardOnly);
    if p + 2 <= |d| {
      FetchAt(cs, 2, d[p .. p + 2]);
      FetchAt(cf, 2, d[p .. p + 2]);
      var length := U16BE(d[p .. p + 2]);
      var t := p + length;
      if 2 <= length && !IsFrameMarker(marker) && t <= |d| {
        SeekForward(cs.(pos := p + 2), t);
        SeekForward(cf.(pos := p + 2), t);
        if t + 2 <= |d| {
          FetchAt(cs.(pos := t), 2, d[t .. t + 2]);
          FetchAt(cf.(pos := t), 2, d[t .. t + 2]);
        }
      }
    }
  }

  /** The walk ends the same way on a file and on an HTTP body. */
  lemma {:induction false} ScanSegmentsModes(d: seq<byte>, p: nat, marker: nat)
    requires p <= |d|
    ensures Agree(ScanSegments(Cursor(d, p, Seekable), p, marker), ScanSegments(Cursor(d, p, ForwardOnly), p, marker))
    decreases |d| - p
  {
    StepModes(d, p, marker);
    var s := Step(Cursor(d, p, Seekable), p, marker);
    if s.Continue? {
      var t := Step(Cursor(d, p, ForwardOnly), p, marker);
      assert s.next == Cursor(d, s.next.pos, Seekable);
      assert t.next == Cursor(d, s.next.pos, ForwardOnly);
      ScanSegmentsModes(d, s.next.pos, s.marker);
    }
  }

  /** A segment the walk steps over: its marker pair (not a frame marker),
      its big-endian length field, and the payload the length announces. */
  datatype Segment = Segment(marker: seq<byte>, size: seq<byte>, payload: seq<byte>)

  predicate WellFormedSegment(s: Segment)
  {
    && |s.marker| == 2 && |s.size| == 2
    && U16BE(s.size) == |s.payload| + 2
    && !IsFrameMarker(U16LE(s.marker))
  }

  function SegmentBytes(s: Segment): (b: seq<byte>)
    ensures |b| == |s.marker| + |s.size| + |s.payload|
  {
    s.marker + (s.size + s.payload)
  }

  function SegmentListBytes(ss: seq<Segment>): seq<byte>
  {
    if ss == [] then [] else SegmentBytes(ss[0]) + SegmentListBytes(ss[1..])
  }

  predicate Skippable(ss: seq<Segment>)
  {
    forall i :: 0 <= i < |ss| ==> WellFormedSegment(ss[i])
  }

  /** Where the parts of a well-formed segment at `p` lie; `q` is its end. */
  lemma SegmentAt(d: seq<byte>, s: Segment, p: nat, q: nat)
    requires WellFormedSegment(s)
    requires q == p + |SegmentBytes(s)| <= |d| && d[p .. q] == SegmentBytes(s)
    ensures d[p .. p + 2] == s.marker && d[p + 2 .. p + 4] == s.size
    ensures q == p + 2 + U16BE(s.size)
  {
    SplitAt(d, p, s.marker, s.size + s.payload);
    SplitAt(d, p + 2, s.size, s.payload);
  }

  /** A pass from the marker pair at `p`, not a frame marker: it reads the
      length field after it, seeks to `q`, the end of the segment, and reads
      the marker pair there. */
  lemma StepOver(d: seq<byte>, mode: SeekMode, p: nat, q: nat)
    requires p + 4 <= |d| && 2 <= U16BE(d[p + 2 .. p + 4]) && q == p + 2 + U16BE(d[p + 2 .. p + 4])
    requires q + 2 <= |d| && !IsFrameMarker(U16LE(d[p .. p + 2]))
    ensures Step(Cursor(d, p + 2, mode), p + 2, U16LE(d[p .. p + 2]))
            == Continue(Cursor(d, q + 2, mode), U16LE(d[q .. q + 2]))
  {
    FetchAt(Cursor(d, p + 2, mode), 2, d[p + 2 .. p + 4]);
    SeekForward(Cursor(d, p + 4, mode), q);
    FetchAt(Cursor(d, q, mode), 2, d[q .. q + 2]);
  }

  /** The walk from the marker pair at `p`, not a frame marker, whose length
      field reaches to `q`: it goes on from the marker pair at `q`. */
  lemma SkipAt(d: seq<byte>, mode: SeekMode, p: nat, q: nat)
    requires p + 4 <= |d| && 2 <= U16BE(d[p + 2 .. p + 4]) && q == p + 2 + U16BE(d[p + 2 .. p + 4])
    requires q + 2 <= |d| && !IsFrameMarker(U16LE(d[p .. p + 2]))
    ensures ScanSegments(Cursor(d, p + 2, mode), p + 2, U16LE(d[p .. p + 2]))
            == ScanSegments(Cursor(d, q + 2, mode), q + 2, U16LE(d[q .. q + 2]))
  {
    StepOver(d, mode, p, q);
    ScanContinues(d, mode, p, q, U16LE(d[p .. p + 2]), U16LE(d[q .. q + 2]));
  }

  /** The walk steps over the segment at `p` and goes on from the marker at
      `q`. */
  lemma SkipSegment(d: seq<byte>, mode: SeekMode, s: Segment, p: nat, q: nat)
    requires WellFormedSegment(s)
    requires q == p + |SegmentBytes(s)| && q + 2 <= |d| && d[p .. q] == SegmentBytes(s)
    ensures ScanSegments(Cursor(d, p + 2, mode), p + 2, U16LE(d[p .. p + 2]))
            == ScanSegments(Cursor(d, q + 2, mode), q + 2, U16LE(d[q .. q + 2]))
  {
    SegmentAt(d, s, p, q);
    SkipAt(d, mode, p, q);
  }

  /** A non-empty list of segments at `p`: its first segment, and the rest
      from `r`. */
  lemma SegmentListLayout(d: seq<byte>, ss: seq<Segment>, p: nat, q: nat, r: nat)
    requires Skippable(ss) && ss != []
    requires q == p + |SegmentListBytes(ss)| && q <= |d| && d[p .. q] == SegmentListBytes(ss)
    requires r == p + |SegmentBytes(ss[0])|
    ensures WellFormedSegment(ss[0]) && d[p .. r] == SegmentBytes(ss[0])
    ensures Skippable(ss[1..]) && q == r + |SegmentListBytes(ss[1..])| && d[r .. q] == SegmentListBytes(ss[1..])
  {
    SplitAt(d, p, SegmentBytes(ss[0]), SegmentListBytes(ss[1..]));
    forall i | 0 <= i < |ss[1..]| ensures WellFormedSegment(ss[1..][i]) {
      assert ss[1..][i] == ss[i + 1];
    }
  }

  /** The walk steps over a whole list of segments. */
  lemma {:induction false} SkipSegmentList(d: seq<byte>, mode: SeekMode, ss: seq<Segment>, p: nat, q: nat)
    requires Skippable(ss)
    requires q == p + |SegmentListBytes(ss)| && q + 2 <= |d| && d[p .. q] == SegmentListBytes(ss)
    ensures ScanSegments(Cursor(d, p + 2, mode), p + 2, U16LE(d[p .. p + 2]))
            == ScanSegments(Cursor(d, q + 2, mode), q + 2, U16LE(d[q .. q + 2]))
    decreases |ss|
  {
    if ss != [] {
      var r := p + |SegmentBytes(ss[0])|;
      SegmentListLayout(d, ss, p, q, r);
      SkipSegment(d, mode, ss[0], p, r);
      SkipSegmentList(d, mode, ss[1..], r, q);
    }
  }

  /** The decoder on a source positioned after the 4 signature bytes, whose
      last two are the first marker pair. */
  function Decode(c: Cursor, sign: seq<byte>, img: ImageInfo): (r: Decoded)
    requires c.pos == 4 && |sign| == 4
    ensures r.image.format == img.format || r.image.format == Error
    ensures r.next.data == c.data && r.next.mode == c.mode
    ensures r.image.format != Error ==> 4 + 2 + FrameMinSize <= |c.data|
    ensures r.image.format != Error ==>
              var s := ScanSegments(c, 4, U16LE(sign[2..4]));
              && s.Found? && IsFrameMarker(s.marker) && FrameMinSize <= s.payload
              && s.at.pos + FrameMinSize <= |c.data|
              && r == Decoded(Apply(img, Parse(c.data[s.at.pos .. s.at.pos + FrameMinSize])),
                              s.at.(pos := s.at.pos + FrameMinSize))
    ensures InRange(img) ==> InRange(r.image)
  {
    var scan := ScanSegments(c, 4, U16LE(sign[2..4]));
    assert scan.at.data == c.data;
    DecodeFrame(scan, img)
  }

  /** What follows the walk: a frame whose payload holds the 6 fields
      yields the record `Apply` makes of them; anything else is an error. */
  function DecodeFrame(scan: Scan, img: ImageInfo): (r: Decoded)
    ensures r.image.format == img.format || r.image.format == Error
    ensures r.next.data == scan.at.data && r.next.mode == scan.at.mode
    ensures r.image.format != Error ==>
              && scan.Found? && IsFrameMarker(scan.marker) && FrameMinSize <= scan.payload
              && scan.at.pos + FrameMinSize <= |scan.at.data|
              && r == Decoded(Apply(img, Parse(scan.at.data[scan.at.pos .. scan.at.pos + FrameMinSize])),
                              scan.at.(pos := scan.at.pos + FrameMinSize))
    ensures img.format != Error && r.image.format == Error ==> r.image == img.(format := Error)
    ensures InRange(img) ==> InRange(r.image)
  {
    match scan
    case Failed(at) => Fail(img, at)
    case Found(frame, payload, at) =>
      if !IsFrameMarker(frame) then Fail(img, at)
      else if payload < FrameMinSize then Fail(img, at)
      else
        var fields := Fetch(at, FrameMinSize);
        if |fields.bytes| != FrameMinSize then Fail(img, fields.next)
        else Decoded(Apply(img, Parse(fields.bytes)), fields.next)
  }

  /** The decoder gives the same record on a file and on an HTTP body. */
  lemma DecodeModes(d: seq<byte>, sign: seq<byte>, img: ImageInfo)
    requires 4 <= |d| && |sign| == 4
    ensures Decode(Cursor(d, 4, Seekable), sign, img).image == Decode(Cursor(d, 4, ForwardOnly), sign, img).image
  {
    var marker := U16LE(sign[2..4]);
    ScanSegmentsModes(d, 4, marker);
    DecodeFrameModes(ScanSegments(Cursor(d, 4, Seekable), 4, marker), ScanSegments(Cursor(d, 4, ForwardOnly), 4, marker), img);
  }

  /** Walks that agree over the same stream lead to the same record. */
  lemma DecodeFrameModes(s: Scan, t: Scan, img: ImageInfo)
    requires Agree(s, t) && s.at.data == t.at.data
    ensures DecodeFrame(s, img).image == DecodeFrame(t, img).image
  {
    if s.Found? {
      assert Fetch(s.at, FrameMinSize).bytes == Fetch(t.at, FrameMinSize).bytes;
    }
  }

  /** Where the parts of a well-formed stream lie: the segments from offset
      2, then the frame marker at `q`, its length field and its fields. */
  lemma WellFormedLayout(d: seq<byte>, ss: seq<Segment>, marker: seq<byte>, size: seq<byte>, fields: seq<byte>, q: nat)
    requires |marker| == 2 && |size| == 2 && |fields| == FrameMinSize
    requires q == 2 + |SegmentListBytes(ss)| && q + 4 + FrameMinSize <= |d|
    requires d[2 .. q + 4 + FrameMinSize] == SegmentListBytes(ss) + marker + size + fields
    ensures d[2 .. q] == SegmentListBytes(ss) && d[q .. q + 2] == marker
    ensures d[q + 2 .. q + 4] == size && d[q + 4 .. q + 4 + FrameMinSize] == fields
  {
    SplitAt(d, 2, SegmentListBytes(ss) + marker + size, fields);
    SplitAt(d, 2, SegmentListBytes(ss) + marker, size);
    SplitAt(d, 2, SegmentListBytes(ss), marker);
  }

  /** A frame marker pair at `q` with a length of at least 2: the walk
      stops there, just past the length field. */
  lemma FrameAt(d: seq<byte>, mode: SeekMode, marker: seq<byte>, size: seq<byte>, q: nat)
    requires |marker| == 2 && IsFrameMarker(U16LE(marker)) && |size| == 2 && U16BE(size) >= 2
    requires q + 4 <= |d| && d[q .. q + 2] == marker && d[q + 2 .. q + 4] == size
    ensures ScanSegments(Cursor(d, q + 2, mode), q + 2, U16LE(d[q .. q + 2]))
            == Found(U16LE(marker), U16BE(size) - 2, Cursor(d, q + 4, mode))
  {
    FetchAt(Cursor(d, q + 2, mode), 2, size);
  }

  /** The walk over a well-formed stream stops at its frame marker, just
      past the length field. */
  lemma WellFormedScan(d: seq<byte>, mode: SeekMode, ss: seq<Segment>, marker: seq<byte>, size: seq<byte>, q: nat)
    requires Skippable(ss) && |marker| == 2 && IsFrameMarker(U16LE(marker))
    requires |size| == 2 && U16BE(size) >= 2
    requires q == 2 + |SegmentListBytes(ss)| && q + 4 <= |d|
    requires d[2 .. q] == SegmentListBytes(ss) && d[q .. q + 2] == marker && d[q + 2 .. q + 4] == size
    ensures ScanSegments(Cursor(d, 4, mode), 4, U16LE(d[2..4]))
            == Found(U16LE(marker), U16BE(size) - 2, Cursor(d, q + 4, mode))
  {
    SkipSegmentList(d, mode, ss, 2, q);
    FrameAt(d, mode, marker, size, q);
  }

  /** A well-formed stream: after the SOI pair, segments the walk steps over,
      then a frame marker whose length covers the 6 fields. The decoder
      returns the record `Apply` makes of those fields, in either mode. */
  lemma DecodeWellFormed(d: seq<byte>, mode: SeekMode, ss: seq<Segment>, marker: seq<byte>,
                         size: seq<byte>, fields: seq<byte>, img: ImageInfo, q: nat)
    requires Skippable(ss) && |marker| == 2 && IsFrameMarker(U16LE(marker))
    requires |size| == 2 && U16BE(size) >= 2 + FrameMinSize && |fields| == FrameMinSize
    requires q == 2 + |SegmentListBytes(ss)| && q + 4 + FrameMinSize <= |d|
    requires d[2 .. q + 4 + FrameMinSize] == SegmentListBytes(ss) + marker + size + fields
    ensures Decode(Cursor(d, 4, mode), d[..4], img)
            == Decoded(Apply(img, Parse(fields)), Cursor(d, q + 4 + FrameMinSize, mode))
  {
    WellFormedLayout(d, ss, marker, size, fields, q);
    DecodeLaidOut(d, mode, ss, marker, size, fields, img, q);
  }

  /** `DecodeWellFormed` with the parts of the stream already located. */
  lemma DecodeLaidOut(d: seq<byte>, mode: SeekMode, ss: seq<Segment>, marker: seq<byte>,
                      size: seq<byte>, fields: seq<byte>, img: ImageInfo, q: nat)
    requires Skippable(ss) && |marker| == 2 && IsFrameMarker(U16LE(marker))
    requires |size| == 2 && U16BE(size) >= 2 + FrameMinSize && |fields| == FrameMinSize
    requires q == 2 + |SegmentListBytes(ss)| && q + 4 + FrameMinSize <= |d|
    requires d[2 .. q] == SegmentListBytes(ss) && d[q .. q + 2] == marker
    requires d[q + 2 .. q + 4] == size && d[q + 4 .. q + 4 + FrameMinSize] == fields
    ensures Decode(Cursor(d, 4, mode), d[..4], img)
            == Decoded(Apply(img, Parse(fields)), Cursor(d, q + 4 + FrameMinSize, mode))
  {
    assert d[..4][2..4] == d[2..4];
    WellFormedScan(d, mode, ss, marker, size, q);
    FrameFields(d, mode, U16LE(marker), U16BE(size) - 2, fields, q + 4, img);
  }

  /** A frame found with room for the 6 fields, which lie in the stream at
      `p`: the decoder reads them and applies them. */
  lemma FrameFields(d: seq<byte>, mode: SeekMode, marker: nat, payload: nat, fields: seq<byte>, p: nat, img: ImageInfo)
    requires IsFrameMarker(marker) && FrameMinSize <= payload && |fields| == FrameMinSize
    requires p + FrameMinSize <= |d| && d[p .. p + FrameMinSize] == fields
    ensures DecodeFrame(Found(marker, payload, Cursor(d, p, mode)), img)
            == Decoded(Apply(img, Parse(fields)), Cursor(d, p + FrameMinSize, mode))
  {
    FetchAt(Cursor(d, p, mode), FrameMinSize, fields);
  }

  /** One pass of the loop in place: `done` when the walk stops, `found`
      when it stops at a frame marker; otherwise the walk goes on from `next`
      with `consumed'` bytes consumed. */
  method TakeStep(reader: Reader, consumed: nat, marker: nat)
    returns (done: bool, found: bool, next: nat, payload: nat, consumed': nat)
    requires consumed == reader.pos
    modifies reader
    ensures done ==> Step(old(reader.State()), consumed, marker)
                     == Stop(if found then Found(marker, payload, reader.State()) else Failed(reader.State()))
    ensures !done ==> Step(old(reader.State()), consumed, marker) == Continue(reader.State(), next)
    ensures !done ==> consumed' == reader.pos
  {
    next, consumed' := marker, consumed;
    var bytes := reader.Read(2);
    if |bytes| != 2 {
      return true, false, next, 0, consumed';
    }
    consumed' := consumed' + 2;
    var length := U16BE(bytes);
    if length < 2 {
      return true, false, next, 0, consumed';
    }
    payload := length - 2;
    if marker == Sof0 || marker == Sof1 || marker == Sof2 {
      return true, true, next, payload, consumed';
    }
    consumed' := consumed' + payload;
    var ok := reader.Seek(consumed');
    if !ok {
      return true, false, next, 0, consumed';
    }
    bytes := reader.Read(2);
    if |bytes| != 2 {
      return true, false, next, 0, consumed';
    }
    next := U16LE(bytes);
    consumed' := consumed' + 2;
    done, found := false, false;
  }

  /** The `while(1)` loop of `fastimageReadJpeg`: the segment walk in place.
      `found` is false exactly when the walk failed. */
  method SkipSegments(reader: Reader, marker: nat) returns (found: bool, frame: nat, payload: nat)
    requires reader.pos == 4
    modifies reader
    ensures found ==> ScanSegments(old(reader.State()), 4, marker) == Found(frame, payload, reader.State())
    ensures !found ==> ScanSegments(old(reader.State()), 4, marker) == Failed(reader.State())
  {
    ghost var start := reader.State();
    var consumed: nat := 4;
    frame := marker;
    while true
      invariant consumed == reader.pos
      invariant reader.data == start.data && reader.mode == start.mode
      invariant ScanSegments(reader.State(), consumed, frame) == ScanSegments(start, 4, marker)
      decreases Remaining(reader.State())
    {
      var done, next;
      done, found, next, payload, consumed := TakeStep(reader, consumed, frame);
      if done {
        return;
      }
      frame := next;
    }
  }

  /** `fastimageReadJpeg`. */
  method ReadJpeg(reader: Reader, sign: seq<byte>, image: ImageInfo) returns (result: ImageInfo)
    requires reader.pos == 4 && |sign| == 4
    modifies reader
    ensures Decoded(result, reader.State()) == Decode(old(reader.State()), sign, image)
  {
    result := image;
    var found, marker, payload := SkipSegments(reader, U16LE(sign[2..4]));
    if !found {
      result := result.(format := Error);
      return;
    }
    if marker == Sof0 || marker == Sof1 || marker == Sof2 {
      if payload < FrameMinSize {
        result := result.(format := Error);
        return;
      }
      var bytes := reader.Read(FrameMinSize);
      if |bytes| != FrameMinSize {
        result := result.(format := Error);
        return;
      }
      result := Apply(result, Parse(bytes));
    } else {
      result := result.(format := Error);
    }
  }
}
