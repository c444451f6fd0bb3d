/** The byte source the decoders consume (`fastimage_reader_t`): a read
    capability that may return fewer bytes than asked for, and an absolute
    seek that reports success. A `Cursor` is the source's state as a value;
    `Fetch` and `SeekTo` are the two capabilities as functions of it, and the
    class `Reader` carries out the same steps in place. */
module Source {
  import opened Bytes

  /** How the source honours a seek. `Seekable` is the stdio file reader
      (`fseeko64`, which accepts any non-negative offset, even one past the
      end); `ForwardOnly` is the HTTP reader, which can only read forward
      through the body to reach the target. */
  datatype SeekMode = Seekable | ForwardOnly

  /** The whole stream, the position of the next byte to read, and the mode. */
  datatype Cursor = Cursor(data: seq<byte>, pos: nat, mode: SeekMode)

  datatype Fetched = Fetched(bytes: seq<byte>, next: Cursor)

  datatype Sought = Sought(ok: bool, next: Cursor)

  /** Bytes left between the position and the end of the stream. */
  function Remaining(c: Cursor): nat
  {
    if c.pos <= |c.data| then |c.data| - c.pos else 0
  }

  /** A read of `n` bytes: it returns the next `min(n, remaining)` bytes of the
      stream and moves the position past them. */
  function Fetch(c: Cursor, n: nat): (r: Fetched)
    ensures |r.bytes| == Min(n, Remaining(c))
    ensures |r.bytes| == n <==> n <= Remaining(c)
    ensures r.next == c.(pos := c.pos + |r.bytes|)
    ensures Remaining(r.next) == Remaining(c) - |r.bytes|
    ensures |r.bytes| > 0 ==> c.pos + |r.bytes| <= |c.data| && r.bytes == c.data[c.pos .. c.pos + |r.bytes|]
  {
    var k := Min(n, Remaining(c));
    if k == 0 then Fetched([], c)
    else Fetched(c.data[c.pos .. c.pos + k], c.(pos := c.pos + k))
  }

  /** A seek to the absolute offset `p`. The file reader moves anywhere at or
      after offset 0; the HTTP reader refuses a target behind its position and
      otherwise reads through the body, succeeding only if it reaches `p`. */
  function SeekTo(c: Cursor, p: int): (r: Sought)
    ensures r.next.data == c.data && r.next.mode == c.mode
    ensures r.ok ==> r.next.pos == p
    ensures c.mode == Seekable ==> (r.ok <==> 0 <= p)
    ensures c.mode == ForwardOnly ==> (r.ok <==> c.pos <= p <= c.pos + Remaining(c))
    ensures c.pos <= p ==> c.pos <= r.next.pos && Remaining(r.next) <= Remaining(c)
  {
    match c.mode
    case Seekable =>
      if p < 0 then Sought(false, c) else Sought(true, c.(pos := p))
    case ForwardOnly =>
      if p < c.pos then Sought(false, c)
      else
        var k := Min(p - c.pos, Remaining(c));
        Sought(c.pos + k == p, c.(pos := c.pos + k))
  }

  /** Reading bytes that are known to be in the stream. */
  lemma FetchAt(c: Cursor, n: nat, x: seq<byte>)
    requires c.pos + n <= |c.data| && c.data[c.pos .. c.pos + n] == x
    ensures Fetch(c, n) == Fetched(x, c.(pos := c.pos + n))
  {
  }

  /** A seek forward to a position inside the stream succeeds in either mode. */
  lemma SeekForward(c: Cursor, p: nat)
    requires c.pos <= p <= |c.data|
    ensures SeekTo(c, p) == Sought(true, c.(pos := p))
  {
  }

  /** Bytes known to lie at `p` split into their two parts. */
  lemma SplitAt(d: seq<byte>, p: nat, x: seq<byte>, y: seq<byte>)
    requires p + |x| + |y| <= |d| && d[p .. p + |x| + |y|] == x + y
    ensures d[p .. p + |x|] == x && d[p + |x| .. p + |x| + |y|] == y
  {
    assert d[p .. p + |x|] == (x + y)[..|x|];
    assert d[p + |x| .. p + |x| + |y|] == (x + y)[|x|..];
  }

  /** A reader object: the stream it serves, its mode, and its position. */
  class Reader {
    const data: seq<byte>
    const mode: SeekMode
    var pos: nat

    function State(): Cursor
      reads this
    {
      Cursor(data, pos, mode)
    }

    constructor (data: seq<byte>, mode: SeekMode)
      ensures State() == Cursor(data, 0, mode)
    {
      this.data := data;
      this.mode := mode;
      pos := 0;
    }

    /** `reader->read(context, n, buf)`: the bytes actually read. */
    method Read(n: nat) returns (bytes: seq<byte>)
      modifies this
      ensures Fetched(bytes, State()) == Fetch(old(State()), n)
    {
      var k := if pos <= |data| then Min(n, |data| - pos) else 0;
      bytes := if k == 0 then [] else data[pos .. pos + k];
      pos := pos + k;
    }

    /** `reader->seek(context, p)`: whether the position is now `p`. */
    method Seek(p: int) returns (ok: bool)
      modifies this
      ensures Sought(ok, State()) == SeekTo(old(State()), p)
    {
      if mode == Seekable {
        ok := 0 <= p;
        if ok {
          pos := p;
        }
      } else if p < pos {
        ok := false;
      } else {
        var available := if pos <= |data| then |data| - pos else 0;
        var k := Min(p - pos, available);
        pos := pos + k;
        ok := pos == p;
      }
    }
  }
}
