/** The two pipes of the owned child, with arbitrary chunking, and the exact transfer loops of starintel_ecl_runner.c.
    */
module Pipes {
  import opened Utf8

  /** What one read or write call does: move up to `size` bytes (at least one, if it can), be interrupted, or fail. */
  datatype Event = Chunk(size: nat) | Interrupted | Broken

  /** No call fails; short transfers and interruptions are allowed. */
  predicate Faultless(script: seq<Event>) {
    Broken !in script
  }

  function Min(a: nat, b: nat): nat {
    if a < b then a else b
  }

  function AtLeastOne(n: nat): nat {
    if n == 0 then 1 else n
  }

  /** The read end: everything the peer will have sent before end of file. After the script, calls transfer all they
      can. */
  class Source {
    var unread: seq<byte>
    var script: seq<Event>

    constructor (unread: seq<byte>, script: seq<Event>)
      ensures this.unread == unread && this.script == script
    {
      this.unread, this.script := unread, script;
    }

    /** read(2): the bytes transferred (none at end of file), or a failure. */
    method Read(want: nat) returns (event: Event, chunk: seq<byte>)
      requires want > 0
      modifies this
      ensures old(unread) == chunk + unread && |chunk| <= want
      ensures script == if old(script) == [] then [] else old(script)[1..]
      ensures old(script) != [] ==>
        (event.Chunk? <==> old(script)[0].Chunk?) && (!event.Chunk? ==> event == old(script)[0])
      ensures old(script) == [] ==> event.Chunk?
      ensures event.Chunk? ==> (chunk == [] <==> old(unread) == [])
      ensures !event.Chunk? ==> chunk == []
    {
      event := Chunk(want);
      if script != [] {
        event := script[0];
        script := script[1..];
      }
      chunk := [];
      if event.Chunk? {
        var n := Min(Min(AtLeastOne(event.size), want), |unread|);
        chunk, unread := unread[..n], unread[n..];
      }
    }
  }

  /** The write end. */
  class Sink {
    var written: seq<byte>
    var script: seq<Event>

    constructor (script: seq<Event>)
      ensures written == [] && this.script == script
    {
      written, this.script := [], script;
    }

    /** write(2): how many of the bytes were taken, or a failure. */
    method Write(bytes: seq<byte>) returns (event: Event, n: nat)
      requires bytes != []
      modifies this
      ensures n <= |bytes| && written == old(written) + bytes[..n]
      ensures script == if old(script) == [] then [] else old(script)[1..]
      ensures old(script) != [] ==>
        (event.Chunk? <==> old(script)[0].Chunk?) && (!event.Chunk? ==> event == old(script)[0])
      ensures old(script) == [] ==> event.Chunk?
      ensures n > 0 <==> event.Chunk?
    {
      event := Chunk(|bytes|);
      if script != [] {
        event := script[0];
        script := script[1..];
      }
      n := 0;
      if event.Chunk? { n := Min(AtLeastOne(event.size), |bytes|); }
      written := written + bytes[..n];
    }
  }

  /** read_exact: 1 when all bytes arrived, 0 at end of file before the first byte, -1 otherwise. */
  method ReadExact(source: Source, buffer: array<byte>, length: nat) returns (status: int)
    requires length <= buffer.Length
    modifies source, buffer
    ensures status == 1 || status == 0 || status == -1
    ensures status == 1 ==> |old(source.unread)| >= length && source.unread == old(source.unread)[length..]
    ensures status == 1 ==> buffer[..length] == old(source.unread)[..length]
    ensures status == 0 ==> old(source.unread) == source.unread == [] && length > 0
    ensures buffer[length..] == old(buffer[length..])
    ensures Faultless(old(source.script)) ==>
      Faultless(source.script) && (status == 1 <==> |old(source.unread)| >= length)
    ensures Faultless(old(source.script)) ==> (status == 0 <==> old(source.unread) == [] && length > 0)
  {
    var done: nat := 0;
    ghost var all, script := source.unread, source.script;
    while done < length
      invariant done <= length && done <= |all| && source.unread == all[done..]
      invariant buffer[..done] == all[..done] && buffer[length..] == old(buffer[length..])
      invariant Faultless(script) ==> Faultless(source.script)
      decreases length - done + |source.script|
    {
      ghost var before, start := buffer[..], source.unread;
      var event, chunk := source.Read(length - done);
      if event.Chunk? && |chunk| > 0 {
        forall k | 0 <= k < |chunk| { buffer[done + k] := chunk[k]; }
        assert buffer[done..done + |chunk|] == chunk;
        assert buffer[..done] == before[..done];
        assert all[done..][|chunk|..] == all[done + |chunk|..];
        FillMore(before, buffer[..], all, done, chunk, source.unread);
        assert buffer[length..] == before[length..];
        done := done + |chunk|;
      } else if event.Interrupted? {
        assert source.unread == start;
      } else {
        return if event.Chunk? && done == 0 then 0 else -1;
      }
    }
    status := 1;
  }

  /** write_exact. On a failure a prefix of the bytes may have been written. */
  method WriteExact(sink: Sink, bytes: seq<byte>) returns (ok: bool, ghost done: nat)
    modifies sink
    ensures done <= |bytes| && sink.written == old(sink.written) + bytes[..done]
    ensures ok ==> done == |bytes|
    ensures Faultless(old(sink.script)) ==> ok && Faultless(sink.script)
  {
    var sent: nat := 0;
    ghost var script := sink.script;
    while sent < |bytes|
      invariant sent <= |bytes| && sink.written == old(sink.written) + bytes[..sent]
      invariant Faultless(script) ==> Faultless(sink.script)
      decreases |bytes| - sent + |sink.script|
    {
      var event, n := sink.Write(bytes[sent..]);
      assert bytes[..sent] + bytes[sent..][..n] == bytes[..sent + n];
      sent := sent + n;
      if event.Broken? { return false, sent; }
    }
    return true, sent;
  }

  // ---------------------------------------------------------------- frames

  /** The four length bytes, most significant first. */
  function Header(n: uint32): (h: seq<byte>)
    ensures |h| == 4
  {
    var a, b, c := n / 0x100, n / 0x100 / 0x100, n / 0x100 / 0x100 / 0x100;
    [Byte(0, c), Byte(0, b % 0x100), Byte(0, a % 0x100), Byte(0, n % 0x100)]
  }

  function HeaderValue(h: seq<byte>): (n: uint32)
    requires |h| == 4
  {
    ((Bits(h[0], 0) * 0x100 + Bits(h[1], 0)) * 0x100 + Bits(h[2], 0)) * 0x100 + Bits(h[3], 0)
  }

  /** Network order: the first byte counts most. */
  lemma HeaderIsBigEndian(n: uint32)
    ensures var h := Header(n);
      n as int == (h[0] as int) * 0x100_0000 + (h[1] as int) * 0x1_0000 + (h[2] as int) * 0x100 + h[3] as int
  {
    var a, b := n / 0x100, n / 0x100 / 0x100;
    assert n == a * 0x100 + n % 0x100 && a == b * 0x100 + a % 0x100;
    assert b == b / 0x100 * 0x100 + b % 0x100;
  }

  lemma HeaderRoundTrip(n: uint32)
    ensures HeaderValue(Header(n)) == n
  {
    var a, b := n / 0x100, n / 0x100 / 0x100;
    assert n == a * 0x100 + n % 0x100 && a == b * 0x100 + a % 0x100;
    assert b == b / 0x100 * 0x100 + b % 0x100;
  }

  function Frame(body: seq<byte>): (f: seq<byte>)
    requires |body| < 0x1_0000_0000
    ensures |f| == 4 + |body|
  {
    Header(|body|) + body
  }

  /** write_frame; the header is sent on its own, an empty body is not sent at all. */
  method WriteFrame(sink: Sink, body: seq<byte>) returns (ok: bool, ghost done: nat)
    requires |body| < 0x1_0000_0000
    modifies sink
    ensures done <= |Frame(body)| && sink.written == old(sink.written) + Frame(body)[..done]
    ensures ok ==> sink.written == old(sink.written) + Frame(body)
    ensures Faultless(old(sink.script)) ==> ok && Faultless(sink.script)
  {
    hide Header;
    ok, done := WriteExact(sink, Header(|body|));
    assert Frame(body)[..done] == Header(|body|)[..done];
    if ok && |body| > 0 {
      ghost var n;
      ok, n := WriteExact(sink, body);
      done := 4 + n;
      assert Frame(body)[..done] == Header(|body|) + body[..n];
    }
  }
}
