/** What the runner makes of the bytes it is sent, as a function of the byte stream alone. */
module Framing {
  import opened Utf8
  import opened Response
  import opened Pipes

  const MAX_REQUEST := 1024 * 1024

  /** A body the runner hands on: bounded, not empty, well-formed and without U+0000. */
  predicate LegalBody(body: seq<byte>) {
    0 < |body| <= MAX_REQUEST && WellFormed(body) && 0 !in Decode(body)
  }

  /** Is a complete legal frame at the front of `s`? */
  predicate FrameHere(s: seq<byte>) {
    && |s| >= 4
    && |s| >= 4 + HeaderValue(s[..4])
    && LegalBody(s[4..4 + HeaderValue(s[..4])])
  }

  function FrontBody(s: seq<byte>): seq<byte>
    requires FrameHere(s)
  {
    s[4..4 + HeaderValue(s[..4])]
  }

  function AfterFrame(s: seq<byte>): (rest: seq<byte>)
    requires FrameHere(s)
    ensures |rest| < |s|
  {
    s[4 + HeaderValue(s[..4])..]
  }

  /** The request for a stop: a length of zero. */
  predicate StopHere(s: seq<byte>) {
    |s| >= 4 && HeaderValue(s[..4]) == 0
  }

  /** The requests the stream starts with, and what is left behind the last of them. */
  function Requests(s: seq<byte>): seq<seq<byte>>
    decreases |s|
  {
    if FrameHere(s) then [FrontBody(s)] + Requests(AfterFrame(s)) else []
  }

  function Leftover(s: seq<byte>): seq<byte>
    decreases |s|
  {
    if FrameHere(s) then Leftover(AfterFrame(s)) else s
  }

  function Frames(bodies: seq<seq<byte>>): seq<byte>
    requires AllBounded(bodies)
  {
    if bodies == [] then [] else Frame(bodies[0]) + Frames(bodies[1..])
  }

  predicate AllBounded(bodies: seq<seq<byte>>) {
    forall i :: 0 <= i < |bodies| ==> |bodies[i]| <= MAX_RESPONSE_BYTES
  }

  predicate AllLegal(bodies: seq<seq<byte>>) {
    forall i :: 0 <= i < |bodies| ==> LegalBody(bodies[i])
  }

  lemma LegalIsBounded(bodies: seq<seq<byte>>)
    requires AllLegal(bodies)
    ensures AllBounded(bodies)
  {
    forall i | 0 <= i < |bodies| ensures |bodies[i]| <= MAX_RESPONSE_BYTES { assert LegalBody(bodies[i]); }
  }

  lemma FrameIsRead(body: seq<byte>, rest: seq<byte>)
    requires LegalBody(body)
    ensures FrameHere(Frame(body) + rest) && FrontBody(Frame(body) + rest) == body &&
      AfterFrame(Frame(body) + rest) == rest
  {
    var s := Frame(body) + rest;
    HeaderRoundTrip(|body|);
    assert s[..4] == Header(|body|);
    assert s[4..4 + |body|] == body;
    assert s[4 + |body|..] == rest;
  }

  /** Any list of legal requests comes out of its frames again, whatever follows them. */
  lemma {:induction false} FramesAreRead(bodies: seq<seq<byte>>, rest: seq<byte>)
    requires AllLegal(bodies) && AllBounded(bodies)
    ensures Requests(Frames(bodies) + rest) == bodies + Requests(rest)
    ensures Leftover(Frames(bodies) + rest) == Leftover(rest)
  {
    hide FrameHere, FrontBody, AfterFrame, LegalBody, Frame;
    if bodies == [] {
      assert Frames(bodies) + rest == rest;
    } else {
      var tail := Frames(bodies[1..]) + rest;
      assert Frames(bodies) + rest == Frame(bodies[0]) + tail;
      FrameIsRead(bodies[0], tail);
      FramesAreRead(bodies[1..], rest);
    }
  }

  /** Reading gives legal bodies only, and printing them again gives the consumed bytes. */
  lemma {:induction false} RequestsAreFrames(s: seq<byte>)
    ensures AllLegal(Requests(s)) && AllBounded(Requests(s)) && !FrameHere(Leftover(s))
    ensures s == Frames(Requests(s)) + Leftover(s)
    decreases |s|
  {
    hide FrameHere, FrontBody, AfterFrame, LegalBody, Frame;
    if FrameHere(s) {
      var rest, body := AfterFrame(s), FrontBody(s);
      FrontIsFrame(s);
      RequestsAreFrames(rest);
      LegalIsBounded(Requests(s)) by {
        forall i | 0 <= i < |Requests(s)| ensures LegalBody(Requests(s)[i]) {
          if i > 0 { assert Requests(s)[i] == Requests(rest)[i - 1]; }
        }
      }
      assert Requests(s)[1..] == Requests(rest);
      assert Frame(body) + (Frames(Requests(rest)) + Leftover(rest)) == Frames(Requests(s)) + Leftover(s);
    }
  }

  lemma FrontIsFrame(s: seq<byte>)
    requires FrameHere(s)
    ensures LegalBody(FrontBody(s)) && |FrontBody(s)| <= MAX_REQUEST && s == Frame(FrontBody(s)) + AfterFrame(s)
  {
    HeaderIsInjective(s[..4]);
    assert s == s[..4] + s[4..];
  }

  lemma HeaderIsInjective(h: seq<byte>)
    requires |h| == 4
    ensures Header(HeaderValue(h)) == h
  {
    var c := Bits(h[0], 0);
    var b := c * 0x100 + Bits(h[1], 0);
    var a := b * 0x100 + Bits(h[2], 0);
    var n := a * 0x100 + Bits(h[3], 0);
    assert n / 0x100 == a && n % 0x100 == Bits(h[3], 0);
    assert a / 0x100 == b && a % 0x100 == Bits(h[2], 0);
    assert b / 0x100 == c && b % 0x100 == Bits(h[1], 0);
  }

  lemma {:induction false} FramesConcat(a: seq<seq<byte>>, body: seq<byte>)
    requires AllBounded(a) && |body| <= MAX_RESPONSE_BYTES
    ensures AllBounded(a + [body]) && Frames(a + [body]) == Frames(a) + Frame(body)
  {
    hide Frame;
    if a == [] {
      assert a + [body] == [body];
    } else {
      FramesConcat(a[1..], body);
      assert (a + [body])[1..] == a[1..] + [body];
    }
  }

  /** One step of reading, and where reading stops. */
  lemma StreamStep(s: seq<byte>)
    ensures FrameHere(s) ==>
      s != [] && Requests(s) == [FrontBody(s)] + Requests(AfterFrame(s)) && Leftover(s) == Leftover(AfterFrame(s))
    ensures !FrameHere(s) ==> Requests(s) == [] && Leftover(s) == s
    ensures s == [] || StopHere(s) ==> !FrameHere(s)
  {
  }
}
