/** utf8_response and lisp_string_from_utf8 of starintel_ecl_adapter.c: text crossing between C and Lisp.
    The answer of the dispatcher is read twice, and nothing keeps Lisp code from changing it in between,
    so a `LispString` holds what each of the two readings sees. */
module Response {
  import opened Utf8
  import opened Memory

  const MAX_RESPONSE_BYTES := 4 * 1024 * 1024

  datatype LispValue = NotAString | LispString(first: seq<uint32>, second: seq<uint32>)

  predicate ValidValue(value: LispValue) {
    value.LispString? ==> |value.first| == |value.second|
  }

  function Ascii(s: string): (b: seq<byte>)
    ensures |b| == |s|
  {
    seq(|s|, i requires 0 <= i < |s| => (s[i] as int) % 0x80)
  }

  const INVALID := "invalid-response"
  const TOO_LARGE := "response-too-large"
  const NO_MEMORY := "allocation-failed"

  const ERROR_HEAD := "{\"status\":\"error\",\"reason\":\""
  const ERROR_TAIL := "\"}"

  /** The fixed object that reports a failure. */
  function ErrorText(reason: string): seq<byte> {
    Ascii(ERROR_HEAD + reason + ERROR_TAIL)
  }

  /** starintel_error_json */
  method ErrorJson(heap: Heap, reason: string) returns (out: array?<byte>)
    modifies heap
    ensures heap.calls == old(heap.calls) + 1 && (out == null <==> heap.fails(old(heap.calls)))
    ensures out == null ==> heap.live == old(heap.live)
    ensures out != null ==> fresh(out) && heap.live == old(heap.live) + {out} && out[..] == ErrorText(reason) + [0]
  {
    var text := ErrorText(reason) + [0];
    out := heap.MallocBytes(|text|);
    if out == null { return; }
    forall k | 0 <= k < |text| { out[k] := text[k]; }
  }

  /** A scalar that may stand unescaped in a JSON answer. */
  predicate Sendable(cp: uint32) {
    Width(cp) != 0 && (cp >= 0x20 || cp == 0x09 || cp == 0x0A || cp == 0x0D)
  }

  /** The UTF-8 form of a reading; values that are no scalars contribute nothing. */
  function EncodeReading(u: seq<uint32>): seq<byte> {
    if u == [] then [] else (if IsScalar(u[0]) then Encode(u[0]) else []) + EncodeReading(u[1..])
  }

  datatype Sizing = Sized(len: nat) | Unsendable | Oversized

  /** What the first pass concludes about the rest `u` after `len` bytes. */
  function Size(u: seq<uint32>, len: nat): Sizing {
    if u == [] then Sized(len)
    else if !Sendable(u[0]) then Unsendable
    else if len + Width(u[0]) > MAX_RESPONSE_BYTES then Oversized
    else Size(u[1..], len + Width(u[0]))
  }

  /** Does the second pass accept `u` with `room` bytes left? */
  predicate Refits(u: seq<uint32>, room: nat) {
    u == [] || (Sendable(u[0]) && Width(u[0]) <= room && Refits(u[1..], room - Width(u[0])))
  }

  /** The text that answers a request when no allocation fails. */
  function Reply(value: LispValue): seq<byte> {
    if value.NotAString? then ErrorText(INVALID)
    else if |value.first| > MAX_RESPONSE_BYTES then ErrorText(TOO_LARGE)
    else match Size(value.first, 0)
      case Unsendable => ErrorText(INVALID)
      case Oversized => ErrorText(TOO_LARGE)
      case Sized(len) => if Refits(value.second, len) then EncodeReading(value.second) else ErrorText(INVALID)
  }

  // ---------------------------------------------------------------- utf8_response

  method MeasureReading(u: seq<uint32>) returns (sizing: Sizing)
    ensures sizing == Size(u, 0)
  {
    var len, i := 0, 0;
    while i < |u|
      invariant i <= |u| && 0 <= len <= MAX_RESPONSE_BYTES
      invariant Size(u, 0) == Size(u[i..], len)
    {
      var cp: uint32 := u[i];
      var width := Width(cp);
      if width == 0 || (cp < 0x20 && cp != 0x09 && cp != 0x0A && cp != 0x0D) { return Unsendable; }
      if width > MAX_RESPONSE_BYTES - len { return Oversized; }
      assert u[i..][1..] == u[i + 1..];
      len, i := len + width, i + 1;
    }
    sizing := Sized(len);
  }

  /** One character of a reading. */
  lemma ReadingStep(u: seq<uint32>, room: nat)
    ensures u == [] ==> EncodeReading(u) == [] && Refits(u, room)
    ensures u != [] ==> EncodeReading(u) == (if IsScalar(u[0]) then Encode(u[0]) else []) + EncodeReading(u[1..])
    ensures u != [] ==> (Refits(u, room) <==>
      Sendable(u[0]) && Width(u[0]) <= room && Refits(u[1..], room - Width(u[0])))
  {
    hide Encode;
  }

  /** The second pass. It stays inside the measured length whatever it reads. */
  method FillReading(u: seq<uint32>, out: array<byte>, len: nat) returns (ok: bool, offset: nat)
    requires out.Length == len + 1
    modifies out
    ensures ok <==> Refits(u, len)
    ensures ok ==> offset <= len && out[..offset] == EncodeReading(u)
  {
    hide Encode, EncodeReading, Refits;
    offset := 0;
    var i := 0;
    assert u[0..] == u;
    while i < |u|
      invariant i <= |u| && offset <= len
      invariant Refits(u, len) <==> Refits(u[i..], len - offset)
      invariant Filling(out[..], EncodeReading(u), offset, EncodeReading(u[i..]))
    {
      var cp: uint32 := u[i];
      var width := Width(cp);
      ReadingStep(u[i..], len - offset);
      assert u[i..][1..] == u[i + 1..];
      if width == 0 || width > len - offset || (cp < 0x20 && cp != 0x09 && cp != 0x0A && cp != 0x0D) {
        return false, offset;
      }
      ghost var before := out[..];
      var n := EncodeInto(cp, out, offset);
      FillMore(before, out[..], EncodeReading(u), offset, Encode(cp), EncodeReading(u[i + 1..]));
      offset, i := offset + n, i + 1;
    }
    assert u[i..] == [];
    ReadingStep([], len - offset);
    ok := true;
  }

  /** utf8_response */
  method Utf8Response(heap: Heap, value: LispValue) returns (out: array?<byte>, ghost text: seq<byte>)
    requires ValidValue(value)
    modifies heap
    ensures old(heap.calls) < heap.calls
    ensures out == null ==> heap.live == old(heap.live) && !forall k :: old(heap.calls) <= k < heap.calls ==>
      !heap.fails(k)
    ensures out != null ==> fresh(out) && heap.live == old(heap.live) + {out}
    ensures out != null ==> |text| < out.Length && out[..|text|] == text && out[|text|] == 0
    ensures text == Reply(value) || (text == ErrorText(NO_MEMORY) && heap.fails(old(heap.calls)))
  {
    text := Reply(value);
    if value.NotAString? { out := ErrorJson(heap, INVALID); return; }
    if |value.first| > MAX_RESPONSE_BYTES { out := ErrorJson(heap, TOO_LARGE); return; }
    var sizing := MeasureReading(value.first);
    if sizing.Unsendable? { out := ErrorJson(heap, INVALID); return; }
    if sizing.Oversized? { out := ErrorJson(heap, TOO_LARGE); return; }
    var result := heap.MallocBytes(sizing.len + 1);
    if result == null {
      text := ErrorText(NO_MEMORY);
      out := ErrorJson(heap, NO_MEMORY);
      return;
    }
    var ok, offset := FillReading(value.second, result, sizing.len);
    if !ok {
      heap.Free(result);
      out := ErrorJson(heap, INVALID);
      return;
    }
    result[offset] := 0;
    out := result;
  }

  // ---------------------------------------------------------------- what a reply is

  predicate AllScalars(u: seq<uint32>) {
    forall i :: 0 <= i < |u| ==> IsScalar(u[i])
  }

  lemma {:induction false} ReadingIsText(u: seq<uint32>)
    requires AllScalars(u)
    ensures var scalars: seq<Scalar> := u; EncodeReading(u) == EncodeAll(scalars)
  {
    if u != [] { ReadingIsText(u[1..]); }
  }

  lemma {:induction false} RefittingText(u: seq<uint32>, room: nat)
    requires Refits(u, room)
    ensures AllScalars(u) && 0 !in u && |EncodeReading(u)| <= room
  {
    if u != [] {
      RefittingText(u[1..], room - Width(u[0]));
      assert u == [u[0]] + u[1..];
    }
  }

  lemma {:induction false} SizedWithin(u: seq<uint32>, len: nat)
    requires len <= MAX_RESPONSE_BYTES && Size(u, len).Sized?
    ensures len <= Size(u, len).len <= MAX_RESPONSE_BYTES
    ensures Refits(u, Size(u, len).len - len) && Size(u, len).len == len + |EncodeReading(u)|
  {
    if u != [] { SizedWithin(u[1..], len + Width(u[0])); }
  }

  predicate Plain(s: string) {
    forall i :: 0 <= i < |s| ==> 0 < (s[i] as int) < 0x80
  }

  lemma PlainIsText(s: string)
    requires Plain(s)
    ensures WellFormed(Ascii(s)) && 0 !in Ascii(s)
  {
    var scalars: seq<Scalar> := Ascii(s);
    assert forall i :: 0 <= i < |scalars| ==> 0 < scalars[i] < 0x80;
    hide Ascii, WellFormed, Decode, EncodeAll;
    AsciiEncodesItself(scalars);
    EncodeThenDecode(scalars);
  }

  /** Whatever the two readings are, a reply is a bounded, NUL-free, well-formed text,
      and it is a fixed error object unless it is exactly the second reading. */
  lemma ReplyIsCleanText(value: LispValue)
    requires ValidValue(value)
    ensures 0 !in Reply(value) && WellFormed(Reply(value)) && |Reply(value)| <= MAX_RESPONSE_BYTES
    ensures
      || Reply(value) in {ErrorText(INVALID), ErrorText(TOO_LARGE)}
      || (value.LispString? && AllScalars(value.second) && Reply(value) == EncodeReading(value.second))
  {
    ErrorIsCleanText(INVALID);
    ErrorIsCleanText(TOO_LARGE);
    if value.LispString? && |value.first| <= MAX_RESPONSE_BYTES && Size(value.first, 0).Sized? {
      SizedWithin(value.first, 0);
      if Refits(value.second, Size(value.first, 0).len) {
        RefittingText(value.second, Size(value.first, 0).len);
        ReadingIsText(value.second);
        var scalars: seq<Scalar> := value.second;
        EncodeThenDecode(scalars);
        NulIffZeroScalar(scalars);
      }
    }
  }

  lemma ErrorIsCleanText(reason: string)
    requires Plain(reason) && |reason| <= 40
    ensures WellFormed(ErrorText(reason)) && 0 !in ErrorText(reason) && 0 < |ErrorText(reason)| < 100
  {
    assert Plain(ERROR_HEAD) && Plain(ERROR_TAIL);
    PlainIsText(ERROR_HEAD + reason + ERROR_TAIL);
  }

  /** If nothing changed between the passes, the second guard never fires and the reply is the exact encoding. */
  lemma StableReplyIsExact(u: seq<uint32>)
    requires |u| <= MAX_RESPONSE_BYTES && Size(u, 0).Sized?
    ensures Reply(LispString(u, u)) == EncodeReading(u)
  {
    hide Sendable, EncodeReading, Size, Refits, ErrorText;
    SizedWithin(u, 0);
  }

  /** When the first pass lets an answer through: all of it may be sent and it fits. */
  lemma {:induction false} SizedIff(u: seq<uint32>, len: nat)
    requires len <= MAX_RESPONSE_BYTES
    ensures Size(u, len).Sized? <==>
      (forall i :: 0 <= i < |u| ==> Sendable(u[i])) && len + |EncodeReading(u)| <= MAX_RESPONSE_BYTES
  {
    if u != [] {
      if Sendable(u[0]) && len + Width(u[0]) <= MAX_RESPONSE_BYTES { SizedIff(u[1..], len + Width(u[0])); }
      assert u == [u[0]] + u[1..];
      if forall i :: 0 <= i < |u| ==> Sendable(u[i]) {
        forall i | 0 <= i < |u[1..]| ensures Sendable(u[1..][i]) { assert u[1..][i] == u[i + 1]; }
      }
    }
  }

  const PLAIN_CONTROLS: string := "\t\n\r"

  /** Of the control characters only these three may be sent, and of the rest every scalar. */
  lemma SendableIsExact(cp: uint32)
    ensures cp < 0x20 ==> (Sendable(cp) <==> exists k :: 0 <= k < 3 && cp == PLAIN_CONTROLS[k] as int)
    ensures cp >= 0x20 ==> (Sendable(cp) <==> IsScalar(cp))
  {
    if cp == 0x09 { assert cp == PLAIN_CONTROLS[0] as int; }
    if cp == 0x0A { assert cp == PLAIN_CONTROLS[1] as int; }
    if cp == 0x0D { assert cp == PLAIN_CONTROLS[2] as int; }
  }

  predicate AllSendable(u: seq<uint32>) {
    forall i :: 0 <= i < |u| ==> Sendable(u[i])
  }

  /** Some front of the reading may be sent but is too long behind `len` bytes. */
  ghost predicate TooLong(u: seq<uint32>, len: nat) {
    exists k :: 0 <= k <= |u| && Overflows(u[..k], len)
  }

  predicate Overflows(u: seq<uint32>, len: nat) {
    AllSendable(u) && len + |EncodeReading(u)| > MAX_RESPONSE_BYTES
  }

  lemma OverflowStep(u: seq<uint32>, len: nat, k: nat)
    requires 0 < k <= |u| && Sendable(u[0])
    ensures Overflows(u[..k], len) <==> Overflows(u[1..][..k - 1], len + Width(u[0]))
  {
    hide Sendable, Encode, Width;
    var front, rest := u[..k], u[1..][..k - 1];
    assert front == [u[0]] + rest && front[1..] == rest;
    assert AllSendable(front) <==> AllSendable(rest) by {
      if AllSendable(rest) { assert forall i :: 0 < i < |front| ==> front[i] == rest[i - 1]; }
      if AllSendable(front) { assert forall i :: 0 <= i < |rest| ==> rest[i] == front[i + 1]; }
    }
    assert IsScalar(u[0]) by { SendableIsScalar(u[0]); }
  }

  lemma SendableIsScalar(cp: uint32)
    requires Sendable(cp)
    ensures IsScalar(cp)
  {
  }

  lemma TooLongStep(u: seq<uint32>, len: nat)
    requires u != [] && Sendable(u[0]) && len <= MAX_RESPONSE_BYTES
    ensures TooLong(u, len) <==> len + Width(u[0]) > MAX_RESPONSE_BYTES || TooLong(u[1..], len + Width(u[0]))
  {
    hide Sendable, Width, Overflows;
    OverflowStep(u, len, 1);
    assert u[..0] == [] && u[1..][..0] == [];
    EmptyOverflow(len);
    EmptyOverflow(len + Width(u[0]));
    if TooLong(u[1..], len + Width(u[0])) {
      var k :| 0 <= k <= |u[1..]| && Overflows(u[1..][..k], len + Width(u[0]));
      OverflowStep(u, len, k + 1);
    }
    if TooLong(u, len) {
      var k :| 0 <= k <= |u| && Overflows(u[..k], len);
      OverflowStep(u, len, k);
    }
  }

  lemma EmptyOverflow(len: nat)
    ensures Overflows([], len) <==> len > MAX_RESPONSE_BYTES
  {
  }

  /** Which failure the first pass reports: a front that is too long when there is one, and otherwise the character that
      must not be sent. */
  lemma {:induction false} SizeReports(u: seq<uint32>, len: nat)
    requires len <= MAX_RESPONSE_BYTES
    ensures Size(u, len) == Oversized <==> TooLong(u, len)
    ensures Size(u, len) == Unsendable <==> !TooLong(u, len) && !AllSendable(u)
  {
    hide Sendable, Width, Overflows, TooLong, EncodeReading;
    SizedIff(u, len);
    if u == [] || !Sendable(u[0]) {
      BadFrontIsNotLong(u, len);
    } else {
      TooLongStep(u, len);
      if len + Width(u[0]) <= MAX_RESPONSE_BYTES { SizeReports(u[1..], len + Width(u[0])); }
      assert u == [u[0]] + u[1..];
      assert AllSendable(u) <==> AllSendable(u[1..]);
    }
  }

  lemma BadFrontIsNotLong(u: seq<uint32>, len: nat)
    requires len <= MAX_RESPONSE_BYTES && (u == [] || !Sendable(u[0]))
    ensures !TooLong(u, len)
  {
    EmptyOverflow(len);
    forall k | 0 <= k <= |u| ensures !Overflows(u[..k], len) {
      if k == 0 { assert u[..k] == []; } else { assert !Sendable(u[..k][0]); }
    }
  }

  /** When the second pass accepts a reading: all of it may be sent and it fits. */
  lemma {:induction false} RefitsIff(u: seq<uint32>, room: nat)
    ensures Refits(u, room) <==> AllSendable(u) && |EncodeReading(u)| <= room
  {
    hide Sendable, Encode;
    if u != [] {
      if Sendable(u[0]) {
        SendableIsScalar(u[0]);
        if Width(u[0]) <= room { RefitsIff(u[1..], room - Width(u[0])); }
      }
      assert u == [u[0]] + u[1..];
      assert AllSendable(u) <==> Sendable(u[0]) && AllSendable(u[1..]);
    }
  }

  /** The reply in terms of the two readings: too long a front is reported before anything that must not be sent, and
      what is sent is the second reading, if it may be sent and is no longer than the first. */
  lemma ReplyIs(value: LispValue)
    ensures value.NotAString? ==> Reply(value) == ErrorText("invalid-response")
    ensures value.LispString? ==> var first, second := value.first, value.second;
      Reply(value) ==
        if |first| > MAX_RESPONSE_BYTES || TooLong(first, 0) then ErrorText("response-too-large")
        else if AllSendable(first) && AllSendable(second) && |EncodeReading(second)| <= |EncodeReading(first)|
        then EncodeReading(second)
        else ErrorText("invalid-response")
  {
    hide Sendable, AllSendable, EncodeReading, Size, Refits, ErrorText, TooLong;
    if value.LispString? {
      SizeReports(value.first, 0);
      if Size(value.first, 0).Sized? {
        SizedWithin(value.first, 0);
        RefitsIff(value.second, Size(value.first, 0).len);
      }
    }
  }

  // ---------------------------------------------------------------- lisp_string_from_utf8

  /** Builds the Lisp string of a C text: one character per scalar, U+0000 included. */
  method LispStringFromUtf8(bytes: seq<byte>) returns (ok: bool, chars: seq<uint32>)
    ensures ok <==> WellFormed(bytes)
    ensures ok ==> chars == Decode(bytes)
  {
    hide IsChar, Payload, LeadWidth;
    var count;
    ok, count := Count(bytes, 0);
    if !ok { return false, []; }
    var buffer := new uint32[count];
    var cursor: nat, index: nat, cp: uint32 := 0, 0, 0;
    while cursor < |bytes|
      invariant cursor <= |bytes| && WellFormed(bytes[cursor..])
      invariant Filling(buffer[..], Decode(bytes), index, Decode(bytes[cursor..]))
    {
      ghost var rest, before := bytes[cursor..], buffer[..];
      ok, cursor, cp := Next(bytes, cursor, cp);
      assert ok && rest[FrontWidth(rest)..] == bytes[cursor..];
      assert rest[..FrontWidth(rest)] == bytes[cursor - FrontWidth(rest)..cursor];
      assert index < |Decode(bytes)| by { assert |Decode(bytes)[index..]| > 0; }
      buffer[index] := cp;
      FillMore(before, buffer[..], Decode(bytes), index, [cp], Decode(bytes[cursor..]));
      index := index + 1;
    }
    assert buffer[..index] == buffer[..];
    return true, buffer[..];
  }
}
