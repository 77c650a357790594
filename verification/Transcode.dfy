/** java_utf8 and java_string of starintel_ecl_jni.c: the two-pass bridges between Java strings and native UTF-8. */
module Transcode {
  import opened Utf8
  import opened Utf16
  import opened Memory

  datatype Failure = InvalidEncoding | TooLarge | AllocationFailed

  datatype Verdict = Fits | Malformed | Oversized

  /** What the measuring pass decides about the rest `u` when `room` bytes are left. */
  function Scan(u: seq<uint16>, room: nat): Verdict
    decreases |u|
  {
    if u == [] then Fits
    else if FrontUnits(u) == 0 || FrontScalar(u) == 0 then Malformed
    else if Width(FrontScalar(u)) > room then Oversized
    else Scan(u[FrontUnits(u)..], room - Width(FrontScalar(u)))
  }

  /** Text that may cross: well-formed UTF-16 without NUL whose UTF-8 form fits. */
  predicate Admissible(u: seq<uint16>, limit: nat) {
    WellFormedUnits(u) && 0 !in DecodeUnits(u) && |EncodeAll(DecodeUnits(u))| <= limit
  }

  lemma {:induction false} ScanDecidesAdmissible(u: seq<uint16>, room: nat)
    ensures Scan(u, room) == Fits <==> Admissible(u, room)
    decreases |u|
  {
    if u != [] && FrontUnits(u) != 0 {
      var rest := u[FrontUnits(u)..];
      if WellFormedUnits(rest) { EncodeAllCons(FrontScalar(u), DecodeUnits(rest)); }
      if Width(FrontScalar(u)) <= room {
        ScanDecidesAdmissible(rest, room - Width(FrontScalar(u)));
      }
    }
  }

  /** Some front of `u` is text that could cross, were it not for its size. */
  ghost predicate TooLong(u: seq<uint16>, room: nat) {
    exists k :: 0 <= k <= |u| && Overflows(u[..k], room)
  }

  predicate Overflows(u: seq<uint16>, room: nat) {
    WellFormedUnits(u) && 0 !in DecodeUnits(u) && |EncodeAll(DecodeUnits(u))| > room
  }

  lemma LongerFront(u: seq<uint16>, k: nat)
    requires k <= |u| && FrontUnits(u[..k]) != 0
    ensures FrontUnits(u) == FrontUnits(u[..k]) && FrontScalar(u) == FrontScalar(u[..k])
  {
  }

  /** The front `k` overflows when its first scalar does, or when the units behind that do. */
  lemma OverflowStep(u: seq<uint16>, room: nat, k: nat)
    requires FrontUnits(u) != 0 && FrontScalar(u) != 0 && FrontUnits(u) <= k <= |u|
    ensures var n, width := FrontUnits(u), Width(FrontScalar(u));
      Overflows(u[..k], room) <==>
        if width <= room then Overflows(u[n..][..k - n], room - width)
        else WellFormedUnits(u[n..][..k - n]) && 0 !in DecodeUnits(u[n..][..k - n])
  {
    hide Encode;
    var n := FrontUnits(u);
    var rest := u[n..][..k - n];
    assert u[..k][n..] == rest;
    if WellFormedUnits(rest) { EncodeAllCons(FrontScalar(u), DecodeUnits(rest)); }
  }

  lemma TooLongStep(u: seq<uint16>, room: nat)
    requires FrontUnits(u) != 0 && FrontScalar(u) != 0
    ensures var n, width := FrontUnits(u), Width(FrontScalar(u));
      TooLong(u, room) <==> width > room || TooLong(u[n..], room - width)
  {
    hide FrontScalar, Width, Overflows;
    var n, width := FrontUnits(u), Width(FrontScalar(u));
    OverflowStep(u, room, n);
    assert u[n..][..0] == [];
    if width <= room && TooLong(u[n..], room - width) {
      var k :| 0 <= k <= |u[n..]| && Overflows(u[n..][..k], room - width);
      OverflowStep(u, room, n + k);
    }
    if width <= room && TooLong(u, room) {
      var k :| 0 <= k <= |u| && Overflows(u[..k], room);
      OverflowHasFront(u[..k], room);
      LongerFront(u, k);
      OverflowStep(u, room, k);
    }
  }

  lemma OverflowHasFront(u: seq<uint16>, room: nat)
    requires Overflows(u, room)
    ensures FrontUnits(u) != 0 && FrontScalar(u) != 0
  {
    assert u != [];
  }

  /** Which of the two failures is reported: a front that is too long when there is one, and otherwise the bad unit. */
  lemma {:induction false} ScanReports(u: seq<uint16>, room: nat)
    ensures Scan(u, room) == Oversized <==> TooLong(u, room)
    ensures Scan(u, room) == Malformed <==> !TooLong(u, room) && !Admissible(u, room)
    decreases |u|
  {
    hide TooLong, Overflows;
    ScanDecidesAdmissible(u, room);
    if u == [] || FrontUnits(u) == 0 || FrontScalar(u) == 0 {
      BadFrontIsNotLong(u, room);
    } else {
      TooLongStep(u, room);
      if Width(FrontScalar(u)) <= room { ScanReports(u[FrontUnits(u)..], room - Width(FrontScalar(u))); }
    }
  }

  lemma BadFrontIsNotLong(u: seq<uint16>, room: nat)
    requires FrontUnits(u) == 0 || FrontScalar(u) == 0
    ensures !TooLong(u, room)
  {
    forall k | 0 <= k <= |u| ensures !Overflows(u[..k], room) {
      if Overflows(u[..k], room) {
        OverflowHasFront(u[..k], room);
        LongerFront(u, k);
        assert false;
      }
    }
  }

  lemma {:induction false} AdmissibleIsShort(u: seq<uint16>, limit: nat)
    requires Admissible(u, limit)
    ensures |u| <= limit
  {
    DecodeUnitsThenEncode(u);
    UnitsFitInBytes(DecodeUnits(u));
  }

  /** Bytes counted while stepping over well-formed units. */
  function Measured(u: seq<uint16>): nat
    decreases |u|
  {
    if FrontUnits(u) == 0 then 0 else Width(FrontScalar(u)) + Measured(u[FrontUnits(u)..])
  }

  lemma {:induction false} MeasuredIsExact(u: seq<uint16>)
    requires WellFormedUnits(u)
    ensures Measured(u) == |EncodeAll(DecodeUnits(u))|
    decreases |u|
  {
    if u != [] {
      MeasuredIsExact(u[FrontUnits(u)..]);
      EncodeAllCons(FrontScalar(u), DecodeUnits(u[FrontUnits(u)..]));
    }
  }

  /** The first pass of java_utf8. */
  method Measure(units: seq<uint16>, limit: nat) returns (verdict: Verdict, bytes: nat)
    ensures verdict == Fits <==> Admissible(units, limit)
    ensures verdict == Oversized <==> TooLong(units, limit)
    ensures verdict == Fits ==> bytes == |EncodeAll(DecodeUnits(units))|
  {
    ScanReports(units, limit);
    if Admissible(units, limit) { MeasuredIsExact(units); }
    hide TooLong, Admissible;
    var cursor: nat, cp: uint32 := 0, 0;
    bytes := 0;
    while cursor < |units|
      invariant cursor <= |units| && bytes <= limit
      invariant Scan(units, limit) == Scan(units[cursor..], limit - bytes)
      invariant Measured(units) == bytes + Measured(units[cursor..])
    {
      ghost var rest := units[cursor..];
      var ok;
      ok, cursor, cp := NextUnit(units, cursor, cp);
      if !ok || cp == 0 { return Malformed, bytes; }
      var width := Width(cp);
      if width > limit - bytes { return Oversized, bytes; }
      bytes := bytes + width;
      assert rest[FrontUnits(rest)..] == units[cursor..];
    }
    verdict := Fits;
  }

  /** java_utf8; `pinned` says whether GetStringChars returned the units. */
  method JavaUtf8(heap: Heap, units: seq<uint16>, pinned: bool, limit: nat)
    returns (out: array?<byte>, failure: Failure)
    modifies heap
    ensures out != null <==> pinned && Admissible(units, limit) && !heap.fails(old(heap.calls))
    ensures out != null ==> out[..] == EncodeAll(DecodeUnits(units)) + [0]
    ensures out != null ==> fresh(out) && heap.live == old(heap.live) + {out}
    ensures out == null ==> heap.live == old(heap.live)
    ensures out == null ==> (failure == TooLarge <==> |units| > limit || (pinned && TooLong(units, limit)))
    ensures out == null ==> (failure == AllocationFailed <==> pinned && Admissible(units, limit))
    ensures out == null ==> (failure == InvalidEncoding <==>
      |units| <= limit && (pinned ==> !TooLong(units, limit) && !Admissible(units, limit)))
  {
    hide TooLong;
    if Admissible(units, limit) { AdmissibleIsShort(units, limit); }
    out, failure := null, InvalidEncoding;
    if |units| > limit { return null, TooLarge; }
    if !pinned { return; }
    var verdict, bytes := Measure(units, limit);
    if verdict == Malformed { return; }
    if verdict == Oversized { return null, TooLarge; }
    out := heap.MallocBytes(bytes + 1);
    if out == null { return null, AllocationFailed; }
    Fill(units, out);
  }

  /** The second pass after `cursor` units: `offset` bytes are in place. */
  predicate Writing(units: seq<uint16>, cursor: nat, out: seq<byte>, offset: nat) {
    && cursor <= |units| && WellFormedUnits(units) && WellFormedUnits(units[cursor..])
    && Filling(out, EncodeAll(DecodeUnits(units)), offset, EncodeAll(DecodeUnits(units[cursor..])))
  }

  lemma WriteChar(units: seq<uint16>, at: nat, before: seq<byte>, after: seq<byte>, offset: nat)
    requires at < |units| && Writing(units, at, before, offset)
    requires var piece := Encode(FrontScalar(units[at..]));
      offset + |piece| <= |after| && after[..offset] == before[..offset] && after[offset..offset + |piece|] == piece
    ensures Writing(units, at + FrontUnits(units[at..]), after, offset + |Encode(FrontScalar(units[at..]))|)
  {
    var n, cp := FrontUnits(units[at..]), FrontScalar(units[at..]);
    assert units[at..][n..] == units[at + n..];
    var rest := DecodeUnits(units[at + n..]);
    EncodeAllCons(cp, rest);
    FillMore(before, after, EncodeAll(DecodeUnits(units)), offset, Encode(cp), EncodeAll(rest));
  }

  /** The piece written next is a part of the measured text. */
  lemma WriteFits(units: seq<uint16>, at: nat, out: seq<byte>, offset: nat)
    requires at < |units| && Writing(units, at, out, offset)
    ensures offset + |Encode(FrontScalar(units[at..]))| <= |EncodeAll(DecodeUnits(units))|
  {
    EncodeAllCons(FrontScalar(units[at..]), DecodeUnits(units[at..][FrontUnits(units[at..])..]));
  }

  /** The second pass: same units, now written behind each other. It produces exactly the measured bytes. */
  method Fill(units: seq<uint16>, out: array<byte>)
    requires WellFormedUnits(units) && out.Length == |EncodeAll(DecodeUnits(units))| + 1
    modifies out
    ensures out[..] == EncodeAll(DecodeUnits(units)) + [0]
  {
    hide Encode;
    var cursor: nat, offset: nat, cp: uint32 := 0, 0, 0;
    while cursor < |units|
      invariant Writing(units, cursor, out[..], offset)
    {
      ghost var at, before := cursor, out[..];
      WriteFits(units, at, before, offset);
      var ok;
      ok, cursor, cp := NextUnit(units, cursor, cp);
      var n := EncodeInto(cp, out, offset);
      WriteChar(units, at, before, out[..], offset);
      offset := offset + n;
    }
    out[offset] := 0;
    assert out[..] == out[..offset] + [0];
  }

  lemma CharNeedsFewUnits(bytes: seq<byte>, at: nat, cp: Scalar)
    requires at <= |bytes| && FrontWidth(bytes[at..]) != 0
    requires cp == Value(bytes[at..at + FrontWidth(bytes[at..])])
    ensures |Units(cp)| <= FrontWidth(bytes[at..])
    ensures cp == Value(bytes[at..][..FrontWidth(bytes[at..])])
  {
    var n := FrontWidth(bytes[at..]);
    assert bytes[at..][..n] == bytes[at..at + n];
    CharIsEncode(bytes[at..at + n]);
  }

  /** The loop of java_string after `cursor` bytes: `count` units are in the buffer. */
  predicate Transcoding(bytes: seq<byte>, cursor: nat, chars: seq<uint16>, count: nat) {
    && count <= cursor <= |bytes|
    && (WellFormed(bytes) <==> WellFormed(bytes[cursor..]))
    && (WellFormed(bytes) ==> Filling(chars, EncodeUnits(Decode(bytes)), count, EncodeUnits(Decode(bytes[cursor..]))))
  }

  lemma TranscodeChar(bytes: seq<byte>, at: nat, cp: Scalar, before: seq<uint16>, after: seq<uint16>, count: nat)
    requires Transcoding(bytes, at, before, count) && FrontWidth(bytes[at..]) != 0
    requires cp == Value(bytes[at..at + FrontWidth(bytes[at..])])
    requires count + |Units(cp)| <= |after| && count <= |before|
    requires after[..count] == before[..count] && after[count..count + |Units(cp)|] == Units(cp)
    ensures Transcoding(bytes, at + FrontWidth(bytes[at..]), after, count + |Units(cp)|)
  {
    hide FrontWidth, Value, Units, Decode, WellFormed, EncodeUnits, Filling;
    var n := FrontWidth(bytes[at..]);
    CharNeedsFewUnits(bytes, at, cp);
    DecodeCons(bytes[at..]);
    assert bytes[at..][..n] == bytes[at..at + n];
    assert bytes[at..][n..] == bytes[at + n..];
    if WellFormed(bytes) {
      var rest := Decode(bytes[at + n..]);
      EncodeUnitsCons(cp, rest);
      FillMore(before, after, EncodeUnits(Decode(bytes)), count, Units(cp), EncodeUnits(rest));
    }
  }

  /** The loop of java_string. One unit per byte is always room enough. */
  method FillUnits(bytes: seq<byte>, chars: array<uint16>) returns (ok: bool, count: nat)
    requires chars.Length > |bytes|
    modifies chars
    ensures ok <==> WellFormed(bytes)
    ensures count <= |bytes|
    ensures ok ==> chars[..count] == EncodeUnits(Decode(bytes))
  {
    hide IsChar, Payload, LeadWidth;
    var cursor: nat, cp: uint32 := 0, 0;
    count := 0;
    while cursor < |bytes|
      invariant Transcoding(bytes, cursor, chars[..], count)
    {
      ghost var at, before := cursor, chars[..];
      ok, cursor, cp := Next(bytes, cursor, cp);
      if !ok { return; }
      CharNeedsFewUnits(bytes, at, cp);
      var n := EncodeUnitsInto(cp, chars, count);
      TranscodeChar(bytes, at, cp, before, chars[..], count);
      count := count + n;
    }
    ok := true;
  }

  /** java_string; `created` says whether NewString succeeded. */
  method JavaString(heap: Heap, value: seq<byte>, limit: nat, created: bool) returns (ok: bool, text: seq<uint16>)
    requires 0 in value || limit < |value|
    modifies heap
    ensures heap.live == old(heap.live)
    ensures ok <==> |UntilNul(value)| <= limit && WellFormed(UntilNul(value)) && !heap.fails(old(heap.calls)) && created
    ensures ok ==> text == EncodeUnits(Decode(UntilNul(value)))
  {
    ok, text := false, [];
    var len := BoundedStrlen(value, limit + 1);
    if len > limit { return; }
    assert value[..len] == UntilNul(value);
    var chars := heap.MallocUnits(len + 1);
    if chars == null { return; }
    var decoded, count := FillUnits(value[..len], chars);
    if decoded {
      ok, text := created, chars[..count];
    }
    heap.Free(chars);
  }

  /** Whatever java_utf8 hands out, java_string reads back as the same Java string. */
  lemma TranscodingIsIdentity(units: seq<uint16>, limit: nat, garbage: seq<byte>)
    requires Admissible(units, limit)
    ensures var value := EncodeAll(DecodeUnits(units)) + [0] + garbage;
      && |UntilNul(value)| <= limit
      && WellFormed(UntilNul(value))
      && EncodeUnits(Decode(UntilNul(value))) == units
  {
    var scalars := DecodeUnits(units);
    NulIffZeroScalar(scalars);
    UntilNulOf(EncodeAll(scalars), garbage);
    EncodeThenDecode(scalars);
    DecodeUnitsThenEncode(units);
  }
}
