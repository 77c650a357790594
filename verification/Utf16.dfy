/** The UTF-16 half of starintel_utf.h, after sections 2.1 and 2.2 of RFC 2781. */
module Utf16 {
  import opened Utf8

  type uint16 = n: int | 0 <= n < 0x1_0000

  predicate IsHigh(u: int) { 0xD800 <= u <= 0xDBFF }

  predicate IsLow(u: int) { 0xDC00 <= u <= 0xDFFF }

  // ---------------------------------------------------------------- reference definitions

  function Units(cp: Scalar): (u: seq<uint16>) {
    if cp < 0x10000 then [cp]
    else [HighUnit(cp), LowUnit(cp)]
  }

  function HighUnit(cp: Scalar): (u: uint16)
    requires cp >= 0x10000
    ensures IsHigh(u)
  {
    0xD800 + (cp - 0x10000) / 0x400
  }

  function LowUnit(cp: Scalar): (u: uint16)
    ensures IsLow(u)
  {
    0xDC00 + (cp - 0x10000) % 0x400
  }

  /** The scalar of a surrogate pair. */
  function Paired(high: int, low: int): (cp: Scalar)
    requires IsHigh(high) && IsLow(low)
    ensures cp >= 0x10000
  {
    0x10000 + (high - 0xD800) * 0x400 + (low - 0xDC00)
  }

  function EncodeUnits(scalars: seq<Scalar>): seq<uint16> {
    if scalars == [] then [] else Units(scalars[0]) + EncodeUnits(scalars[1..])
  }

  /** How many units the first scalar of `u` takes, 0 when `u` starts with none. */
  function FrontUnits(u: seq<uint16>): (n: nat)
    ensures n <= |u|
  {
    if u == [] then 0
    else if !IsHigh(u[0]) && !IsLow(u[0]) then 1
    else if IsHigh(u[0]) && |u| > 1 && IsLow(u[1]) then 2
    else 0
  }

  function FrontScalar(u: seq<uint16>): (cp: Scalar)
    requires FrontUnits(u) != 0
  {
    if IsHigh(u[0]) then Paired(u[0], u[1]) else u[0]
  }

  predicate WellFormedUnits(u: seq<uint16>)
    decreases |u|
  {
    u == [] || (FrontUnits(u) != 0 && WellFormedUnits(u[FrontUnits(u)..]))
  }

  function DecodeUnits(u: seq<uint16>): seq<Scalar>
    requires WellFormedUnits(u)
    decreases |u|
  {
    if u == [] then [] else [FrontScalar(u)] + DecodeUnits(u[FrontUnits(u)..])
  }

  // ---------------------------------------------------------------- the codec

  /** starintel_utf16_next */
  method NextUnit(data: seq<uint16>, cursor: nat, scalar: uint32) returns (ok: bool, cursor': nat, scalar': uint32)
    requires cursor <= |data|
    ensures ok <==> FrontUnits(data[cursor..]) != 0
    ensures ok ==> cursor' == cursor + FrontUnits(data[cursor..]) <= |data| && scalar' == FrontScalar(data[cursor..])
    ensures !ok ==> cursor' == cursor && scalar' == scalar
  {
    var p := cursor;
    ok, cursor', scalar' := false, cursor, scalar;
    if p >= |data| { return; }
    var cp: uint32 := data[p];
    p := p + 1;
    if 0xD800 <= cp <= 0xDBFF {
      if p >= |data| { return; }
      var low: uint32 := data[p];
      p := p + 1;
      if low < 0xDC00 || low > 0xDFFF { return; }
      cp := 0x10000 + (cp - 0xD800) * 0x400 + (low - 0xDC00);
    } else if 0xDC00 <= cp <= 0xDFFF { return; }
    ok, cursor', scalar' := true, p, cp;
  }

  /** starintel_utf16_encode, writing at `out + at`. */
  method EncodeUnitsInto(cp: uint32, out: array<uint16>, at: nat) returns (n: nat)
    requires at + (if IsScalar(cp) then |Units(cp)| else 0) <= out.Length
    modifies out
    ensures n == if IsScalar(cp) then |Units(cp)| else 0
    ensures out[..at] == old(out[..])[..at] && out[at + n..] == old(out[..])[at + n..]
    ensures out[..][at..at + n] == if IsScalar(cp) then Units(cp) else []
  {
    if Width(cp) == 0 { n := 0; }
    else if cp < 0x10000 { out[at] := cp; n := 1; }
    else {
      out[at] := 0xD800 + (cp - 0x10000) / 0x400;
      out[at + 1] := 0xDC00 + (cp - 0x10000) % 0x400;
      n := 2;
    }
  }

  /** Sections 2.1 and 2.2 of RFC 2781: ten bits in each half of a pair, the higher ten first. */
  lemma PairHoldsTwentyBits(high: nat, low: nat)
    requires high < 0x400 && low < 0x400
    ensures WellFormedUnits([0xD800 + high, 0xDC00 + low])
    ensures DecodeUnits([0xD800 + high, 0xDC00 + low]) == [0x10000 + high * 0x400 + low]
    ensures EncodeUnits([0x10000 + high * 0x400 + low]) == [0xD800 + high, 0xDC00 + low]
  {
    var u: seq<uint16> := [0xD800 + high, 0xDC00 + low];
    assert u[2..] == [];
    DecodeUnitsThenEncode(u);
  }

  /** Every other unit stands for itself, and a half without its other half for nothing. */
  lemma SingleUnit(u: uint16)
    ensures WellFormedUnits([u]) <==> !(0xD800 <= u <= 0xDFFF)
    ensures WellFormedUnits([u]) ==> DecodeUnits([u]) == [u]
  {
  }

  // ---------------------------------------------------------------- whole strings

  lemma UnitsFront(cp: Scalar, rest: seq<uint16>)
    ensures FrontUnits(Units(cp) + rest) == |Units(cp)| && FrontScalar(Units(cp) + rest) == cp
  {
  }

  lemma FrontIsUnits(u: seq<uint16>)
    requires FrontUnits(u) != 0
    ensures Units(FrontScalar(u)) == u[..FrontUnits(u)]
  {
  }

  lemma EncodeUnitsCons(head: Scalar, tail: seq<Scalar>)
    ensures EncodeUnits([head] + tail) == Units(head) + EncodeUnits(tail)
  {
    assert ([head] + tail)[1..] == tail;
  }

  lemma {:induction false} UnitsRoundTrip(scalars: seq<Scalar>)
    ensures WellFormedUnits(EncodeUnits(scalars)) && DecodeUnits(EncodeUnits(scalars)) == scalars
  {
    if scalars != [] {
      var head, tail := Units(scalars[0]), EncodeUnits(scalars[1..]);
      UnitsFront(scalars[0], tail);
      UnitsRoundTrip(scalars[1..]);
      assert (head + tail)[|head|..] == tail;
    }
  }

  lemma {:induction false} DecodeUnitsThenEncode(u: seq<uint16>)
    requires WellFormedUnits(u)
    ensures EncodeUnits(DecodeUnits(u)) == u
    decreases |u|
  {
    if u != [] {
      var n := FrontUnits(u);
      FrontIsUnits(u);
      DecodeUnitsThenEncode(u[n..]);
      EncodeUnitsCons(FrontScalar(u), DecodeUnits(u[n..]));
      assert u == u[..n] + u[n..];
    }
  }

  lemma UnitsAcceptedIffEncoded(u: seq<uint16>)
    ensures WellFormedUnits(u) <==> exists scalars :: EncodeUnits(scalars) == u
  {
    if WellFormedUnits(u) { DecodeUnitsThenEncode(u); }
    forall scalars: seq<Scalar> | EncodeUnits(scalars) == u ensures WellFormedUnits(u) { UnitsRoundTrip(scalars); }
  }

  /** A text never needs more UTF-16 units than UTF-8 bytes. */
  lemma {:induction false} UnitsFitInBytes(scalars: seq<Scalar>)
    ensures |EncodeUnits(scalars)| <= |EncodeAll(scalars)|
  {
    if scalars != [] { UnitsFitInBytes(scalars[1..]); }
  }

  lemma {:induction false} ZeroUnitIffZeroScalar(scalars: seq<Scalar>)
    ensures 0 in EncodeUnits(scalars) <==> 0 in scalars
  {
    if scalars != [] {
      ZeroUnitIffZeroScalar(scalars[1..]);
      assert 0 in Units(scalars[0]) <==> scalars[0] == 0;
      assert scalars == [scalars[0]] + scalars[1..];
    }
  }
}
