/** The scalar codec of starintel_utf.h: standard UTF-8 as fixed by RFC 3629.

    `IsChar` and `Value` are the byte grammar of section 4 and the bit layout of section 3 of RFC 3629;
    they are the reference the imperative codec is proved against. Masks, shifts and ors of the original
    act on disjoint bit fields, so they are written as remainders, quotients and sums. */
module Utf8 {

  type byte = b: int | 0 <= b < 0x100
  type uint32 = n: int | 0 <= n < 0x1_0000_0000

  predicate IsScalar(cp: int) {
    0 <= cp <= 0x10FFFF && !(0xD800 <= cp <= 0xDFFF)
  }

  type Scalar = cp: int | 0 <= cp <= 0x10FFFF && !(0xD800 <= cp <= 0xDFFF)

  // ---------------------------------------------------------------- reference definitions

  predicate Tail(b: byte) {
    0x80 <= b <= 0xBF
  }

  /** Section 4 of RFC 3629: the byte sequences that spell one character. */
  predicate IsChar(s: seq<byte>) {
    || (|s| == 1 && s[0] <= 0x7F)
    || (|s| == 2 && 0xC2 <= s[0] <= 0xDF && Tail(s[1]))
    || (|s| == 3 && IsLeadPair3(s[0], s[1]) && Tail(s[2]))
    || (|s| == 4 && IsLeadPair4(s[0], s[1]) && Tail(s[2]) && Tail(s[3]))
  }

  predicate IsLeadPair3(a: byte, b: byte) {
    || (a == 0xE0 && 0xA0 <= b <= 0xBF)
    || (0xE1 <= a <= 0xEC && Tail(b))
    || (a == 0xED && 0x80 <= b <= 0x9F)
    || (0xEE <= a <= 0xEF && Tail(b))
  }

  predicate IsLeadPair4(a: byte, b: byte) {
    || (a == 0xF0 && 0x90 <= b <= 0xBF)
    || (0xF1 <= a <= 0xF3 && Tail(b))
    || (a == 0xF4 && 0x80 <= b <= 0x8F)
  }

  /** The payload bits of a byte whose marker bits are `marker`. */
  function Bits(b: byte, marker: int): int {
    b - marker
  }

  function Byte(marker: int, bits: int): byte
    requires 0 <= marker + bits < 0x100
  {
    marker + bits
  }

  /** The payload of a byte string whose length its first byte announces. */
  function Payload(s: seq<byte>): int
    requires 1 <= |s| <= 4
  {
    if |s| == 1 then s[0]
    else if |s| == 2 then Bits(s[0], 0xC0) * 0x40 + Bits(s[1], 0x80)
    else if |s| == 3 then Bits(s[0], 0xE0) * 0x1000 + Bits(s[1], 0x80) * 0x40 + Bits(s[2], 0x80)
    else Bits(s[0], 0xF0) * 0x40000 + Bits(s[1], 0x80) * 0x1000 + Bits(s[2], 0x80) * 0x40 + Bits(s[3], 0x80)
  }

  /** Section 3 of RFC 3629: the number spelled by one character. */
  function Value(s: seq<byte>): (cp: Scalar)
    requires IsChar(s)
  {
    Payload(s)
  }

  /** The character that spells a scalar. */
  function Encode(cp: Scalar): (s: seq<byte>)
    ensures |s| == Width(cp)
  {
    var low := cp / 0x40;
    var mid := low / 0x40;
    var high := mid / 0x40;
    if cp < 0x80 then [Byte(0, cp)]
    else if cp < 0x800 then [Byte(0xC0, low), Byte(0x80, cp % 0x40)]
    else if cp < 0x10000 then [Byte(0xE0, mid), Byte(0x80, low % 0x40), Byte(0x80, cp % 0x40)]
    else [Byte(0xF0, high), Byte(0x80, mid % 0x40), Byte(0x80, low % 0x40), Byte(0x80, cp % 0x40)]
  }

  function EncodeAll(scalars: seq<Scalar>): seq<byte> {
    if scalars == [] then [] else Encode(scalars[0]) + EncodeAll(scalars[1..])
  }

  function LeadWidth(lead: byte): nat {
    if lead < 0x80 then 1
    else if 0xC2 <= lead <= 0xDF then 2
    else if 0xE0 <= lead <= 0xEF then 3
    else if 0xF0 <= lead <= 0xF4 then 4
    else 0
  }

  /** Length of the character that `s` starts with, 0 when it starts with none. */
  function FrontWidth(s: seq<byte>): (n: nat)
    ensures n <= |s|
    ensures n != 0 ==> IsChar(s[..n])
  {
    if s == [] then 0
    else
      var n := LeadWidth(s[0]);
      if n <= |s| && IsChar(s[..n]) then n else 0
  }

  predicate WellFormed(s: seq<byte>)
    decreases |s|
  {
    s == [] || (FrontWidth(s) != 0 && WellFormed(s[FrontWidth(s)..]))
  }

  function Decode(s: seq<byte>): seq<Scalar>
    requires WellFormed(s)
    decreases |s|
  {
    if s == [] then [] else [Value(s[..FrontWidth(s)])] + Decode(s[FrontWidth(s)..])
  }

  /** Decoding takes one sequence after the other. */
  lemma DecodeCons(s: seq<byte>)
    requires FrontWidth(s) != 0
    ensures var rest := s[FrontWidth(s)..];
      && (WellFormed(s) <==> WellFormed(rest))
      && (WellFormed(s) ==> Decode(s) == [Value(s[..FrontWidth(s)])] + Decode(rest))
  {
    hide FrontWidth, Value;
  }

  /** A buffer being filled with `text`: `k` elements are in place and `rest` is still to be written. */
  predicate Filling<T(==)>(buffer: seq<T>, text: seq<T>, k: nat, rest: seq<T>) {
    k <= |text| && k <= |buffer| && buffer[..k] == text[..k] && text[k..] == rest
  }

  lemma FillMore<T>(before: seq<T>, after: seq<T>, text: seq<T>, k: nat, piece: seq<T>, rest: seq<T>)
    requires Filling(before, text, k, piece + rest)
    requires k + |piece| <= |after| && after[..k] == before[..k] && after[k..k + |piece|] == piece
    ensures Filling(after, text, k + |piece|, rest)
  {
    assert text[k..][|piece|..] == text[k + |piece|..];
    assert text[k..][..|piece|] == text[k..k + |piece|] == piece;
    assert after[..k + |piece|] == after[..k] + piece;
    assert text[..k + |piece|] == text[..k] + piece;
  }

  // ---------------------------------------------------------------- the codec

  /** starintel_utf8_width */
  function Width(cp: int): (n: nat)
    ensures n == 0 <==> !IsScalar(cp)
  {
    if cp < 0 || cp > 0x10FFFF || (0xD800 <= cp <= 0xDFFF) then 0
    else if cp < 0x80 then 1 else if cp < 0x800 then 2 else if cp < 0x10000 then 3 else 4
  }

  /** What is left of `cp` after `k` groups of six bits. */
  function Above(cp: nat, k: nat): nat {
    if k == 0 then cp else Above(cp, k - 1) / 0x40
  }

  function Lead(n: nat): nat {
    if n == 2 then 0xC0 else if n == 3 then 0xE0 else 0xF0
  }

  /** The bytes of a longer encoding, the last of them first. */
  lemma EncodeBackwards(cp: Scalar, k: nat)
    requires k < Width(cp) && Width(cp) > 1
    ensures k > 0 ==> Encode(cp)[k] == 0x80 + Above(cp, Width(cp) - 1 - k) % 0x40
    ensures k == 0 ==> Encode(cp)[0] == Lead(Width(cp)) + Above(cp, Width(cp) - 1)
  {
    assert Above(cp, 1) == cp / 0x40;
    assert Above(cp, 2) == cp / 0x40 / 0x40;
    assert Above(cp, 3) == cp / 0x40 / 0x40 / 0x40;
  }

  lemma AboveNext(cp: nat, k: nat)
    ensures Above(cp, k + 1) == Above(cp, k) / 0x40
  {
  }

  /** The longer encodings of starintel_utf8_encode. */
  method EncodeLong(cp: Scalar, out: array<byte>, at: nat)
    requires Width(cp) > 1 && at + Width(cp) <= out.Length
    modifies out
    ensures forall k :: 0 <= k < Width(cp) ==> out[at + k] == Encode(cp)[k]
    ensures forall k :: 0 <= k < out.Length && !(at <= k < at + Width(cp)) ==> out[k] == old(out[k])
  {
    hide Encode, Width, Above;
    var n := Width(cp);
    var rest := cp;
    var i := n - 1;
    assert Above(cp, 0) == cp by { AboveNone(cp); }
    while i > 0
      invariant 0 <= i < n && rest == Above(cp, n - 1 - i)
      invariant forall k :: i < k < n ==> out[at + k] == Encode(cp)[k]
      invariant forall k :: 0 <= k < out.Length && !(at <= k < at + n) ==> out[k] == old(out[k])
    {
      EncodeBackwards(cp, i);
      AboveNext(cp, n - 1 - i);
      out[at + i] := 0x80 + rest % 0x40;
      rest := rest / 0x40;
      i := i - 1;
    }
    EncodeBackwards(cp, 0);
    out[at] := Lead(n) + rest;
  }

  lemma AboveNone(cp: nat)
    ensures Above(cp, 0) == cp
  {
  }

  /** starintel_utf8_encode, writing at `out + at`. A value that is no scalar writes nothing. */
  method EncodeInto(cp: uint32, out: array<byte>, at: nat) returns (n: nat)
    requires at + Width(cp) <= out.Length
    modifies out
    ensures n == Width(cp)
    ensures out[..at] == old(out[..])[..at] && out[at + n..] == old(out[..])[at + n..]
    ensures out[..][at..at + n] == if IsScalar(cp) then Encode(cp) else []
  {
    n := Width(cp);
    if n == 1 {
      out[at] := cp;
      assert Encode(cp) == [cp];
    } else if n > 1 {
      EncodeLong(cp, out, at);
    }
    hide Encode, Width;
  }

  /** `high` followed by the six payload bits of each of the tail bytes s[1], ..., s[i - 1]. */
  function Shifted(high: int, s: seq<byte>, i: nat): int
    requires i <= |s|
  {
    if i <= 1 then high else Shifted(high, s, i - 1) * 0x40 + Bits(s[i - 1], 0x80)
  }

  function Marker(n: nat): int {
    if n <= 1 then 0 else if n == 2 then 0xC0 else if n == 3 then 0xE0 else 0xF0
  }

  lemma ShiftedIsPayload(s: seq<byte>)
    requires 1 <= |s| <= 4
    ensures Shifted(Bits(s[0], Marker(|s|)), s, |s|) == Payload(s)
  {
    var high := Bits(s[0], Marker(|s|));
    if |s| >= 2 { assert Shifted(high, s, 2) == high * 0x40 + Bits(s[1], 0x80); }
    if |s| >= 3 { assert Shifted(high, s, 3) == Shifted(high, s, 2) * 0x40 + Bits(s[2], 0x80); }
  }

  lemma TailsAreRequired(s: seq<byte>, k: nat)
    requires 0 < k < |s| && !Tail(s[k])
    ensures !IsChar(s)
  {
  }

  function Minimum(n: nat): nat {
    if n <= 1 then 0 else if n == 2 then 0x80 else if n == 3 then 0x800 else 0x10000
  }

  /** Testing the assembled number for overlong forms and surrogates is the same as the byte table of the grammar. */
  lemma RangeCheck(s: seq<byte>)
    requires s != [] && |s| == LeadWidth(s[0])
    requires forall k :: 0 < k < |s| ==> Tail(s[k])
    ensures IsChar(s) <==> Minimum(|s|) <= Payload(s) && Width(Payload(s)) != 0
  {
  }

  /** starintel_utf8_next: decodes one character at `cursor`. The two outputs stand for the pointers. */
  method Next(data: seq<byte>, cursor: nat, scalar: uint32) returns (ok: bool, cursor': nat, scalar': uint32)
    requires cursor <= |data|
    ensures ok <==> FrontWidth(data[cursor..]) != 0
    ensures ok ==> cursor' == cursor + FrontWidth(data[cursor..]) <= |data| && scalar' == Value(data[cursor..cursor'])
    ensures !ok ==> cursor' == cursor && scalar' == scalar
  {
    var p := cursor;
    ok, cursor', scalar' := false, cursor, scalar;
    if p >= |data| { return; }
    var lead: byte := data[p];
    var n, cp, minimum;
    if lead < 0x80 { n, cp, minimum := 1, lead as int, 0; }
    else if 0xC2 <= lead <= 0xDF { n, cp, minimum := 2, lead % 0x20, 0x80; }
    else if 0xE0 <= lead <= 0xEF { n, cp, minimum := 3, lead % 0x10, 0x800; }
    else if 0xF0 <= lead <= 0xF4 { n, cp, minimum := 4, lead % 8, 0x10000; }
    else { return; }
    if n > |data| - p { return; }
    ghost var front: seq<byte> := data[p..p + n];
    assert data[p..][..n] == front;
    var i := 1;
    while i < n
      invariant 1 <= i <= n
      invariant forall k :: 0 < k < i ==> Tail(front[k])
      invariant cp == Shifted(Bits(lead, Marker(n)), front, i)
    {
      var ch: byte := data[p + i];
      if ch / 0x40 != 2 {
        TailsAreRequired(front, i);
        return;
      }
      cp := cp * 0x40 + ch % 0x40;
      i := i + 1;
    }
    ShiftedIsPayload(front);
    RangeCheck(front);
    if cp < minimum || Width(cp) == 0 { return; }
    ok, cursor', scalar' := true, p + n, cp;
  }

  /** starintel_utf8_count */
  method Count(data: seq<byte>, count: nat) returns (ok: bool, count': nat)
    ensures ok <==> WellFormed(data)
    ensures count' == if WellFormed(data) then |Decode(data)| else count
  {
    var p: nat, n: nat, cp: uint32 := 0, 0, 0;
    while p < |data|
      invariant p <= |data|
      invariant WellFormed(data) <==> WellFormed(data[p..])
      invariant WellFormed(data) ==> |Decode(data)| == n + |Decode(data[p..])|
    {
      ghost var rest := data[p..];
      ok, p, cp := Next(data, p, cp);
      if !ok { return false, count; }
      assert rest[FrontWidth(rest)..] == data[p..];
      n := n + 1;
    }
    return true, n;
  }

  /** The C string held in `s`. */
  function UntilNul(s: seq<byte>): (t: seq<byte>)
    ensures t <= s && 0 !in t
    ensures 0 in s ==> |t| < |s| && s[|t|] == 0
    ensures 0 !in s ==> t == s
  {
    if s == [] || s[0] == 0 then [] else [s[0]] + UntilNul(s[1..])
  }

  lemma {:induction false} UntilNulOf(text: seq<byte>, rest: seq<byte>)
    requires 0 !in text
    ensures UntilNul(text + [0] + rest) == text
  {
    if text == [] {
      assert text + [0] + rest == [0] + rest;
    } else {
      UntilNulOf(text[1..], rest);
      assert (text + [0] + rest)[1..] == text[1..] + [0] + rest;
    }
  }

  /** starintel_bounded_strlen: stops at the first NUL and never reads past `limit`. */
  method BoundedStrlen(s: seq<byte>, limit: nat) returns (n: nat)
    requires 0 in s || limit <= |s|
    ensures n == if |UntilNul(s)| < limit then |UntilNul(s)| else limit
  {
    n := 0;
    while n < limit && s[n] != 0
      invariant n <= limit && n <= |UntilNul(s)|
      invariant n < limit ==> n < |s|
    {
      n := n + 1;
    }
  }

  // ---------------------------------------------------------------- one character

  lemma EncodeIsChar(cp: Scalar)
    ensures IsChar(Encode(cp)) && Value(Encode(cp)) == cp
  {
    var low, mid, high := cp / 0x40, cp / 0x40 / 0x40, cp / 0x40 / 0x40 / 0x40;
    assert cp == low * 0x40 + cp % 0x40 && low == mid * 0x40 + low % 0x40 && mid == high * 0x40 + mid % 0x40;
  }

  lemma Digit64(n: int, q: int, r: int)
    requires n == q * 0x40 + r && 0 <= r < 0x40
    ensures n / 0x40 == q && n % 0x40 == r
  {
  }

  lemma CharIsEncode(s: seq<byte>)
    requires IsChar(s)
    ensures Encode(Value(s)) == s
  {
    var cp := Value(s);
    if |s| == 2 {
      Digit64(cp, Bits(s[0], 0xC0), Bits(s[1], 0x80));
    } else if |s| == 3 {
      var low := Bits(s[0], 0xE0) * 0x40 + Bits(s[1], 0x80);
      Digit64(cp, low, Bits(s[2], 0x80));
      Digit64(low, Bits(s[0], 0xE0), Bits(s[1], 0x80));
    } else if |s| == 4 {
      var mid := Bits(s[0], 0xF0) * 0x40 + Bits(s[1], 0x80);
      var low := mid * 0x40 + Bits(s[2], 0x80);
      Digit64(cp, low, Bits(s[3], 0x80));
      Digit64(low, mid, Bits(s[2], 0x80));
      Digit64(mid, Bits(s[0], 0xF0), Bits(s[1], 0x80));
    }
  }

  /** A character followed by anything is read as that character. */
  lemma FrontOfChar(s: seq<byte>, rest: seq<byte>)
    requires IsChar(s)
    ensures FrontWidth(s + rest) == |s|
  {
    assert (s + rest)[..|s|] == s;
  }

  /** Byte strings in the order of their first difference; a front comes before what it is a front of. */
  predicate Before(a: seq<byte>, b: seq<byte>) {
    b != [] && (a == [] || a[0] < b[0] || (a[0] == b[0] && Before(a[1..], b[1..])))
  }

  lemma BeforeAt(a: seq<byte>, b: seq<byte>, k: nat)
    requires k < |a| && k < |b| && a[..k] == b[..k] && a[k] < b[k]
    ensures Before(a, b)
  {
    if k > 0 {
      assert a[0] == a[..k][0] && b[0] == b[..k][0];
      assert a[1..][..k - 1] == a[..k][1..] && b[1..][..k - 1] == b[..k][1..];
      BeforeAt(a[1..], b[1..], k - 1);
    }
  }

  /** Section 1 of RFC 3629: the order of the bytes is the order of the character numbers. */
  lemma EncodingKeepsOrder(a: Scalar, b: Scalar)
    requires a < b
    ensures Before(Encode(a), Encode(b))
  {
    hide Before;
    var x, y := Encode(a), Encode(b);
    var k := if x[0] < y[0] then 0 else if x[1] < y[1] then 1 else if x[2] < y[2] then 2 else 3;
    BeforeAt(x, y, k);
  }

  // ---------------------------------------------------------------- whole byte strings

  lemma EncodeAllCons(head: Scalar, tail: seq<Scalar>)
    ensures EncodeAll([head] + tail) == Encode(head) + EncodeAll(tail)
  {
    assert ([head] + tail)[1..] == tail;
  }

  lemma {:induction false} EncodeThenDecode(scalars: seq<Scalar>)
    ensures WellFormed(EncodeAll(scalars)) && Decode(EncodeAll(scalars)) == scalars
  {
    if scalars != [] {
      var head, tail := Encode(scalars[0]), EncodeAll(scalars[1..]);
      EncodeIsChar(scalars[0]);
      FrontOfChar(head, tail);
      EncodeThenDecode(scalars[1..]);
      assert EncodeAll(scalars) == head + tail;
      assert (head + tail)[..|head|] == head && (head + tail)[|head|..] == tail;
    }
  }

  lemma {:induction false} DecodeThenEncode(s: seq<byte>)
    requires WellFormed(s)
    ensures EncodeAll(Decode(s)) == s
    decreases |s|
  {
    if s != [] {
      var n := FrontWidth(s);
      CharIsEncode(s[..n]);
      DecodeThenEncode(s[n..]);
      EncodeAllCons(Value(s[..n]), Decode(s[n..]));
      assert s == s[..n] + s[n..];
    }
  }

  /** What the codec accepts is exactly what encoding produces, and the spelling is unique:
      no overlong form and no surrogate is ever accepted. */
  lemma AcceptedIffEncoded(s: seq<byte>)
    ensures WellFormed(s) <==> exists scalars :: EncodeAll(scalars) == s
    ensures forall a, b :: EncodeAll(a) == s && EncodeAll(b) == s ==> a == b
  {
    if WellFormed(s) {
      DecodeThenEncode(s);
    }
    forall scalars: seq<Scalar> | EncodeAll(scalars) == s ensures WellFormed(s) && Decode(s) == scalars {
      EncodeThenDecode(scalars);
    }
  }

  lemma {:induction false} EncodeAllConcat(a: seq<Scalar>, b: seq<Scalar>)
    ensures EncodeAll(a + b) == EncodeAll(a) + EncodeAll(b)
  {
    if a == [] {
      assert a + b == b;
    } else {
      var tail := a[1..];
      assert a + b == [a[0]] + (tail + b);
      EncodeAllCons(a[0], tail + b);
      EncodeAllConcat(tail, b);
    }
  }

  /** A NUL byte appears exactly where U+0000 is encoded. */
  lemma {:induction false} NulIffZeroScalar(scalars: seq<Scalar>)
    ensures 0 in EncodeAll(scalars) <==> 0 in scalars
  {
    if scalars != [] {
      NulIffZeroScalar(scalars[1..]);
      assert 0 in Encode(scalars[0]) <==> scalars[0] == 0;
      assert scalars == [scalars[0]] + scalars[1..];
    }
  }

  /** Seven-bit text is its own encoding. */
  lemma {:induction false} AsciiEncodesItself(scalars: seq<Scalar>)
    requires forall i :: 0 <= i < |scalars| ==> scalars[i] < 0x80
    ensures EncodeAll(scalars) == scalars
  {
    if scalars != [] { AsciiEncodesItself(scalars[1..]); }
  }
}
