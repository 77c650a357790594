/** parse_json_string of starintel_ecl_envelope.h, proved exact against the string grammar of section 7 of RFC 8259. */
module JsonString {
  import opened Options
  import opened Utf8
  import opened Utf16
  import opened Memory

  const QUOTE: byte := 0x22
  const BACKSLASH: byte := 0x5C
  const LETTER_U: byte := 0x75
  const MAX_STRING_BYTES := 1024 * 1024

  // ---------------------------------------------------------------- the grammar

  /** One spelled character: itself, a two-byte escape, or one or two hexadecimal escapes. */
  datatype Item =
    | Raw(cp: Scalar)
    | Short(letter: byte)
    | Hex(digits: seq<byte>)
    | Pair(high: seq<byte>, low: seq<byte>)

  /** hex_value */
  function HexValue(c: byte): (d: int)
    ensures -1 <= d < 16
  {
    if 0x30 <= c <= 0x39 then c as int - 0x30
    else if 0x61 <= c <= 0x66 then c as int - 0x61 + 10
    else if 0x41 <= c <= 0x46 then c as int - 0x41 + 10
    else -1
  }

  const LOWER_DIGITS: string := "0123456789abcdef"
  const UPPER_DIGITS: string := "0123456789ABCDEF"

  lemma DigitsInOrder(d: nat)
    requires d < 16
    ensures LOWER_DIGITS[d] as int == (if d < 10 then 0x30 + d else 0x61 + d - 10)
    ensures UPPER_DIGITS[d] as int == (if d < 10 then 0x30 + d else 0x41 + d - 10)
  {
  }

  predicate HexDigit(c: byte, d: nat) {
    d < 16 && (c == LOWER_DIGITS[d] as int || c == UPPER_DIGITS[d] as int)
  }

  /** The digits of both cases, in order, and no other characters. */
  lemma HexValueIsExact(c: byte, d: nat)
    requires d < 16
    ensures HexValue(c) == d <==> HexDigit(c, d)
    ensures HexValue(c) == -1 <==> forall k :: 0 <= k < 16 ==> !HexDigit(c, k)
  {
    DigitsInOrder(d);
    if HexValue(c) >= 0 {
      DigitsInOrder(HexValue(c));
      assert HexDigit(c, HexValue(c));
    } else {
      forall k | 0 <= k < 16 ensures !HexDigit(c, k) { DigitsInOrder(k); }
    }
  }

  predicate FourDigits(s: seq<byte>) {
    |s| == 4 && forall i :: 0 <= i < 4 ==> HexValue(s[i]) >= 0
  }

  function HexNumber(s: seq<byte>): (n: nat)
    requires FourDigits(s)
    ensures n < 0x10000
  {
    ((HexValue(s[0]) * 16 + HexValue(s[1])) * 16 + HexValue(s[2])) * 16 + HexValue(s[3])
  }

  /** The character a two-byte escape stands for. */
  function ShortMeaning(letter: byte): Option<Scalar> {
    if letter == QUOTE || letter == BACKSLASH || letter == 0x2F then Some(letter)
    else if letter == 0x62 then Some(0x08)
    else if letter == 0x66 then Some(0x0C)
    else if letter == 0x6E then Some(0x0A)
    else if letter == 0x72 then Some(0x0D)
    else if letter == 0x74 then Some(0x09)
    else None
  }

  /** The letters of the two-byte escapes in section 7 of RFC 8259, and the characters they denote. */
  const ESCAPE_LETTERS: string := "\"\\/bfnrt"
  const ESCAPED_CHARS: string := "\"\\/\U{8}\U{C}\n\r\t"

  lemma EscapesInOrder()
    ensures |ESCAPE_LETTERS| == |ESCAPED_CHARS| == 8
    ensures ESCAPE_LETTERS[0] as int == 0x22 && ESCAPED_CHARS[0] as int == 0x22
    ensures ESCAPE_LETTERS[1] as int == 0x5C && ESCAPED_CHARS[1] as int == 0x5C
    ensures ESCAPE_LETTERS[2] as int == 0x2F && ESCAPED_CHARS[2] as int == 0x2F
    ensures ESCAPE_LETTERS[3] as int == 0x62 && ESCAPED_CHARS[3] as int == 0x08
    ensures ESCAPE_LETTERS[4] as int == 0x66 && ESCAPED_CHARS[4] as int == 0x0C
    ensures ESCAPE_LETTERS[5] as int == 0x6E && ESCAPED_CHARS[5] as int == 0x0A
    ensures ESCAPE_LETTERS[6] as int == 0x72 && ESCAPED_CHARS[6] as int == 0x0D
    ensures ESCAPE_LETTERS[7] as int == 0x74 && ESCAPED_CHARS[7] as int == 0x09
  {
  }

  /** The eight letters, each with its character, and no other byte. */
  lemma ShortMeaningIsExact(c: byte)
    ensures |ESCAPE_LETTERS| == |ESCAPED_CHARS| == 8
    ensures forall k :: 0 <= k < 8 && c == ESCAPE_LETTERS[k] as int ==> ShortMeaning(c) == Some(ESCAPED_CHARS[k] as int)
    ensures ShortMeaning(c).Some? ==> exists k :: 0 <= k < 8 && c == ESCAPE_LETTERS[k] as int
  {
    EscapesInOrder();
  }

  predicate ValidItem(item: Item) {
    match item
    case Raw(cp) => cp >= 0x20 && cp != QUOTE && cp != BACKSLASH
    case Short(letter) => ShortMeaning(letter).Some?
    case Hex(digits) => FourDigits(digits) && !IsHigh(HexNumber(digits)) && !IsLow(HexNumber(digits))
    case Pair(high, low) => FourDigits(high) && IsHigh(HexNumber(high)) && FourDigits(low) && IsLow(HexNumber(low))
  }

  predicate ValidItems(items: seq<Item>) {
    forall i :: 0 <= i < |items| ==> ValidItem(items[i])
  }

  function Spell(item: Item): (s: seq<byte>)
    ensures ValidItem(item) ==> s != []
  {
    match item
    case Raw(cp) => Encode(cp)
    case Short(letter) => [BACKSLASH, letter]
    case Hex(digits) => [BACKSLASH, LETTER_U] + digits
    case Pair(high, low) => [BACKSLASH, LETTER_U] + high + [BACKSLASH, LETTER_U] + low
  }

  function Meaning(item: Item): Scalar
    requires ValidItem(item)
  {
    match item
    case Raw(cp) => cp
    case Short(letter) => ShortMeaning(letter).value
    case Hex(digits) => HexNumber(digits)
    case Pair(high, low) => Paired(HexNumber(high), HexNumber(low))
  }

  function SpellAll(items: seq<Item>): seq<byte> {
    if items == [] then [] else Spell(items[0]) + SpellAll(items[1..])
  }

  function MeaningAll(items: seq<Item>): (scalars: seq<Scalar>)
    requires ValidItems(items)
    ensures |scalars| == |items|
  {
    if items == [] then [] else [Meaning(items[0])] + MeaningAll(items[1..])
  }

  // ---------------------------------------------------------------- what the decoder reads

  /** The item that `s` starts with. */
  function FrontItem(s: seq<byte>): Option<Item> {
    if s == [] || s[0] < 0x20 || s[0] == QUOTE then None
    else if s[0] != BACKSLASH then
      if FrontWidth(s) == 0 then None else Some(Raw(Value(s[..FrontWidth(s)])))
    else FrontEscape(s)
  }

  function FrontEscape(s: seq<byte>): Option<Item> {
    if |s| < 2 then None
    else if s[1] != LETTER_U then
      if ShortMeaning(s[1]).Some? then Some(Short(s[1])) else None
    else if |s| < 6 || !FourDigits(s[2..6]) then None
    else if IsHigh(HexNumber(s[2..6])) then
      if |s| >= 12 && s[6] == BACKSLASH && s[7] == LETTER_U && FourDigits(s[8..12]) && IsLow(HexNumber(s[8..12]))
      then Some(Pair(s[2..6], s[8..12])) else None
    else if IsLow(HexNumber(s[2..6])) then None
    else Some(Hex(s[2..6]))
  }

  lemma RawItemIsSpelled(s: seq<byte>)
    requires FrontItem(s).Some? && s[0] != BACKSLASH
    ensures ValidItem(FrontItem(s).value) && Spell(FrontItem(s).value) <= s
  {
    hide HexNumber, FourDigits;
    CharIsEncode(s[..FrontWidth(s)]);
    assert s[0] == s[..FrontWidth(s)][0];
  }

  lemma EscapeIsSpelled(s: seq<byte>)
    requires FrontEscape(s).Some? && s[0] == BACKSLASH
    ensures ValidItem(FrontEscape(s).value) && Spell(FrontEscape(s).value) <= s
  {
    hide HexNumber, HexValue;
  }

  lemma FrontItemIsSpelled(s: seq<byte>)
    requires FrontItem(s).Some?
    ensures ValidItem(FrontItem(s).value) && Spell(FrontItem(s).value) <= s
  {
    if s[0] != BACKSLASH { RawItemIsSpelled(s); } else {
      hide ValidItem, Spell;
      EscapeIsSpelled(s);
    }
  }

  lemma SpelledIsFrontItem(item: Item, rest: seq<byte>)
    requires ValidItem(item)
    ensures FrontItem(Spell(item) + rest) == Some(item)
  {
    var s := Spell(item) + rest;
    match item
    case Raw(cp) =>
      EncodeIsChar(cp);
      FrontOfChar(Encode(cp), rest);
      assert s[..|Encode(cp)|] == Encode(cp);
    case Short(letter) =>
    case Hex(digits) =>
      assert s[2..6] == digits;
    case Pair(high, low) =>
      assert s[2..6] == high && s[6..8] == [BACKSLASH, LETTER_U] && s[8..12] == low;
      assert s[6] == s[6..8][0] && s[7] == s[6..8][1];
  }

  /** Decoded text never outgrows its spelling. */
  lemma MeaningIsShorter(item: Item)
    requires ValidItem(item)
    ensures |Encode(Meaning(item))| <= |Spell(item)|
  {
  }

  /** The items up to the closing quote. */
  function Body(s: seq<byte>): Option<seq<Item>>
    decreases |s|
  {
    if s != [] && s[0] == QUOTE then Some([])
    else if FrontItem(s).None? then None
    else
      FrontItemIsSpelled(s);
      var item := FrontItem(s).value;
      var rest := Body(s[|Spell(item)|..]);
      if rest.None? then None else Some([item] + rest.value)
  }

  lemma SpellAllCons(item: Item, items: seq<Item>)
    ensures SpellAll([item] + items) == Spell(item) + SpellAll(items)
  {
    assert ([item] + items)[1..] == items;
  }

  lemma PrependItem(s: seq<byte>, item: Item, items: seq<Item>)
    requires Spell(item) <= s && SpellAll(items) + [QUOTE] <= s[|Spell(item)|..]
    ensures SpellAll([item] + items) + [QUOTE] <= s
  {
    SpellAllCons(item, items);
    assert s == Spell(item) + s[|Spell(item)|..];
  }

  lemma {:induction false} BodyIsSpelled(s: seq<byte>)
    requires Body(s).Some?
    ensures ValidItems(Body(s).value) && SpellAll(Body(s).value) + [QUOTE] <= s
    decreases |s|
  {
    if s[0] != QUOTE {
      FrontItemIsSpelled(s);
      var item := FrontItem(s).value;
      var tail := s[|Spell(item)|..];
      BodyIsSpelled(tail);
      PrependItem(s, item, Body(tail).value);
    }
  }

  lemma {:induction false} SpelledIsBody(items: seq<Item>, rest: seq<byte>)
    requires ValidItems(items)
    ensures Body(SpellAll(items) + [QUOTE] + rest) == Some(items)
  {
    var s := SpellAll(items) + [QUOTE] + rest;
    if items == [] {
      assert s == [QUOTE] + rest;
    } else {
      var item, tail := items[0], SpellAll(items[1..]) + [QUOTE] + rest;
      SpelledIsFrontItem(item, tail);
      assert s == Spell(item) + tail;
      assert s[|Spell(item)|..] == tail;
      FrontItemStart(s);
      SpelledIsBody(items[1..], rest);
      assert [item] + items[1..] == items;
    }
  }

  lemma FrontItemStart(s: seq<byte>)
    ensures FrontItem(s).Some? ==> s != [] && s[0] != QUOTE
  {
  }

  /** The decoder accepts exactly the strings of the grammar, each with its one reading. */
  lemma BodyIsExact(s: seq<byte>, items: seq<Item>)
    ensures Body(s) == Some(items) <==> ValidItems(items) && SpellAll(items) + [QUOTE] <= s
  {
    if Body(s) == Some(items) { BodyIsSpelled(s); }
    if ValidItems(items) && SpellAll(items) + [QUOTE] <= s {
      var text := SpellAll(items) + [QUOTE];
      SpelledIsBody(items, s[|text|..]);
      assert s == text + s[|text|..];
    }
  }

  /** The scalars spelled up to the closing quote. */
  function BodyText(s: seq<byte>): seq<Scalar>
    requires Body(s).Some?
  {
    BodyIsSpelled(s);
    MeaningAll(Body(s).value)
  }

  /** How many bytes the decoder consumes before the closing quote. */
  function BodyLength(s: seq<byte>): nat
    requires Body(s).Some?
  {
    |SpellAll(Body(s).value)|
  }

  // ---------------------------------------------------------------- what the strings of RFC 8259 denote

  predicate FourDigitsOf(s: seq<byte>, n: nat, a: nat, b: nat, c: nat, d: nat) {
    && |s| == 4 && HexDigit(s[0], a) && HexDigit(s[1], b) && HexDigit(s[2], c) && HexDigit(s[3], d)
    && n == a * 0x1000 + b * 0x100 + c * 0x10 + d
  }

  /** \\u and the four digits of `n`, in either case. */
  ghost predicate SpellsUnit(s: seq<byte>, n: nat) {
    && |s| == 6 && s[0] == '\\' as int && s[1] == 'u' as int
    && exists a, b, c, d :: FourDigitsOf(s[2..], n, a, b, c, d)
  }

  /** \\u twice, for the two halves of a surrogate pair. */
  ghost predicate SpellsPair(s: seq<byte>, cp: Scalar) {
    |s| == 12 && exists high: nat, low: nat ::
      && SpellsUnit(s[..6], high) && 0xD800 <= high <= 0xDBFF && SpellsUnit(s[6..], low) && 0xDC00 <= low <= 0xDFFF
      && cp == 0x10000 + (high - 0xD800) * 0x400 + (low - 0xDC00)
  }

  /** Section 7 of RFC 8259: the ways to write one character. */
  ghost predicate Spells(s: seq<byte>, cp: Scalar) {
    || (s == Encode(cp) && cp >= 0x20 && cp != '"' as int && cp != '\\' as int)
    || SpellsShort(s, cp)
    || SpellsUnit(s, cp)
    || SpellsPair(s, cp)
  }

  ghost predicate SpellsShort(s: seq<byte>, cp: Scalar) {
    |s| == 2 && s[0] == '\\' as int && exists k: nat ::
      k < |ESCAPE_LETTERS| == |ESCAPED_CHARS| && s[1] == ESCAPE_LETTERS[k] as int && cp == ESCAPED_CHARS[k] as int
  }

  /** `s` writes the characters of `text` one after the other. */
  ghost predicate Denotes(s: seq<byte>, text: seq<Scalar>) {
    if text == [] then s == []
    else exists n :: 0 < n <= |s| && Spells(s[..n], text[0]) && Denotes(s[n..], text[1..])
  }

  lemma DigitsSpellUnit(digits: seq<byte>)
    requires FourDigits(digits)
    ensures SpellsUnit([BACKSLASH, LETTER_U] + digits, HexNumber(digits))
  {
    hide HexValue;
    forall i | 0 <= i < 4 ensures HexDigit(digits[i], HexValue(digits[i])) {
      HexValueIsExact(digits[i], HexValue(digits[i]));
    }
    hide HexDigit;
    assert ([BACKSLASH, LETTER_U] + digits)[2..] == digits;
    assert FourDigitsOf(digits, HexNumber(digits), HexValue(digits[0]), HexValue(digits[1]), HexValue(digits[2]),
      HexValue(digits[3]));
  }

  lemma UnitHasDigits(s: seq<byte>, n: nat)
    requires SpellsUnit(s, n)
    ensures FourDigits(s[2..]) && HexNumber(s[2..]) == n && s == [BACKSLASH, LETTER_U] + s[2..]
  {
    hide HexValue, HexDigit;
    var digits := s[2..];
    var a, b, c, d :| FourDigitsOf(digits, n, a, b, c, d);
    DigitHasValue(digits[0], a);
    DigitHasValue(digits[1], b);
    DigitHasValue(digits[2], c);
    DigitHasValue(digits[3], d);
  }

  lemma DigitHasValue(c: byte, d: nat)
    requires HexDigit(c, d)
    ensures HexValue(c) == d
  {
    HexValueIsExact(c, d);
  }

  /** Every item of the decoder writes its meaning. */
  lemma ItemSpells(item: Item)
    requires ValidItem(item)
    ensures Spells(Spell(item), Meaning(item))
  {
    hide FourDigits, HexNumber, SpellsUnit, Encode;
    match item
    case Raw(cp) =>
    case Short(letter) =>
      ShortMeaningIsExact(letter);
      hide ShortMeaning;
      assert SpellsShort(Spell(item), Meaning(item));
    case Hex(digits) => DigitsSpellUnit(digits);
    case Pair(high, low) =>
      DigitsSpellUnit(high);
      DigitsSpellUnit(low);
      FourLong(high);
      FourLong(low);
      var s := Spell(item);
      assert s[..6] == [BACKSLASH, LETTER_U] + high && s[6..] == [BACKSLASH, LETTER_U] + low;
      assert SpellsPair(s, Meaning(item));
  }

  lemma FourLong(s: seq<byte>)
    requires FourDigits(s)
    ensures |s| == 4
  {
  }

  /** And every way to write a character is an item of the decoder. */
  lemma SpelledIsItem(s: seq<byte>, cp: Scalar) returns (item: Item)
    requires Spells(s, cp)
    ensures ValidItem(item) && Spell(item) == s && Meaning(item) == cp
  {
    hide FourDigits, HexNumber, SpellsUnit, Encode, SpellsShort, SpellsPair, ShortMeaning;
    if SpellsPair(s, cp) {
      item := PairIsItem(s, cp);
    } else if SpellsUnit(s, cp) {
      UnitHasDigits(s, cp);
      item := Hex(s[2..]);
    } else if SpellsShort(s, cp) {
      item := ShortIsItem(s, cp);
    } else {
      item := Raw(cp);
    }
  }

  lemma ShortIsItem(s: seq<byte>, cp: Scalar) returns (item: Item)
    requires SpellsShort(s, cp)
    ensures ValidItem(item) && Spell(item) == s && Meaning(item) == cp
  {
    hide ShortMeaning;
    ShortMeaningIsExact(s[1]);
    item := Short(s[1]);
  }

  lemma PairIsItem(s: seq<byte>, cp: Scalar) returns (item: Item)
    requires SpellsPair(s, cp)
    ensures ValidItem(item) && Spell(item) == s && Meaning(item) == cp
  {
    hide FourDigits, HexNumber, SpellsUnit;
    var high: nat, low: nat :|
      && SpellsUnit(s[..6], high) && 0xD800 <= high <= 0xDBFF && SpellsUnit(s[6..], low) && 0xDC00 <= low <= 0xDFFF
      && cp == 0x10000 + (high - 0xD800) * 0x400 + (low - 0xDC00);
    UnitHasDigits(s[..6], high);
    UnitHasDigits(s[6..], low);
    assert s == s[..6] + s[6..];
    item := Pair(s[..6][2..], s[6..][2..]);
  }

  lemma {:induction false} ItemsDenote(items: seq<Item>)
    requires ValidItems(items)
    ensures Denotes(SpellAll(items), MeaningAll(items))
  {
    hide Spells, ValidItem, Spell, Meaning;
    if items != [] {
      assert ValidItem(items[0]);
      ItemSpells(items[0]);
      ItemsDenote(items[1..]);
      var n, s := |Spell(items[0])|, SpellAll(items);
      assert s[..n] == Spell(items[0]) && s[n..] == SpellAll(items[1..]);
    }
  }

  lemma {:induction false} DenotedAreItems(s: seq<byte>, text: seq<Scalar>) returns (items: seq<Item>)
    requires Denotes(s, text)
    ensures ValidItems(items) && SpellAll(items) == s && MeaningAll(items) == text
    decreases text
  {
    hide Spells, ValidItem, Spell, Meaning;
    items := [];
    if text != [] {
      var n :| 0 < n <= |s| && Spells(s[..n], text[0]) && Denotes(s[n..], text[1..]);
      var item := SpelledIsItem(s[..n], text[0]);
      var rest := DenotedAreItems(s[n..], text[1..]);
      items := [item] + rest;
      assert items[1..] == rest && s == s[..n] + s[n..];
    }
  }

  /** What the decoder yields is what its input denotes. */
  lemma BodyDenotes(s: seq<byte>)
    requires Body(s).Some?
    ensures BodyLength(s) < |s| && s[BodyLength(s)] == QUOTE && Denotes(s[..BodyLength(s)], BodyText(s))
  {
    hide Denotes, ValidItem, ValidItems, Body, SpellAll, MeaningAll;
    BodyIsSpelled(s);
    var items := Body(s).value;
    ItemsDenote(items);
    assert s[..BodyLength(s)] == SpellAll(items);
  }

  /** And everything that denotes a text is decoded, to that text and no other. */
  lemma DenotedIsBody(body: seq<byte>, text: seq<Scalar>, rest: seq<byte>)
    requires Denotes(body, text)
    ensures var s := body + [QUOTE] + rest;
      Body(s).Some? && BodyLength(s) == |body| && BodyText(s) == text
  {
    hide Denotes, ValidItem, Body;
    var items := DenotedAreItems(body, text);
    SpelledIsBody(items, rest);
  }

  // ---------------------------------------------------------------- the decoder

  /** The loop that reads four hexadecimal digits. */
  method ReadHex(json: seq<byte>, start: nat) returns (ok: bool, value: nat, p: nat)
    requires start <= |json|
    ensures ok <==> start + 4 <= |json| && FourDigits(json[start..start + 4])
    ensures ok ==> p == start + 4 && value == HexNumber(json[start..p])
  {
    ok, value, p := false, 0, start;
    var i := 0;
    while i < 4
      invariant 0 <= i <= 4 && p == start + i <= |json|
      invariant forall k :: start <= k < p ==> HexValue(json[k]) >= 0
      invariant i == 1 ==> value == HexValue(json[start])
      invariant i == 2 ==> value == HexValue(json[start]) * 16 + HexValue(json[start + 1])
      invariant i == 3 ==>
        value == (HexValue(json[start]) * 16 + HexValue(json[start + 1])) * 16 + HexValue(json[start + 2])
      invariant i == 4 ==> FourDigits(json[start..p]) && value == HexNumber(json[start..p])
      invariant i == 0 ==> value == 0
    {
      if p >= |json| { return; }
      var d := HexValue(json[p]);
      p := p + 1;
      if d < 0 {
        if start + 4 <= |json| { assert json[start..start + 4][p - 1 - start] == json[p - 1]; }
        return;
      }
      value := value * 16 + d;
      i := i + 1;
    }
    ok := true;
  }

  lemma EscapeSpells(json: seq<byte>, start: nat)
    requires start < |json| && json[start] == BACKSLASH && FrontEscape(json[start..]).Some?
    ensures var item := FrontEscape(json[start..]).value;
      ValidItem(item) && start + |Spell(item)| <= |json| && Spells(json[start..start + |Spell(item)|], Meaning(item))
  {
    hide ValidItem, Spell, Meaning, Spells, FrontEscape;
    var s := json[start..];
    var item := FrontEscape(s).value;
    EscapeIsSpelled(s);
    ItemSpells(item);
    var n := |Spell(item)|;
    assert s[..n] == Spell(item);
    assert s[..n] == json[start..start + n];
  }

  /** One escape: its scalar and the cursor behind it. `p` is at the backslash. */
  method ReadEscape(json: seq<byte>, start: nat) returns (ok: bool, cp: uint32, p: nat)
    requires start < |json| && json[start] == BACKSLASH
    ensures ok <==> FrontEscape(json[start..]).Some?
    ensures ok ==> var item := FrontEscape(json[start..]).value;
      ValidItem(item) && cp == Meaning(item) && p == start + |Spell(item)| <= |json|
    ensures |ESCAPE_LETTERS| == |ESCAPED_CHARS| == 8
    ensures forall k :: 0 <= k < 8 && start + 1 < |json| && json[start + 1] == ESCAPE_LETTERS[k] as int ==>
      ok && cp == ESCAPED_CHARS[k] as int && p == start + 2
    ensures ok ==> p <= |json| && Spells(json[start..p], cp)
    ensures ok && json[start + 1] != 'u' as int ==>
      exists k :: 0 <= k < 8 && json[start + 1] == ESCAPE_LETTERS[k] as int
  {
    if start + 1 < |json| { ShortMeaningIsExact(json[start + 1]); }
    EscapesInOrder();
    if FrontEscape(json[start..]).Some? { EscapeSpells(json, start); }
    hide ESCAPE_LETTERS, ESCAPED_CHARS, Spells;
    ghost var s := json[start..];
    ok, cp, p := false, 0, start + 1;
    if p >= |json| { return; }
    var letter: byte := json[p];
    p := p + 1;
    if letter == LETTER_U {
      ok, cp, p := ReadUnicode(json, start);
    } else {
      var short := ShortMeaning(letter);
      if short.Some? { ok, cp := true, short.value; }
    }
  }

  /** \\u with four digits, and the second half of a surrogate pair when the first asks for it. */
  method ReadUnicode(json: seq<byte>, start: nat) returns (ok: bool, cp: uint32, p: nat)
    requires start + 2 <= |json| && json[start] == BACKSLASH && json[start + 1] == LETTER_U
    ensures ok <==> FrontEscape(json[start..]).Some?
    ensures ok ==> var item := FrontEscape(json[start..]).value;
      ValidItem(item) && cp == Meaning(item) && p == start + |Spell(item)| <= |json|
  {
    ghost var s := json[start..];
    var value;
    cp := 0;
    ok, value, p := ReadHex(json, start + 2);
    assert |s| >= 6 ==> s[2..6] == json[start + 2..start + 6];
    if !ok { return; }
    assert |s| >= 12 ==> s[8..12] == json[start + 8..start + 12];
    if 0xD800 <= value <= 0xDBFF {
      if |json| - p < 6 || json[p] != BACKSLASH || json[p + 1] != LETTER_U { return false, 0, p; }
      var low;
      ok, low, p := ReadHex(json, p + 2);
      if !ok { return; }
      if low < 0xDC00 || low > 0xDFFF { return false, 0, p; }
      cp := 0x10000 + (value - 0xD800) * 0x400 + (low - 0xDC00);
    } else if 0xDC00 <= value <= 0xDFFF {
      ok := false;
    } else {
      cp := value;
    }
  }

  lemma BodyStep(s: seq<byte>)
    requires FrontItem(s).Some?
    ensures var item := FrontItem(s).value;
      && ValidItem(item) && |Spell(item)| <= |s|
      && var rest := s[|Spell(item)|..];
      && (Body(s).Some? <==> Body(rest).Some?)
      && (Body(s).Some? ==> BodyText(s) == [Meaning(item)] + BodyText(rest))
      && (Body(s).Some? ==> BodyLength(s) == |Spell(item)| + BodyLength(rest))
  {
    FrontItemIsSpelled(s);
    var item := FrontItem(s).value;
    var rest := s[|Spell(item)|..];
    if Body(s).Some? {
      BodyIsSpelled(rest);
      var items := Body(rest).value;
      assert ([item] + items)[1..] == items;
    }
  }

  /** One round of the decoder's loop. The buffer has room for more than the input that is left,
      so neither capacity guard ever fires. */
  method DecodeItem(json: seq<byte>, start: nat, out: array<byte>, at: nat) returns (ok: bool, p: nat, n: nat)
    requires start < |json| && json[start] != QUOTE
    requires at + |json| < start + out.Length
    modifies out
    ensures ok <==> FrontItem(json[start..]).Some?
    ensures out[..at] == old(out[..])[..at]
    ensures ok ==> var item := FrontItem(json[start..]).value;
      && ValidItem(item)
      && p == start + |Spell(item)| <= |json|
      && n == at + |Encode(Meaning(item))| <= out.Length
      && out[..][at..n] == Encode(Meaning(item))
  {
    ok, p, n := false, start, at;
    if json[start] < 0x20 { return; }
    hide FrontItem, ValidItem, Spell, Meaning, Encode;
    if json[start] != BACKSLASH {
      ok, p, n := CopyRaw(json, start, out, at);
    } else {
      ok, p, n := DecodeEscape(json, start, out, at);
    }
  }

  /** A character that stands for itself. */
  method CopyRaw(json: seq<byte>, start: nat, out: array<byte>, at: nat) returns (ok: bool, p: nat, n: nat)
    requires start < |json| && json[start] != QUOTE && json[start] != BACKSLASH && json[start] >= 0x20
    requires at + |json| < start + out.Length
    modifies out
    ensures ok <==> FrontItem(json[start..]).Some?
    ensures out[..at] == old(out[..])[..at]
    ensures ok ==> var item := FrontItem(json[start..]).value;
      && ValidItem(item)
      && p == start + |Spell(item)| <= |json|
      && n == at + |Encode(Meaning(item))| <= out.Length
      && out[..][at..n] == Encode(Meaning(item))
  {
    ghost var s := json[start..];
    ok, p, n := false, start, at;
    var width, cp;
    ok, width, cp := Next(json[start..], 0, 0);
    assert s[0..] == s;
    if !ok { return; }
    RawItemIsSpelled(s);
    CharIsEncode(s[..width]);
    if width >= out.Length - n { return false, p, n; }
    hide FrontItem, ValidItem, Encode;
    forall k | 0 <= k < width { out[n + k] := json[start + k]; }
    assert out[at..at + width] == s[..width];
    p, n := p + width, n + width;
  }

  /** An escape, as the UTF-8 of what it denotes. */
  method DecodeEscape(json: seq<byte>, start: nat, out: array<byte>, at: nat) returns (ok: bool, p: nat, n: nat)
    requires start < |json| && json[start] == BACKSLASH
    requires at + |json| < start + out.Length
    modifies out
    ensures ok <==> FrontItem(json[start..]).Some?
    ensures out[..at] == old(out[..])[..at]
    ensures ok ==> var item := FrontItem(json[start..]).value;
      && ValidItem(item)
      && p == start + |Spell(item)| <= |json|
      && n == at + |Encode(Meaning(item))| <= out.Length
      && out[..][at..n] == Encode(Meaning(item))
  {
    ok, p, n := false, start, at;
    assert FrontItem(json[start..]) == FrontEscape(json[start..]);
    hide FrontItem, FrontEscape, ValidItem, Spell, Meaning, Spells, Encode, ESCAPE_LETTERS, ESCAPED_CHARS;
    var cp;
    ok, cp, p := ReadEscape(json, start);
    if !ok { return; }
    MeaningIsShorter(FrontEscape(json[start..]).value);
    var width := Width(cp);
    if width >= out.Length - n { return false, p, n; }
    width := EncodeInto(cp, out, n);
    n := n + width;
  }

  /** What is still to come at `s`, if a string of the grammar is there (`good`):
      `left` bytes up to its closing quote, which decode to `rest`. */
  ghost predicate Remaining(s: seq<byte>, good: bool, rest: seq<byte>, left: nat) {
    && (Body(s).Some? <==> good)
    && (good ==> rest == EncodeAll(BodyText(s)) && left == BodyLength(s))
  }

  lemma RemainingStep(s: seq<byte>, item: Item, good: bool, rest: seq<byte>, left: nat)
    returns (rest': seq<byte>, left': nat)
    requires Remaining(s, good, rest, left) && FrontItem(s) == Some(item) && ValidItem(item) && |Spell(item)| <= |s|
    ensures Remaining(s[|Spell(item)|..], good, rest', left')
    ensures good ==> rest == Encode(Meaning(item)) + rest' && left == |Spell(item)| + left'
  {
    BodyStep(s);
    var tail := s[|Spell(item)|..];
    rest', left' := [], 0;
    if good {
      rest', left' := EncodeAll(BodyText(tail)), BodyLength(tail);
      EncodeAllCons(Meaning(item), BodyText(tail));
    }
  }

  lemma RemainingEnd(s: seq<byte>, good: bool, rest: seq<byte>, left: nat)
    requires Remaining(s, good, rest, left)
    requires s == [] || s[0] == QUOTE || FrontItem(s).None?
    ensures good <==> s != [] && s[0] == QUOTE
    ensures good ==> rest == [] && left == 0
  {
  }

  /** A round of the loop keeps the decoder in step with the grammar, or finds that no string of it is there. */
  method DecodeNext(json: seq<byte>, from: nat, out: array<byte>, used: nat, ghost good: bool, ghost text: seq<byte>,
                    ghost rest: seq<byte>, ghost left: nat)
    returns (ok: bool, p: nat, n: nat, ghost rest': seq<byte>, ghost left': nat)
    requires from < |json| && json[from] != QUOTE && used + |json| < from + out.Length
    requires Remaining(json[from..], good, rest, left) && (good ==> Filling(out[..], text, used, rest))
    modifies out
    ensures ok ==> from < p <= |json| && n - used <= p - from && n <= out.Length
    ensures ok ==> Remaining(json[p..], good, rest', left')
    ensures ok && good ==> Filling(out[..], text, n, rest') && left == p - from + left'
    ensures !ok ==> !good
  {
    hide FrontItem, Spell, Meaning, Encode, Body, ValidItem;
    ghost var s, before := json[from..], out[..];
    rest', left' := [], 0;
    ok, p, n := DecodeItem(json, from, out, used);
    if ok {
      ghost var item := FrontItem(s).value;
      MeaningIsShorter(item);
      rest', left' := RemainingStep(s, item, good, rest, left);
      assert s[|Spell(item)|..] == json[p..];
      if good { FillMore(before, out[..], text, used, Encode(Meaning(item)), rest'); }
    } else {
      RemainingEnd(s, good, rest, left);
    }
  }

  /** Does a string of the grammar that fits the bound start at `p`? */
  ghost predicate StringAt(json: seq<byte>, p: nat) {
    p < |json| && json[p] == QUOTE && |json| - p <= MAX_STRING_BYTES && Body(json[p + 1..]).Some?
  }

  /** From quote to quote: the string at `start` ends at `end` and denotes `text`. */
  ghost predicate IsString(json: seq<byte>, start: nat, end: nat, text: seq<Scalar>) {
    start < end < |json| && json[start] == '"' as int && json[end] == '"' as int && Denotes(json[start + 1..end], text)
  }

  lemma StringIsBody(json: seq<byte>, start: nat, end: nat, text: seq<Scalar>)
    requires IsString(json, start, end, text)
    ensures var s := json[start + 1..];
      Body(s).Some? && BodyLength(s) == end - start - 1 && BodyText(s) == text
  {
    hide Denotes, Body, BodyText, BodyLength;
    DenotedIsBody(json[start + 1..end], text, json[end + 1..]);
    assert json[start + 1..] == json[start + 1..end] + [QUOTE] + json[end + 1..];
  }

  lemma BodyIsString(json: seq<byte>, start: nat)
    requires start < |json| && json[start] == QUOTE && Body(json[start + 1..]).Some?
    ensures IsString(json, start, start + 1 + BodyLength(json[start + 1..]), BodyText(json[start + 1..]))
  {
    hide Denotes, Body, BodyText, BodyLength;
    var s := json[start + 1..];
    BodyDenotes(s);
    assert s[..BodyLength(s)] == json[start + 1..start + 1 + BodyLength(s)];
  }

  /** At most one string starts at `start`, and it is the one the decoder reads. */
  lemma TheString(json: seq<byte>, start: nat) returns (here: bool, last: nat, chars: seq<Scalar>)
    ensures here <==> start < |json| && json[start] == QUOTE && Body(json[start + 1..]).Some?
    ensures here ==> last == start + 1 + BodyLength(json[start + 1..]) && chars == BodyText(json[start + 1..])
    ensures here ==> IsString(json, start, last, chars)
    ensures forall end: nat, text :: IsString(json, start, end, text) ==> here && end == last && text == chars
  {
    hide Denotes;
    here, last, chars := start < |json| && json[start] == QUOTE && Body(json[start + 1..]).Some?, 0, [];
    if here {
      last, chars := start + 1 + BodyLength(json[start + 1..]), BodyText(json[start + 1..]);
      BodyIsString(json, start);
    }
    forall end: nat, text | IsString(json, start, end, text) ensures here && end == last && text == chars {
      StringIsBody(json, start, end, text);
    }
  }

  /** parse_json_string. A null result leaves no block behind and does not move the cursor. */
  method ParseString(heap: Heap, json: seq<byte>, start: nat) returns (data: array?<byte>, len: nat, p: nat)
    requires start <= |json|
    modifies heap
    ensures heap.calls == old(heap.calls) + if start < |json| && json[start] == QUOTE &&
      |json| - start <= MAX_STRING_BYTES then 1 else 0
    ensures data != null <==> StringAt(json, start) && !heap.fails(old(heap.calls))
    ensures data == null ==> heap.live == old(heap.live) && p == start
    ensures data != null ==>
      && heap.live == old(heap.live) + {data} && fresh(data)
      && p == start + BodyLength(json[start + 1..]) + 2 <= |json|
      && len < data.Length && data[..len] == EncodeAll(BodyText(json[start + 1..])) && data[len] == 0
    ensures data != null ==> exists text :: IsString(json, start, p - 1, text) && data[..len] == EncodeAll(text)
    ensures forall end: nat, text :: IsString(json, start, end, text) ==>
      && (data != null <==> |json| - start <= MAX_STRING_BYTES && !heap.fails(old(heap.calls)))
      && (data != null ==> p == end + 1 && data[..len] == EncodeAll(text))
  {
    ghost var here, last, chars := TheString(json, start);
    hide IsString, BodyText, BodyLength, Body, EncodeAll;
    data, len, p := null, 0, start;
    if start >= |json| || json[start] != QUOTE { return; }
    var cap := |json| - start;
    if cap > MAX_STRING_BYTES { return; }
    var out := heap.MallocBytes(cap);
    if out == null { return; }
    var ok, n, q := FillString(json, start + 1, out);
    if !ok {
      heap.Free(out);
      return;
    }
    data, len, p := out, n, q;
  }

  /** The loop of parse_json_string over the input behind the opening quote. */
  method FillString(json: seq<byte>, start: nat, out: array<byte>) returns (ok: bool, n: nat, p: nat)
    requires start <= |json| && out.Length == |json| - start + 1
    modifies out
    ensures ok <==> Body(json[start..]).Some?
    ensures ok ==>
      && p == start + BodyLength(json[start..]) + 1 <= |json|
      && n < out.Length && out[..n] == EncodeAll(BodyText(json[start..])) && out[n] == 0
  {
    p, n := start, 0;
    ghost var good := Body(json[start..]).Some?;
    ghost var text: seq<byte> := if good then EncodeAll(BodyText(json[start..])) else [];
    ghost var length: nat := if good then BodyLength(json[start..]) else 0;
    ghost var rest, left := text, length;
    while p < |json| && json[p] != QUOTE
      invariant start + n <= p <= |json|
      invariant Remaining(json[p..], good, rest, left)
      invariant good ==> Filling(out[..], text, n, rest) && start + length == p + left
      decreases |json| - p
    {
      ok, p, n, rest, left := DecodeNext(json, p, out, n, good, text, rest, left);
      if !ok { return; }
    }
    RemainingEnd(json[p..], good, rest, left);
    if p >= |json| { return false, n, p; }
    p := p + 1;
    out[n] := 0;
    ok := true;
  }
}
