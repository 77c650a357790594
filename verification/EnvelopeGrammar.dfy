/** The closed request object { "op": string, "payload"?: string, "capability"?: string }: what the parser reads,
    what a document looks like, and the proof that the two agree on every byte string. */
module EnvelopeGrammar {
  import opened Options
  import opened Utf8
  import opened JsonString

  type Text = seq<Scalar>
  type Fields = map<Text, Text>

  const OP: Text := [0x6F, 0x70]
  const PAYLOAD: Text := [0x70, 0x61, 0x79, 0x6C, 0x6F, 0x61, 0x64]
  const CAPABILITY: Text := [0x63, 0x61, 0x70, 0x61, 0x62, 0x69, 0x6C, 0x69, 0x74, 0x79]
  const NAMES: set<Text> := {OP, PAYLOAD, CAPABILITY}

  const OPEN: byte := 0x7B
  const CLOSE: byte := 0x7D
  const COLON: byte := 0x3A
  const COMMA: byte := 0x2C

  // ---------------------------------------------------------------- what the parser reads

  predicate IsBlank(b: byte) {
    b == 0x20 || b == 0x09 || b == 0x0A || b == 0x0D
  }

  /** Whitespace of section 2 of RFC 8259 in front of `s`. */
  function Blanks(s: seq<byte>): (n: nat)
    ensures n <= |s|
  {
    if s != [] && IsBlank(s[0]) then 1 + Blanks(s[1..]) else 0
  }

  function Skip(s: seq<byte>): seq<byte> {
    s[Blanks(s)..]
  }

  predicate StartsWith(s: seq<byte>, b: byte) {
    s != [] && s[0] == b
  }

  predicate StringHere(s: seq<byte>) {
    StartsWith(s, QUOTE) && Body(s[1..]).Some?
  }

  function StringText(s: seq<byte>): Text
    requires StringHere(s)
  {
    BodyText(s[1..])
  }

  function AfterString(s: seq<byte>): (rest: seq<byte>)
    requires StringHere(s)
    ensures |rest| == |s| - BodyLength(s[1..]) - 2
  {
    BodyIsSpelled(s[1..]);
    s[BodyLength(s[1..]) + 2..]
  }

  /** One member: name and value, and the input from the byte that must be a comma or the closing brace. */
  datatype Read = Read(key: Text, value: Text, rest: seq<byte>)

  function ReadMember(s: seq<byte>): (r: Option<Read>)
    ensures r.Some? ==> |r.value.rest| < |s|
  {
    var k := Skip(s);
    if !StringHere(k) then None
    else
      var c := Skip(AfterString(k));
      if !StartsWith(c, COLON) then None
      else
        var v := Skip(c[1..]);
        if !StringHere(v) then None
        else Some(Read(StringText(k), StringText(v), Skip(AfterString(v))))
  }

  /** A field may be stored once, and only under one of the three names. */
  function Store(seen: Fields, key: Text, value: Text): Option<Fields> {
    if key in NAMES && key !in seen then Some(seen[key := value]) else None
  }

  /** The member loop: the fields, when it gets to a closing brace, and what follows that brace. */
  function ReadMembers(s: seq<byte>, seen: Fields): Option<(Fields, seq<byte>)>
    decreases |s|
  {
    var r := ReadMember(s);
    if r.None? then None
    else
      var next := Store(seen, r.value.key, r.value.value);
      if next.None? then None
      else if StartsWith(r.value.rest, COMMA) then ReadMembers(r.value.rest[1..], next.value)
      else if StartsWith(r.value.rest, CLOSE) then Some((next.value, Skip(r.value.rest[1..])))
      else None
  }

  predicate HasOp(fields: Fields) {
    OP in fields && fields[OP] != []
  }

  function Parse(s: seq<byte>): Option<Fields> {
    var o := Skip(s);
    if !StartsWith(o, OPEN) then None
    else
      var m := ReadMembers(Skip(o[1..]), map[]);
      if m.Some? && m.value.1 == [] && HasOp(m.value.0) then Some(m.value.0) else None
  }

  /** The characters of an ordinary string. */
  function Letters(s: string): (text: Text)
    ensures |text| == |s|
  {
    seq(|s|, i requires 0 <= i < |s| => s[i] as Scalar)
  }

  lemma NamesAreSpelled()
    ensures OP == Letters("op") && PAYLOAD == Letters("payload") && CAPABILITY == Letters("capability")
  {
  }

  const BLANK_CHARS: string := " \t\n\r"
  const PUNCTUATION: string := "{}:,"

  /** Section 2 of RFC 8259: the white space and the structural characters of an object. */
  lemma TokensAreJson(b: byte)
    ensures IsBlank(b) <==> exists k :: 0 <= k < |BLANK_CHARS| && b == BLANK_CHARS[k] as int
    ensures [OPEN, CLOSE, COLON, COMMA] == Letters(PUNCTUATION)
  {
    if b == 0x20 { assert b == BLANK_CHARS[0] as int; }
    if b == 0x09 { assert b == BLANK_CHARS[1] as int; }
    if b == 0x0A { assert b == BLANK_CHARS[2] as int; }
    if b == 0x0D { assert b == BLANK_CHARS[3] as int; }
  }

  // ---------------------------------------------------------------- what a document looks like

  predicate AllBlank(w: seq<byte>) {
    forall i :: 0 <= i < |w| ==> IsBlank(w[i])
  }

  /** A member with the whitespace around its four tokens and any spelling of its two strings. */
  datatype Member = Member(lead: seq<byte>, key: seq<Item>, left: seq<byte>, right: seq<byte>, value: seq<Item>,
    trail: seq<byte>)

  predicate ValidMember(m: Member) {
    AllBlank(m.lead) && ValidItems(m.key) && AllBlank(m.left) && AllBlank(m.right) && ValidItems(m.value) &&
      AllBlank(m.trail)
  }

  function Quoted(items: seq<Item>): seq<byte> {
    [QUOTE] + SpellAll(items) + [QUOTE]
  }

  function PrintMember(m: Member, rest: seq<byte>): seq<byte> {
    m.lead + (Quoted(m.key) + (m.left + ([COLON] + (m.right + (Quoted(m.value) + (m.trail + rest))))))
  }

  /** The members separated by commas, then the closing brace and `end`. */
  function PrintMembers(members: seq<Member>, end: seq<byte>): seq<byte>
    requires members != []
  {
    PrintMember(members[0],
                if |members| == 1 then [CLOSE] + end else [COMMA] + PrintMembers(members[1..], end))
  }

  function Print(lead: seq<byte>, members: seq<Member>, trail: seq<byte>): seq<byte>
    requires members != []
  {
    lead + ([OPEN] + PrintMembers(members, trail))
  }

  predicate AllValid(members: seq<Member>) {
    forall i :: 0 <= i < |members| ==> ValidMember(members[i])
  }

  predicate ValidMembers(members: seq<Member>) {
    members != [] && AllValid(members)
  }

  /** The fields the members assign, if no name is unknown or repeated. */
  function Assigned(members: seq<Member>, seen: Fields): Option<Fields>
    requires AllValid(members)
  {
    if members == [] then Some(seen)
    else
      assert ValidMember(members[0]);
      var next := Store(seen, MeaningAll(members[0].key), MeaningAll(members[0].value));
      if next.None? then None else Assigned(members[1..], next.value)
  }

  // ---------------------------------------------------------------- tokens

  lemma {:induction false} SkipBlanks(w: seq<byte>, rest: seq<byte>)
    requires AllBlank(w) && (rest == [] || !IsBlank(rest[0]))
    ensures Skip(w + rest) == rest
  {
    if w == [] {
      assert w + rest == rest;
    } else {
      SkipBlanks(w[1..], rest);
      assert (w + rest)[1..] == w[1..] + rest;
      assert Skip(w + rest) == Skip(w[1..] + rest);
    }
  }

  lemma {:induction false} BlanksAreBlank(s: seq<byte>)
    ensures AllBlank(s[..Blanks(s)]) && s == s[..Blanks(s)] + Skip(s)
    ensures Skip(s) == [] || !IsBlank(Skip(s)[0])
  {
    if s != [] && IsBlank(s[0]) {
      BlanksAreBlank(s[1..]);
      assert s[..Blanks(s)] == [s[0]] + s[1..][..Blanks(s[1..])];
      assert Skip(s) == Skip(s[1..]);
    }
  }

  lemma ReadQuoted(items: seq<Item>, rest: seq<byte>)
    requires ValidItems(items)
    ensures StringHere(Quoted(items) + rest)
    ensures StringText(Quoted(items) + rest) == MeaningAll(items) && AfterString(Quoted(items) + rest) == rest
  {
    var s := Quoted(items) + rest;
    SpelledIsBody(items, rest);
    assert s[1..] == SpellAll(items) + [QUOTE] + rest;
    assert s[|Quoted(items)|..] == rest;
  }

  lemma StringIsQuoted(s: seq<byte>) returns (items: seq<Item>)
    requires StringHere(s)
    ensures ValidItems(items) && MeaningAll(items) == StringText(s) && s == Quoted(items) + AfterString(s)
  {
    items := Body(s[1..]).value;
    BodyIsSpelled(s[1..]);
    var text := SpellAll(items) + [QUOTE];
    assert s == [QUOTE] + s[1..] && s[1..] == text + s[1..][|text|..];
    assert s[1..][|text|..] == AfterString(s);
  }

  // ---------------------------------------------------------------- members

  lemma ReadPrinted(m: Member, rest: seq<byte>)
    requires ValidMember(m) && rest != [] && !IsBlank(rest[0])
    ensures ReadMember(PrintMember(m, rest)) == Some(Read(MeaningAll(m.key), MeaningAll(m.value), rest))
  {
    hide StringHere, StringText, AfterString, MeaningAll, Skip, Blanks;
    var afterValue := m.trail + rest;
    var value := Quoted(m.value) + afterValue;
    var colon := [COLON] + (m.right + value);
    var afterKey := m.left + colon;
    SkipBlanks(m.lead, Quoted(m.key) + afterKey);
    ReadQuoted(m.key, afterKey);
    SkipBlanks(m.left, colon);
    assert colon[1..] == m.right + value;
    SkipBlanks(m.right, value);
    ReadQuoted(m.value, afterValue);
    SkipBlanks(m.trail, rest);
  }

  lemma ReadIsPrinted(s: seq<byte>) returns (m: Member)
    requires ReadMember(s).Some?
    ensures ValidMember(m) && s == PrintMember(m, ReadMember(s).value.rest)
    ensures MeaningAll(m.key) == ReadMember(s).value.key && MeaningAll(m.value) == ReadMember(s).value.value
  {
    hide StringHere, StringText, AfterString, Quoted, MeaningAll, Skip, Blanks;
    BlanksAreBlank(s);
    var k := Skip(s);
    var key := StringIsQuoted(k);
    var afterKey := AfterString(k);
    BlanksAreBlank(afterKey);
    var c := Skip(afterKey);
    assert c == [COLON] + c[1..];
    BlanksAreBlank(c[1..]);
    var v := Skip(c[1..]);
    var value := StringIsQuoted(v);
    var afterValue := AfterString(v);
    BlanksAreBlank(afterValue);
    m := Member(s[..Blanks(s)], key, afterKey[..Blanks(afterKey)], c[1..][..Blanks(c[1..])], value,
      afterValue[..Blanks(afterValue)]);
  }

  // ---------------------------------------------------------------- documents

  lemma {:induction false} ReadPrintedMembers(members: seq<Member>, seen: Fields, trail: seq<byte>)
    requires ValidMembers(members) && AllBlank(trail)
    ensures ReadMembers(PrintMembers(members, trail), seen) ==
      if Assigned(members, seen).Some? then Some((Assigned(members, seen).value, [])) else None
  {
    hide ReadMember, PrintMember, MeaningAll, Blanks;
    var m := members[0];
    assert ValidMember(m);
    var next := Store(seen, MeaningAll(m.key), MeaningAll(m.value));
    if |members| == 1 {
      var rest := [CLOSE] + trail;
      ReadPrinted(m, rest);
      SkipBlanks(trail, []);
      assert rest[1..] == trail == trail + [];
    } else {
      var tail := PrintMembers(members[1..], trail);
      ReadPrinted(m, [COMMA] + tail);
      assert ([COMMA] + tail)[1..] == tail;
      if next.Some? { ReadPrintedMembers(members[1..], next.value, trail); }
    }
  }

  lemma {:induction false} ReadMembersArePrinted(s: seq<byte>, seen: Fields)
    returns (members: seq<Member>, trail: seq<byte>)
    requires ReadMembers(s, seen).Some? && ReadMembers(s, seen).value.1 == []
    ensures ValidMembers(members) && AllBlank(trail) && s == PrintMembers(members, trail)
    ensures Assigned(members, seen) == Some(ReadMembers(s, seen).value.0)
    decreases |s|
  {
    hide ReadMember, PrintMember, MeaningAll, Blanks;
    var r := ReadMember(s).value;
    var m := ReadIsPrinted(s);
    var next := Store(seen, r.key, r.value).value;
    if StartsWith(r.rest, COMMA) {
      var tail;
      tail, trail := ReadMembersArePrinted(r.rest[1..], next);
      members := [m] + tail;
      assert members[1..] == tail;
      assert r.rest == [COMMA] + r.rest[1..];
    } else {
      members, trail := [m], r.rest[1..];
      BlanksAreBlank(trail);
      assert trail == trail[..Blanks(trail)] + [];
      assert r.rest == [CLOSE] + trail;
    }
  }

  /** Printing and then parsing gives the fields back, for any order, whitespace and spelling. */
  lemma ParsePrinted(lead: seq<byte>, members: seq<Member>, trail: seq<byte>)
    requires AllBlank(lead) && ValidMembers(members) && AllBlank(trail)
    ensures Parse(Print(lead, members, trail)) ==
      if Assigned(members, map[]).Some? && HasOp(Assigned(members, map[]).value) then Assigned(members, map[]) else None
  {
    var body := PrintMembers(members, trail);
    SkipBlanks(lead, [OPEN] + body);
    assert ([OPEN] + body)[1..] == body;
    SkipLead(members, trail);
    ReadPrintedMembers(members, map[], trail);
  }

  /** The extra skip behind the opening brace is harmless: members may begin with whitespace anyway. */
  lemma SkipLead(members: seq<Member>, trail: seq<byte>)
    requires ValidMembers(members)
    ensures ReadMembers(Skip(PrintMembers(members, trail)), map[]) == ReadMembers(PrintMembers(members, trail), map[])
  {
    SkipTwice(PrintMembers(members, trail));
  }

  lemma SkipTwice(s: seq<byte>)
    ensures Skip(Skip(s)) == Skip(s)
    ensures forall seen :: ReadMembers(Skip(s), seen) == ReadMembers(s, seen)
  {
    hide StringHere, StringText, AfterString, Store;
    BlanksAreBlank(s);
    BlanksAreBlank(Skip(s));
    SkipBlanks([], Skip(s));
    assert [] + Skip(s) == Skip(s);
    assert ReadMember(Skip(s)) == ReadMember(s);
  }

  /** Every text the parser accepts is a printed document: nothing is repeated, unknown or left over. */
  lemma ParsedIsPrinted(s: seq<byte>) returns (lead: seq<byte>, members: seq<Member>, trail: seq<byte>)
    requires Parse(s).Some?
    ensures AllBlank(lead) && ValidMembers(members) && AllBlank(trail) && s == Print(lead, members, trail)
    ensures Assigned(members, map[]) == Parse(s)
  {
    hide ReadMember, PrintMember, MeaningAll, Blanks, Skip, ReadMembers, PrintMembers, Assigned;
    BlanksAreBlank(s);
    lead := s[..Blanks(s)];
    var o := Skip(s);
    SkipTwice(o[1..]);
    members, trail := ReadMembersArePrinted(o[1..], map[]);
    assert o == [OPEN] + o[1..];
  }

  ghost predicate IsDocument(s: seq<byte>, fields: Fields) {
    exists lead, members, trail ::
      && AllBlank(lead) && ValidMembers(members) && AllBlank(trail)
      && s == Print(lead, members, trail)
      && Assigned(members, map[]) == Some(fields) && HasOp(fields)
  }

  /** The parser's language, both directions: it accepts precisely the printed documents and returns their fields. */
  lemma ParseIsExact(s: seq<byte>, fields: Fields)
    ensures Parse(s) == Some(fields) <==> IsDocument(s, fields)
  {
    hide Print, Assigned, Skip, ReadMembers;
    if Parse(s) == Some(fields) {
      var lead, members, trail := ParsedIsPrinted(s);
    }
    if IsDocument(s, fields) {
      var lead, members, trail :|
        && AllBlank(lead) && ValidMembers(members) && AllBlank(trail)
        && s == Print(lead, members, trail)
        && Assigned(members, map[]) == Some(fields) && HasOp(fields);
      ParsePrinted(lead, members, trail);
    }
  }

  // ---------------------------------------------------------------- fields

  function Key(m: Member): Text
    requires ValidMember(m)
  {
    MeaningAll(m.key)
  }

  /** Names as they are meant, not as they are spelled: known, new and pairwise different. */
  predicate KeysFit(members: seq<Member>, seen: Fields)
    requires AllValid(members)
  {
    && (forall i :: 0 <= i < |members| ==>
      ValidMember(members[i]) && Key(members[i]) in NAMES && Key(members[i]) !in seen)
    && (forall i, j :: 0 <= i < j < |members| ==>
      ValidMember(members[i]) && ValidMember(members[j]) && Key(members[i]) != Key(members[j]))
  }

  lemma KeysFitStep(members: seq<Member>, seen: Fields, value: Text)
    requires members != [] && AllValid(members) && ValidMember(members[0])
    ensures KeysFit(members, seen) <==>
      && Key(members[0]) in NAMES && Key(members[0]) !in seen
      && KeysFit(members[1..], seen[Key(members[0]) := value])
  {
    hide Key, ValidMember;
    var rest, next := members[1..], seen[Key(members[0]) := value];
    assert forall i :: 0 <= i < |rest| ==> rest[i] == members[i + 1];
    if KeysFit(members, seen) {
      forall i | 0 <= i < |rest| ensures Key(rest[i]) in NAMES && Key(rest[i]) !in next {
        assert Key(members[0]) != Key(members[i + 1]);
      }
    }
    if Key(members[0]) in NAMES && Key(members[0]) !in seen && KeysFit(rest, next) {
      forall i, j | 0 <= i < j < |members| ensures Key(members[i]) != Key(members[j]) {
        assert members[j] == rest[j - 1];
        if i > 0 { assert members[i] == rest[i - 1]; }
      }
      forall i | 0 <= i < |members| ensures Key(members[i]) in NAMES && Key(members[i]) !in seen {
        if i > 0 { assert members[i] == rest[i - 1]; }
      }
    }
  }

  /** A text is accepted for its names when each is one of the three and none comes twice. */
  lemma {:induction false} AssignedIffKeysFit(members: seq<Member>, seen: Fields)
    requires AllValid(members)
    ensures Assigned(members, seen).Some? <==> KeysFit(members, seen)
  {
    if members != [] {
      assert ValidMember(members[0]);
      var value := MeaningAll(members[0].value);
      KeysFitStep(members, seen, value);
      if Store(seen, Key(members[0]), value).Some? {
        AssignedIffKeysFit(members[1..], seen[Key(members[0]) := value]);
      }
    }
  }

  /** What the parsed fields are: every member's value under its name, and nothing else. */
  lemma {:induction false} AssignedIsLookup(members: seq<Member>, seen: Fields)
    requires AllValid(members) && Assigned(members, seen).Some?
    ensures var fields := Assigned(members, seen).value;
      && (forall m :: m in members ==> ValidMember(m) && Key(m) in fields && fields[Key(m)] == MeaningAll(m.value))
      && (forall name :: name in fields ==>
        name in seen || exists m :: m in members && ValidMember(m) && Key(m) == name)
      && (forall name :: name in seen ==> name in fields && fields[name] == seen[name])
  {
    hide MeaningAll;
    if members != [] {
      var m, rest := members[0], members[1..];
      assert ValidMember(m) && members == [m] + rest;
      AssignedIsLookup(rest, seen[Key(m) := MeaningAll(m.value)]);
    }
  }

  predicate IsNamed(m: Member, name: string) {
    ValidMember(m) && MeaningAll(m.key) == Letters(name)
  }

  /** What the members say about a name: the value of the member that has it, and nothing when none has it. */
  ghost predicate Says(members: seq<Member>, name: string, value: Option<Text>) {
    && (forall m :: m in members && IsNamed(m, name) ==> value == Some(MeaningAll(m.value)))
    && ((forall m :: m in members ==> !IsNamed(m, name)) ==> value == None)
  }

  function Field(fields: Fields, name: Text): Option<Text> {
    if name in fields then Some(fields[name]) else None
  }

  lemma AssignedSays(members: seq<Member>, name: string)
    requires AllValid(members) && Assigned(members, map[]).Some?
    ensures Says(members, name, Field(Assigned(members, map[]).value, Letters(name)))
  {
    hide ValidMember, Assigned, MeaningAll, Letters;
    AssignedIsLookup(members, map[]);
  }

  /** Every member has one of the three names, as it is meant and not as it is spelled. */
  predicate NamesKnown(members: seq<Member>) {
    forall m :: m in members ==> NameKnown(m)
  }

  predicate NameKnown(m: Member) {
    IsNamed(m, "op") || IsNamed(m, "payload") || IsNamed(m, "capability")
  }

  predicate NamesDiffer(members: seq<Member>) {
    forall i, j :: 0 <= i < j < |members| ==>
      ValidMember(members[i]) && ValidMember(members[j]) && MeaningAll(members[i].key) != MeaningAll(members[j].key)
  }

  /** The names are known and different, and the operation is there and not empty. */
  ghost predicate IsRequest(members: seq<Member>) {
    NamesKnown(members) && NamesDiffer(members) &&
      exists m :: m in members && IsNamed(m, "op") && MeaningAll(m.value) != []
  }

  lemma KnownIffNamed(m: Member)
    requires ValidMember(m)
    ensures Key(m) in NAMES <==> NameKnown(m)
  {
    NamesAreSpelled();
    hide MeaningAll, Letters;
  }

  lemma RequestKeysFit(members: seq<Member>)
    requires AllValid(members)
    ensures KeysFit(members, map[]) <==> NamesKnown(members) && NamesDiffer(members)
  {
    hide MeaningAll, NameKnown, ValidMember, NAMES;
    forall m | m in members ensures ValidMember(m) && (Key(m) in NAMES <==> NameKnown(m)) { KnownIffNamed(m); }
  }

  /** Exactly the requests are accepted, in any order, white space and spelling, and every field is what they say. */
  lemma RequestIsAccepted(lead: seq<byte>, members: seq<Member>, trail: seq<byte>)
    requires AllBlank(lead) && ValidMembers(members) && AllBlank(trail)
    ensures var fields := Parse(Print(lead, members, trail));
      && (fields.Some? <==> IsRequest(members))
      && (fields.Some? ==> forall name :: name in {"op", "payload", "capability"} ==>
            Says(members, name, Field(fields.value, Letters(name))))
  {
    hide Parse, Print, KeysFit, Says, Assigned, Letters, IsNamed;
    ParsePrinted(lead, members, trail);
    AssignedIffKeysFit(members, map[]);
    RequestKeysFit(members);
    NamesAreSpelled();
    if Assigned(members, map[]).Some? {
      forall name: string ensures Says(members, name, Field(Assigned(members, map[]).value, Letters(name))) {
        AssignedSays(members, name);
      }
      OpIsSaid(members, Field(Assigned(members, map[]).value, OP));
    }
  }

  lemma OpIsSaid(members: seq<Member>, value: Option<Text>)
    requires Says(members, "op", value)
    ensures value.Some? && value.value != [] <==>
      exists m :: m in members && IsNamed(m, "op") && MeaningAll(m.value) != []
  {
    hide IsNamed, MeaningAll;
  }
}
