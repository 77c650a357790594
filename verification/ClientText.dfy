/** Text on its way between a Java caller and the Lisp dispatcher: `encode` and the checks of `readFrame` in
    OwnedEclProcess.java, against the checks of the native side. The charset coder of the Java library, in its
    REPORT mode, is taken by its definition: it accepts exactly the well-formed strings. */
module ClientText {
  import opened Options
  import opened Utf8
  import opened Utf16
  import opened JsonString
  import opened EnvelopeGrammar
  import opened Response
  import opened Adapter
  import opened Pipes
  import opened Framing
  import opened Runner

  /** encode; a null string is None. */
  function EncodeText(value: Option<seq<uint16>>, limit: nat): Option<seq<byte>> {
    if value.None? || |value.value| > limit || 0 in value.value then None
    else if !WellFormedUnits(value.value) then None
    else
      var bytes := EncodeAll(DecodeUnits(value.value));
      if |bytes| > limit then None else Some(bytes)
  }

  /** The body of a response frame as the caller gets it. */
  function DecodeText(bytes: seq<byte>): Option<seq<uint16>> {
    if |bytes| == 0 || |bytes| > MAX_RESPONSE_BYTES || 0 in bytes || !WellFormed(bytes) then None
    else Some(EncodeUnits(Decode(bytes)))
  }

  /** Exactly the bounded, NUL-free, well-formed strings are encoded: the length test on units excludes nothing more. */
  lemma EncodesExactly(value: seq<uint16>, limit: nat)
    ensures EncodeText(Some(value), limit).Some? <==>
      WellFormedUnits(value) && 0 !in DecodeUnits(value) && |EncodeAll(DecodeUnits(value))| <= limit
  {
    if WellFormedUnits(value) {
      DecodeUnitsThenEncode(value);
      ZeroUnitIffZeroScalar(DecodeUnits(value));
      UnitsFitInBytes(DecodeUnits(value));
    }
  }

  /** Every request the client sends is read back by the runner as the same bytes, passes its checks, reaches the
      adapter with its whole length before the terminator, and still means the same text. */
  lemma RequestArrives(value: seq<uint16>, later: seq<byte>)
    requires EncodeText(Some(value), MAX_REQUEST).Some? && EncodeText(Some(value), MAX_REQUEST) != Some([])
    ensures var body := EncodeText(Some(value), MAX_REQUEST).value;
      && LegalBody(body)
      && FrameHere(Frame(body) + later) && FrontBody(Frame(body) + later) == body &&
        AfterFrame(Frame(body) + later) == later
      && UntilNul(body + [0]) == body
      && EncodeUnits(Decode(body)) == value
  {
    hide FrameHere, FrontBody, AfterFrame, Frame;
    var scalars := DecodeUnits(value);
    var body := EncodeAll(scalars);
    DecodeUnitsThenEncode(value);
    ZeroUnitIffZeroScalar(scalars);
    NulIffZeroScalar(scalars);
    EncodeThenDecode(scalars);
    FrameIsRead(body, later);
    UntilNulOf(body, []);
    assert body + [0] + [] == body + [0];
  }

  /** Whatever the adapter returns and is not empty - a reply, an error object, or the complaint that memory ran out -
      passes the runner and the client, and arrives with the same scalars. */
  lemma AnswerArrives(text: seq<byte>, value: LispValue)
    requires ValidValue(value) && text != []
    requires text == Reply(value) || text == ErrorText(NO_MEMORY) || IsErrorText(text)
    ensures LegalAnswer(text) && DecodeText(text).Some?
    ensures var units := DecodeText(text).value; WellFormedUnits(units) && DecodeUnits(units) == Decode(text)
  {
    hide Reply, ErrorText, IsErrorText;
    AdapterTextIsClean(text, value);
    CleanIsLegal(text);
    UnitsRoundTrip(Decode(text));
  }

  /** The runner and the client agree on what an answer may be. */
  lemma BothEndsAgree(bytes: seq<byte>)
    ensures LegalAnswer(bytes) <==> DecodeText(bytes).Some?
  {
    if WellFormed(bytes) {
      DecodeThenEncode(bytes);
      NulIffZeroScalar(Decode(bytes));
    }
  }

  /** From the dispatcher to the caller: a stable, sendable string arrives character by character. */
  lemma LispTextReachesJava(chars: seq<uint32>)
    requires chars != [] && |chars| <= MAX_RESPONSE_BYTES && Size(chars, 0).Sized?
    ensures var text := DecodeText(Reply(LispString(chars, chars)));
      text.Some? && WellFormedUnits(text.value) && DecodeUnits(text.value) == chars
  {
    hide Size, Refits, Reply, Encode, WellFormed, Decode, LegalAnswer, EncodeReading, DecodeText;
    StableReplyIsExact(chars);
    SizedWithin(chars, 0);
    RefittingText(chars, Size(chars, 0).len - 0);
    ReadingIsText(chars);
    var scalars: seq<Scalar> := chars;
    EncodeThenDecode(scalars);
    assert EncodeAll(scalars) != [];
    hide EncodeAll, EncodeUnits, DecodeUnits, WellFormedUnits;
    AnswerArrives(Reply(LispString(chars, chars)), LispString(chars, chars));
  }

  /** From the caller to the dispatcher: the members of a document arrive as the fields they spell, and after any
      history the document makes one more call, whose arguments are what the members say. */
  lemma JavaTextReachesLisp(value: seq<uint16>, lead: seq<byte>, members: seq<Member>, trail: seq<byte>,
                            history: seq<Call>)
    requires AllBlank(lead) && ValidMembers(members) && AllBlank(trail)
    requires EncodeText(Some(value), MAX_REQUEST) == Some(Print(lead, members, trail))
    requires IsRequest(members)
    ensures var body := Print(lead, members, trail);
      LegalBody(body) && Parse(body) == Assigned(members, map[])
    ensures var calls := Asked(history, Print(lead, members, trail));
      && |calls| == |history| + 1 && calls[..|history|] == history
      && var call := calls[|history|];
      && Says(members, "op", Some(call.op))
      && Says(members, "payload", call.payload)
      && Says(members, "capability", call.capability)
  {
    hide Parse, Assigned, Print, LegalBody, Says, IsRequest, Letters;
    PrintIsNotEmpty(lead, members, trail);
    assert LegalBody(Print(lead, members, trail)) by { RequestArrives(value, []); }
    ParsePrinted(lead, members, trail);
    RequestIsAccepted(lead, members, trail);
    NamesAreSpelled();
  }

  lemma PrintIsNotEmpty(lead: seq<byte>, members: seq<Member>, trail: seq<byte>)
    requires members != []
    ensures Print(lead, members, trail) != []
  {
    hide PrintMembers;
  }
}
