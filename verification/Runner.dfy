/** The process of starintel_ecl_runner.c: handshake, frame loop, stop and exit code, over an adapter runtime and two
    pipes. */
module Runner {
  import opened Options
  import opened Utf8
  import opened Memory
  import opened EnvelopeGrammar
  import opened Envelope
  import opened Response
  import opened Adapter
  import opened Pipes
  import opened Framing

  const HELLO: seq<byte> := Ascii("{\"transport\":\"starintel-owned/1\",\"abi\":1}")

  /** valid_utf8: well-formed text without a literal NUL. */
  method ValidText(bytes: seq<byte>) returns (ok: bool)
    ensures ok <==> WellFormed(bytes) && 0 !in Decode(bytes)
  {
    hide IsChar, Payload, LeadWidth;
    var cursor: nat, scalar: uint32 := 0, 0;
    while cursor < |bytes|
      invariant cursor <= |bytes|
      invariant WellFormed(bytes) <==> WellFormed(bytes[cursor..])
      invariant WellFormed(bytes) ==> (0 in Decode(bytes) <==> 0 in Decode(bytes[cursor..]))
    {
      ghost var rest := bytes[cursor..];
      ok, cursor, scalar := Next(bytes, cursor, scalar);
      if ok {
        assert rest[FrontWidth(rest)..] == bytes[cursor..];
        assert rest[..FrontWidth(rest)] == bytes[cursor - FrontWidth(rest)..cursor];
        assert WellFormed(rest) ==> Decode(rest) == [scalar] + Decode(bytes[cursor..]);
      }
      if !ok || scalar == 0 { return false; }
    }
    ok := true;
  }

  // ---------------------------------------- what the child says, as a function of what it is asked

  /** The dispatcher calls after one more request. */
  function Asked(history: seq<Call>, request: seq<byte>): seq<Call> {
    if 0 < |request| <= MAX_REQUEST_BYTES && Parse(request).Some? && OP in Parse(request).value
    then history + [CallOf(Parse(request).value)] else history
  }

  function History(requests: seq<seq<byte>>): seq<Call> {
    if requests == [] then [] else Asked(History(requests[..|requests| - 1]), requests[|requests| - 1])
  }

  function AnswerTo(lisp: seq<Call> -> LispValue, history: seq<Call>, request: seq<byte>): seq<byte> {
    if 0 < |request| <= MAX_REQUEST_BYTES && Parse(request).Some?
    then Reply(lisp(Asked(history, request))) else ErrorText("malformed-request")
  }

  /** The answers to a list of requests, in order. */
  function Answers(lisp: seq<Call> -> LispValue, requests: seq<seq<byte>>): (answers: seq<seq<byte>>)
    ensures |answers| == |requests|
  {
    if requests == [] then []
    else
      var before := requests[..|requests| - 1];
      Answers(lisp, before) + [AnswerTo(lisp, History(before), requests[|requests| - 1])]
  }

  /** An answer the runner is willing to send, and a client willing to read. */
  predicate LegalAnswer(text: seq<byte>) {
    0 < |text| <= MAX_RESPONSE_BYTES && WellFormed(text) && 0 !in Decode(text)
  }

  // ---------------------------------------------------------------- one frame

  datatype Got = GotFrame | GotEof | GotStop | GotIllegal | GotNoMemory

  /** The body of a frame, behind a header that announced a legal length. */
  method ReadBody(heap: Heap, source: Source, length: nat) returns (got: Got, request: array?<byte>)
    requires 0 < length <= MAX_REQUEST_BYTES
    modifies heap, source
    ensures heap.calls == old(heap.calls) + 1
    ensures request != null <==> got == GotFrame
    ensures request == null ==> heap.live == old(heap.live)
    ensures got == GotFrame ==>
      && |old(source.unread)| >= length && LegalBody(old(source.unread)[..length])
      && source.unread == old(source.unread)[length..]
      && fresh(request) && heap.live == old(heap.live) + {request}
      && request[..] == old(source.unread)[..length] + [0]
    ensures got == GotFrame || got == GotIllegal || got == GotNoMemory
    ensures got == GotNoMemory ==> heap.fails(old(heap.calls))
    ensures Faultless(old(source.script)) ==> Faultless(source.script)
    ensures Faultless(old(source.script)) && got == GotIllegal && |old(source.unread)| >= length ==>
      !LegalBody(old(source.unread)[..length])
  {
    hide WellFormed, Decode;
    request := heap.MallocBytes(length + 1);
    if request == null { return GotNoMemory, null; }
    var status := ReadExact(source, request, length);
    var valid := false;
    if status == 1 { valid := ValidText(request[..length]); }
    if status != 1 || !valid {
      heap.Free(request);
      return GotIllegal, null;
    }
    request[length] := 0;
    assert request[..] == request[..length] + [0];
    got := GotFrame;
  }

  /** Header and body of the next frame. Only a complete legal frame yields a request. */
  method ReadRequest(heap: Heap, source: Source) returns (got: Got, request: array?<byte>, length: nat)
    modifies heap, source
    ensures old(heap.calls) <= heap.calls
    ensures request != null <==> got == GotFrame
    ensures request == null ==> heap.live == old(heap.live)
    ensures got == GotFrame ==>
      && fresh(request) && heap.live == old(heap.live) + {request}
      && FrameHere(old(source.unread)) && source.unread == AfterFrame(old(source.unread))
      && length == |FrontBody(old(source.unread))| && request[..] == FrontBody(old(source.unread)) + [0]
    ensures got == GotEof ==> old(source.unread) == []
    ensures got == GotStop ==> StopHere(old(source.unread)) && source.unread == old(source.unread)[4..]
    ensures got == GotNoMemory ==> !AllAllocated(heap, old(heap.calls), heap.calls)
    ensures Faultless(old(source.script)) ==> Faultless(source.script)
    ensures Faultless(old(source.script)) && got == GotIllegal ==>
      old(source.unread) != [] && !FrameHere(old(source.unread)) && !StopHere(old(source.unread))
  {
    ghost var s := source.unread;
    request, length := null, 0;
    var header := new byte[4];
    var status := ReadExact(source, header, 4);
    if status == 0 { return GotEof, null, 0; }
    if status < 0 { return GotIllegal, null, 0; }
    assert header[..] == header[..4] == s[..4];
    length := HeaderValue(header[..]);
    if length == 0 { return GotStop, null, 0; }
    if length > MAX_REQUEST_BYTES { return GotIllegal, null, 0; }
    assert |s| >= 4 + length ==> s[4..][..length] == s[4..4 + length] && s[4..][length..] == s[4 + length..];
    got, request := ReadBody(heap, source, length);
  }

  /** Text without NUL that every check of an answer accepts, unless it is empty. */
  predicate CleanText(text: seq<byte>) {
    WellFormed(text) && 0 !in text && |text| <= MAX_RESPONSE_BYTES
  }

  lemma CleanIsLegal(text: seq<byte>)
    requires CleanText(text)
    ensures LegalAnswer(text) <==> text != []
  {
    DecodeThenEncode(text);
    NulIffZeroScalar(Decode(text));
  }

  /** Everything the adapter can return is clean. */
  lemma AdapterTextIsClean(text: seq<byte>, value: LispValue)
    requires ValidValue(value)
    requires text == Reply(value) || text == ErrorText(NO_MEMORY) || IsErrorText(text)
    ensures CleanText(text)
    ensures IsErrorText(text) ==> text != []
  {
    hide Reply, ErrorText;
    ReplyIsCleanText(value);
    ErrorIsCleanText(NO_MEMORY);
    ErrorIsCleanText("request-required");
    ErrorIsCleanText("not-started");
    ErrorIsCleanText("request-too-large");
    ErrorIsCleanText("malformed-request");
  }

  lemma BlockHoldsText(block: seq<byte>, text: seq<byte>)
    requires |text| < |block| && block[..|text|] == text && block[|text|] == 0 && 0 !in text
    ensures UntilNul(block) == text
  {
    UntilNulOf(text, block[|text| + 1..]);
    assert block == text + [0] + block[|text| + 1..];
  }

  /** The check of a response: one that is not legal is freed. */
  method CheckResponse(heap: Heap, block: array<byte>, ghost answer: seq<byte>)
    returns (response: array?<byte>, length: nat)
    requires |answer| < block.Length && block[..|answer|] == answer && block[|answer|] == 0
    requires CleanText(answer) && block in heap.live
    modifies heap`live
    ensures response == (if LegalAnswer(answer) then block else null)
    ensures response != null ==> heap.live == old(heap.live) && length == |answer|
    ensures response == null ==> heap.live == old(heap.live) - {block}
  {
    hide WellFormed;
    CleanIsLegal(answer);
    BlockHoldsText(block[..], answer);
    length := BoundedStrlen(block[..], MAX_RESPONSE_BYTES + 1);
    var valid := false;
    if 0 < length <= MAX_RESPONSE_BYTES { valid := ValidText(block[..length]); }
    response := block;
    if !valid {
      heap.Free(block);
      response := null;
    }
  }

  /** starintel_ecl_request on a request, and the check of its answer. Only a legal answer comes back. */
  method Ask(runtime: Runtime, request: array<byte>, ghost body: seq<byte>)
    returns (response: array?<byte>, length: nat, ghost answer: seq<byte>)
    requires runtime.Valid() && runtime.started
    requires request[..] == body + [0] && 0 !in body && 0 < |body| <= MAX_REQUEST_BYTES
    requires request in runtime.heap.live
    modifies runtime, runtime.heap
    ensures runtime.Valid() && runtime.started && runtime.bootedOnce == old(runtime.bootedOnce)
    ensures old(runtime.heap.calls) <= runtime.heap.calls
    ensures response == null ==> runtime.heap.live == old(runtime.heap.live) - {request}
    ensures response != null ==>
      && runtime.heap.live == old(runtime.heap.live) - {request} + {response}
      && fresh(response) && length < response.Length && response[..length] == answer && LegalAnswer(answer)
    ensures runtime.calls == old(runtime.calls) || runtime.calls == Asked(old(runtime.calls), body)
    ensures AllAllocated(runtime.heap, old(runtime.heap.calls), runtime.heap.calls) ==>
      && runtime.calls == Asked(old(runtime.calls), body)
      && answer == AnswerTo(runtime.lisp, old(runtime.calls), body)
      && (response == null ==> answer == [])
  {
    hide Reply, ErrorText, Parse, WellFormed, CallOf;
    BlockHoldsText(request[..], body);
    length := 0;
    response, answer := runtime.Request(Some(request[..]));
    AdapterTextIsClean(answer, runtime.lisp(runtime.calls));
    CleanIsLegal(answer);
    hide LegalAnswer, CleanText;
    runtime.heap.Free(request);
    if response == null { return; }
    response, length := CheckResponse(runtime.heap, response, answer);
  }

  // ---------------------------------------------------------------- the frame loop

  /** How the loop ends: end of file between frames, a stop request, a broken frame, or a failure of the child's own. */
  datatype Ending = CleanEof | StopAsked | Illegal | Fault

  datatype Round = More | End(ending: Ending)

  /** What is left of an answer when writing it fails: the front of its frame. */
  ghost predicate Torn(part: seq<byte>) {
    part == [] || exists a :: LegalAnswer(a) && part <= Frame(a)
  }

  lemma TornFrame(answer: seq<byte>, part: seq<byte>)
    requires LegalAnswer(answer) && part <= Frame(answer)
    ensures Torn(part)
  {
  }

  /** One trip through the loop. `asked` says whether `body` was handed to the adapter, `part` is what was written. */
  method OneFrame(runtime: Runtime, source: Source, sink: Sink)
    returns (round: Round, ghost asked: bool, ghost body: seq<byte>, ghost answer: seq<byte>, ghost part: seq<byte>)
    requires runtime.Valid() && runtime.started
    modifies runtime, runtime.heap, source, sink
    ensures runtime.Valid() && runtime.started && runtime.bootedOnce == old(runtime.bootedOnce)
    ensures runtime.heap.live == old(runtime.heap.live) && old(runtime.heap.calls) <= runtime.heap.calls
    ensures sink.written == old(sink.written) + part
    ensures asked ==> FrameHere(old(source.unread)) && body == FrontBody(old(source.unread))
    ensures asked ==> source.unread == AfterFrame(old(source.unread))
    ensures round.More? ==> asked && LegalAnswer(answer) && part == Frame(answer)
    ensures round == End(Fault) || round == More || (!asked && part == [])
    ensures asked ==> runtime.calls == old(runtime.calls) || runtime.calls == Asked(old(runtime.calls), body)
    ensures !asked ==> runtime.calls == old(runtime.calls) && part == []
    ensures Torn(part)
    ensures asked && AllAllocated(runtime.heap, old(runtime.heap.calls), runtime.heap.calls) ==>
      runtime.calls == Asked(old(runtime.calls), body) && answer == AnswerTo(runtime.lisp, old(runtime.calls), body)
    ensures AllAllocated(runtime.heap, old(runtime.heap.calls), runtime.heap.calls) && Faultless(old(sink.script)) ==>
      (round == End(Fault) ==> asked && answer == [])
    ensures round == End(CleanEof) ==> old(source.unread) == []
    ensures round == End(StopAsked) ==> StopHere(old(source.unread)) && source.unread == old(source.unread)[4..]
    ensures Faultless(old(source.script)) ==> Faultless(source.script)
    ensures Faultless(old(source.script)) && round == End(Illegal) ==>
      old(source.unread) != [] && !FrameHere(old(source.unread)) && !StopHere(old(source.unread))
    ensures Faultless(old(sink.script)) ==> Faultless(sink.script)
  {
    hide AnswerTo, Asked, LegalBody, FrontBody, AfterFrame, Frame, StopHere;
    asked, body, answer, part := false, [], [], [];
    var got, request, length := ReadRequest(runtime.heap, source);
    if request == null {
      round := End(
        match got case GotEof => CleanEof case GotStop => StopAsked case GotIllegal => Illegal case _ => Fault);
      return;
    }
    asked, body := true, FrontBody(old(source.unread));
    FrontBodyIsPlain(old(source.unread));
    var response;
    response, length, answer := Ask(runtime, request, body);
    if response == null { return End(Fault), asked, body, answer, part; }
    var ok;
    ghost var done;
    ok, done := WriteFrame(sink, response[..length]);
    part := Frame(answer)[..done];
    if ok { part := Frame(answer); }
    assert Torn(part) by { TornFrame(answer, part); }
    runtime.heap.Free(response);
    round := if ok then More else End(Fault);
  }

  lemma FrontBodyIsPlain(s: seq<byte>)
    requires FrameHere(s)
    ensures 0 !in FrontBody(s) && 0 < |FrontBody(s)| <= MAX_REQUEST_BYTES
  {
    var body := FrontBody(s);
    DecodeThenEncode(body);
    NulIffZeroScalar(Decode(body));
  }

  ghost predicate AllAnswers(answers: seq<seq<byte>>) {
    forall i :: 0 <= i < |answers| ==> LegalAnswer(answers[i])
  }

  lemma LegalAnswerIsShort(answer: seq<byte>)
    requires LegalAnswer(answer)
    ensures 0 < |answer| <= MAX_RESPONSE_BYTES
  {
  }

  lemma AnswersStep(lisp: seq<Call> -> LispValue, requests: seq<seq<byte>>, body: seq<byte>)
    ensures History(requests + [body]) == Asked(History(requests), body)
    ensures Answers(lisp, requests + [body]) == Answers(lisp, requests) + [AnswerTo(lisp, History(requests), body)]
    ensures Answers(lisp, requests + [body])[..|requests|] == Answers(lisp, requests)
  {
    hide Asked, AnswerTo;
    assert (requests + [body])[..|requests|] == requests;
  }

  /** What the loop has taken from the stream so far, and what is still there. */
  predicate TakenSoFar(stream: seq<byte>, requests: seq<seq<byte>>, rest: seq<byte>) {
    Requests(stream) == requests + Requests(rest) && Leftover(stream) == Leftover(rest)
  }

  lemma OneMoreRequest(stream: seq<byte>, requests: seq<seq<byte>>, rest: seq<byte>)
    requires TakenSoFar(stream, requests, rest)
    ensures requests <= Requests(stream)
    ensures FrameHere(rest) ==>
      requests + [FrontBody(rest)] <= Requests(stream) &&
        TakenSoFar(stream, requests + [FrontBody(rest)], AfterFrame(rest))
    ensures !FrameHere(rest) ==> requests == Requests(stream) && Leftover(stream) == rest
    ensures rest == [] || StopHere(rest) ==> !FrameHere(rest)
  {
    hide FrameHere, FrontBody, AfterFrame;
    StreamStep(rest);
    if FrameHere(rest) {
      var more := requests + [FrontBody(rest)];
      assert requests + ([FrontBody(rest)] + Requests(AfterFrame(rest))) == more + Requests(AfterFrame(rest));
    }
  }

  /** The answers are those the dispatcher owes, and it was asked for no others. */
  predicate AnsweredSoFar(lisp: seq<Call> -> LispValue, requests: seq<seq<byte>>, answers: seq<seq<byte>>,
    calls: seq<Call>) {
    calls == History(requests) && answers == Answers(lisp, requests)
  }

  lemma OneMoreAnswer(lisp: seq<Call> -> LispValue, requests: seq<seq<byte>>, answers: seq<seq<byte>>, calls: seq<Call>,
    body: seq<byte>)
    requires AnsweredSoFar(lisp, requests, answers, calls)
    ensures AnsweredSoFar(lisp, requests + [body], answers + [AnswerTo(lisp, calls, body)], Asked(calls, body))
    ensures calls == History(requests) && answers == Answers(lisp, requests)[..|answers|]
    ensures Asked(calls, body) == History(requests + [body])
    ensures answers == Answers(lisp, requests + [body])[..|answers|] &&
      |Answers(lisp, requests + [body])| == |answers| + 1
    ensures Answers(lisp, requests + [body])[|requests|] == AnswerTo(lisp, calls, body)
  {
    hide Asked, AnswerTo;
    AnswersStep(lisp, requests, body);
  }

  ghost predicate SentSoFar(written: seq<byte>, before: seq<byte>, answers: seq<seq<byte>>) {
    AllAnswers(answers) && AllBounded(answers) && written == before + Frames(answers)
  }

  lemma OneMoreFrame(written: seq<byte>, before: seq<byte>, answers: seq<seq<byte>>, answer: seq<byte>)
    requires SentSoFar(written, before, answers) && LegalAnswer(answer)
    ensures |answer| <= MAX_RESPONSE_BYTES && SentSoFar(written + Frame(answer), before, answers + [answer])
  {
    hide LegalAnswer, Frame;
    LegalAnswerIsShort(answer);
    FramesConcat(answers, answer);
  }

  lemma NothingSoFar(stream: seq<byte>, written: seq<byte>, lisp: seq<Call> -> LispValue)
    ensures TakenSoFar(stream, [], stream) && SentSoFar(written, written, []) && AnsweredSoFar(lisp, [], [], [])
  {
    assert [] + Requests(stream) == Requests(stream);
  }

  /** The loop of main. What is asked and what is answered depends on the bytes of the two streams only,
      never on how the pipes cut them. */
  method FrameLoop(runtime: Runtime, source: Source, sink: Sink)
    returns (ending: Ending, ghost requests: seq<seq<byte>>, ghost answers: seq<seq<byte>>, ghost part: seq<byte>)
    requires runtime.Valid() && runtime.started && runtime.calls == []
    modifies runtime, runtime.heap, source, sink
    ensures runtime.Valid() && runtime.started && runtime.bootedOnce == old(runtime.bootedOnce)
    ensures runtime.heap.live == old(runtime.heap.live) && old(runtime.heap.calls) <= runtime.heap.calls
    ensures requests <= Requests(old(source.unread))
    ensures AllAnswers(answers) && AllBounded(answers) && sink.written == old(sink.written) + Frames(answers) + part
    ensures Torn(part) && (part != [] ==> |requests| == |answers| + 1)
    ensures ending != Fault ==> |answers| == |requests| && part == []
    ensures ending == Fault ==> |answers| <= |requests| <= |answers| + 1
    ensures ending == CleanEof ==> requests == Requests(old(source.unread)) && Leftover(old(source.unread)) == []
    ensures ending == StopAsked ==> requests == Requests(old(source.unread)) && StopHere(Leftover(old(source.unread)))
    ensures ending == Illegal && Faultless(old(source.script)) ==>
      requests == Requests(old(source.unread)) && Leftover(old(source.unread)) != [] &&
        !StopHere(Leftover(old(source.unread)))
    ensures AllAllocated(runtime.heap, old(runtime.heap.calls), runtime.heap.calls) ==>
      runtime.calls == History(requests) && answers == Answers(runtime.lisp, requests)[..|answers|]
    ensures AllAllocated(runtime.heap, old(runtime.heap.calls), runtime.heap.calls) && Faultless(old(sink.script)) ==>
      (ending == Fault ==> requests != [] && Answers(runtime.lisp, requests)[|requests| - 1] == [])
    ensures Faultless(old(sink.script)) ==> Faultless(sink.script)
  {
    hide FrameHere, FrontBody, AfterFrame, LegalAnswer, StopHere, AnswerTo, Asked, Frame, Requests, Leftover,
      Runtime.Valid;
    hide AllAllocated, Faultless, TakenSoFar, Frames, History, Answers, AnsweredSoFar;
    assert Torn([]);
    hide Torn;
    requests, answers, part := [], [], [];
    ghost var lisp, stream, first, start, script := runtime.lisp, source.unread, runtime.heap.calls, sink.written,
      sink.script;
    NothingSoFar(stream, start, lisp);
    hide SentSoFar;
    while true
      invariant runtime.Valid() && runtime.started && runtime.bootedOnce == old(runtime.bootedOnce)
      invariant runtime.heap.live == old(runtime.heap.live) && first <= runtime.heap.calls
      invariant SentSoFar(sink.written, start, answers) && TakenSoFar(stream, requests, source.unread)
      invariant |answers| == |requests| && part == []
      invariant Faultless(old(source.script)) ==> Faultless(source.script)
      invariant Faultless(script) ==> Faultless(sink.script)
      invariant AllAllocated(runtime.heap, first, runtime.heap.calls) ==>
        AnsweredSoFar(lisp, requests, answers, runtime.calls)
      decreases |source.unread|
    {
      ghost var rest, calls, history, sent := source.unread, runtime.heap.calls, runtime.calls, sink.written;
      ghost var asked, body, answer := false, [], [];
      var round;
      round, asked, body, answer, part := OneFrame(runtime, source, sink);
      AllocatedInParts(runtime.heap, first, calls, runtime.heap.calls);
      OneMoreRequest(stream, requests, rest);
      SentIsWritten(sent, start, answers, part);
      if AllAllocated(runtime.heap, first, calls) { OneMoreAnswer(lisp, requests, answers, history, body); }
      if asked { requests := requests + [body]; }
      match round
      case End(e) => return e, requests, answers, part;
      case More =>
        OneMoreFrame(sent, start, answers, answer);
        answers, part := answers + [answer], [];
    }
  }

  lemma SentIsWritten(written: seq<byte>, before: seq<byte>, answers: seq<seq<byte>>, part: seq<byte>)
    requires SentSoFar(written, before, answers)
    ensures AllAnswers(answers) && AllBounded(answers) && written + part == before + Frames(answers) + part
  {
  }

  /** Later requests do not change earlier answers. */
  lemma {:induction false} AnswersOfPrefix(lisp: seq<Call> -> LispValue, requests: seq<seq<byte>>, k: nat)
    requires k <= |requests|
    ensures Answers(lisp, requests[..k]) == Answers(lisp, requests)[..k]
  {
    hide Asked, AnswerTo;
    if k == |requests| {
      assert requests[..k] == requests;
    } else {
      var before := requests[..|requests| - 1];
      AnswersOfPrefix(lisp, before, k);
      assert before[..k] == requests[..k];
    }
  }

  /** The answer at a place is the one owed to the request at that place, given all the requests before it. */
  lemma AnswerAt(lisp: seq<Call> -> LispValue, requests: seq<seq<byte>>, i: nat)
    requires i < |requests|
    ensures Answers(lisp, requests)[i] == AnswerTo(lisp, History(requests[..i]), requests[i])
  {
    hide Asked, AnswerTo, History;
    AnswersOfPrefix(lisp, requests, i + 1);
    var first := requests[..i + 1];
    assert first[..|first| - 1] == requests[..i];
    assert Answers(lisp, first)[i] == Answers(lisp, requests)[i];
  }

  lemma LastAnswerStays(lisp: seq<Call> -> LispValue, requests: seq<seq<byte>>, all: seq<seq<byte>>)
    requires requests <= all
    ensures requests != [] ==> Answers(lisp, requests)[|requests| - 1] in Answers(lisp, all)
  {
    hide Asked, AnswerTo;
    AnswersOfPrefix(lisp, all, |requests|);
    assert all[..|requests|] == requests;
    if requests != [] {
      assert Answers(lisp, requests)[|requests| - 1] == Answers(lisp, all)[|requests| - 1];
    }
  }

  // ---------------------------------------------------------------- the whole process

  /** What main finds before it boots ECL: bad arguments or parent, pipes or ABI not as required, or all well. */
  datatype Setup = BadArguments | Unprepared | Prepared

  ghost predicate CanBoot(setup: Setup, directory: Option<seq<byte>>, world: World) {
    && setup == Prepared
    && Refusal(directory, world, false, false, false).None?
    && world.boots && world.loads && world.dispatcherFound
  }

  /** The empty acknowledgement. It may be written only after ECL was stopped. */
  method Acknowledge(runtime: Runtime, sink: Sink) returns (code: int, ghost ack: seq<byte>)
    requires runtime.Valid() && !runtime.started && runtime.boots == runtime.shutdowns
    modifies sink
    ensures sink.written == old(sink.written) + ack && ack <= Frame([])
    ensures code == 0 || code == 74
    ensures code == 0 ==> ack == Frame([])
    ensures Faultless(old(sink.script)) ==> code == 0
  {
    var ok;
    ghost var done;
    ok, done := WriteFrame(sink, []);
    ack := if ok then Frame([]) else Frame([])[..done];
    code := if ok then 0 else 74;
  }

  /** Zero-length frame: ECL is stopped first, and only then acknowledged. */
  method StopAndAcknowledge(runtime: Runtime, sink: Sink) returns (code: int, ghost ack: seq<byte>)
    requires runtime.Valid()
    modifies runtime, sink
    ensures runtime.Valid() && !runtime.started && runtime.bootedOnce == old(runtime.bootedOnce) &&
      runtime.calls == old(runtime.calls)
    ensures sink.written == old(sink.written) + ack && ack <= Frame([])
    ensures code == 0 || code == 74
    ensures code == 0 ==> ack == Frame([])
    ensures Faultless(old(sink.script)) ==> code == 0
  {
    runtime.Stop();
    code, ack := Acknowledge(runtime, sink);
  }

  /** What the process has written: nothing but the front of its greeting, or the greeting, the frames of its answers,
      and the rest: nothing, a torn answer, or the acknowledgement of a stop or its front. */
  ghost predicate Output(added: seq<byte>, greeted: bool, answers: seq<seq<byte>>, rest: seq<byte>)
    requires AllBounded(answers)
  {
    if greeted then added == Frame(HELLO) + Frames(answers) + rest && (Torn(rest) || rest <= Frame([]))
    else answers == [] && added == rest <= Frame(HELLO)
  }

  lemma OutputOf(before: seq<byte>, answers: seq<seq<byte>>, part: seq<byte>, ack: seq<byte>)
    requires AllBounded(answers) && Torn(part) && ack <= Frame([]) && (part == [] || ack == [])
    ensures before + Frame(HELLO) + Frames(answers) + part + ack
      == before + (Frame(HELLO) + Frames(answers) + (part + ack))
    ensures Output(Frame(HELLO) + Frames(answers) + (part + ack), true, answers, part + ack)
  {
    hide Frame, Frames, HELLO, Torn;
    assert part == [] ==> part + ack == ack;
    assert ack == [] ==> part + ack == part;
  }

  /** main once ECL is booted: the greeting, the loop and its end. ECL is stopped in every case. */
  method RunBooted(runtime: Runtime, source: Source, sink: Sink)
    returns (code: int, ghost greeted: bool, ghost requests: seq<seq<byte>>, ghost answers: seq<seq<byte>>,
      ghost rest: seq<byte>)
    requires runtime.Valid() && runtime.started && runtime.calls == []
    modifies runtime, runtime.heap, source, sink
    ensures runtime.Valid() && !runtime.started && runtime.heap.live == old(runtime.heap.live)
    ensures old(runtime.heap.calls) <= runtime.heap.calls
    ensures AllAnswers(answers) && AllBounded(answers) && requests <= Requests(old(source.unread)) &&
      |answers| <= |requests|
    ensures exists added :: sink.written == old(sink.written) + added && Output(added, greeted, answers, rest)
    ensures code == 0 ==>
      && greeted && requests == Requests(old(source.unread)) && |answers| == |requests|
      && (if rest == [] then Leftover(old(source.unread)) == []
          else rest == Frame([]) && StopHere(Leftover(old(source.unread))))
    ensures code in {0, 65, 70, 74} && (!greeted ==> code == 70)
    ensures code == 65 && Faultless(old(source.script)) ==>
      requests == Requests(old(source.unread)) && Leftover(old(source.unread)) != [] &&
        !StopHere(Leftover(old(source.unread)))
    ensures code == 74 ==>
      greeted && requests == Requests(old(source.unread)) && |answers| == |requests| &&
        StopHere(Leftover(old(source.unread)))
    ensures AllAllocated(runtime.heap, old(runtime.heap.calls), runtime.heap.calls) ==>
      runtime.calls == History(requests) && answers == Answers(runtime.lisp, requests)[..|answers|]
    ensures
      && AllAllocated(runtime.heap, old(runtime.heap.calls), runtime.heap.calls)
      && Faultless(old(source.script)) && Faultless(old(sink.script))
      && [] !in Answers(runtime.lisp, Requests(old(source.unread)))
      ==>
      && code == (if Leftover(old(source.unread)) == [] || StopHere(Leftover(old(source.unread))) then 0 else 65)
      && requests == Requests(old(source.unread)) && |answers| == |requests|
  {
    hide Requests, Leftover, StopHere, Frame, Asked, AnswerTo, Faultless, AllAllocated, LegalAnswer, Torn;
    greeted, requests, answers, rest := false, [], [], [];
    assert History(requests) == [] && Answers(runtime.lisp, requests) == [];
    ghost var before := sink.written;
    var ok;
    ghost var done;
    ok, done := WriteFrame(sink, HELLO);
    if !ok {
      rest := Frame(HELLO)[..done];
      assert Output(rest, false, [], rest);
      runtime.Stop();
      return 70, false, requests, answers, rest;
    }
    greeted := true;
    hide Answers, History, Frames, AllAnswers, AllBounded, HELLO, Output;
    var ending;
    ghost var part;
    ending, requests, answers, part := FrameLoop(runtime, source, sink);
    LastAnswerStays(runtime.lisp, requests, Requests(old(source.unread)));
    ghost var ack := [];
    if ending == StopAsked {
      code, ack := StopAndAcknowledge(runtime, sink);
    } else {
      code := if ending == CleanEof then 0 else if ending == Illegal then 65 else 70;
      runtime.Stop();
      assert sink.written == sink.written + ack;
    }
    OutputOf(before, answers, part, ack);
    rest := part + ack;
  }

  /** main. Whatever happens, ECL is shut down as often as it was booted, at most once, and no block is left. */
  method Run(runtime: Runtime, source: Source, sink: Sink, setup: Setup, directory: Option<seq<byte>>, world: World)
    returns (code: int, ghost booted: bool, ghost greeted: bool, ghost requests: seq<seq<byte>>,
      ghost answers: seq<seq<byte>>,
             ghost rest: seq<byte>)
    requires runtime.Valid() && !runtime.started && !runtime.bootedOnce && runtime.calls == []
    requires directory.Some? ==> 0 in directory.value
    modifies runtime, runtime.heap, source, sink
    ensures runtime.Valid() && !runtime.started && runtime.boots == runtime.shutdowns <= 1
    ensures runtime.heap.live == old(runtime.heap.live) && old(runtime.heap.calls) <= runtime.heap.calls
    ensures AllAnswers(answers) && AllBounded(answers) && requests <= Requests(old(source.unread)) &&
      |answers| <= |requests|
    ensures setup == BadArguments ==> !booted && code == 64
    ensures setup != BadArguments && !booted ==> code == 70
    ensures booted ==> code in {0, 65, 70, 74} && (!greeted ==> code == 70)
    ensures !booted ==>
      !greeted && requests == [] && sink.written == old(sink.written) &&
        source.unread == old(source.unread)
    ensures booted ==>
      exists added :: sink.written == old(sink.written) + added && Output(added, greeted, answers, rest)
    ensures code == 0 ==>
      && greeted && requests == Requests(old(source.unread)) && |answers| == |requests|
      && (if rest == [] then Leftover(old(source.unread)) == []
          else rest == Frame([]) && StopHere(Leftover(old(source.unread))))
    ensures code == 65 && Faultless(old(source.script)) ==>
      requests == Requests(old(source.unread)) && Leftover(old(source.unread)) != [] &&
        !StopHere(Leftover(old(source.unread)))
    ensures code == 74 ==>
      greeted && requests == Requests(old(source.unread)) && |answers| == |requests| &&
        StopHere(Leftover(old(source.unread)))
    ensures AllAllocated(runtime.heap, old(runtime.heap.calls), runtime.heap.calls) ==>
      runtime.calls == History(requests) && answers == Answers(runtime.lisp, requests)[..|answers|]
    ensures
      && CanBoot(setup, directory, world) && AllAllocated(runtime.heap, old(runtime.heap.calls), runtime.heap.calls)
      && Faultless(old(source.script)) && Faultless(old(sink.script))
      && [] !in Answers(runtime.lisp, Requests(old(source.unread)))
      ==>
      && code == (if Leftover(old(source.unread)) == [] || StopHere(Leftover(old(source.unread))) then 0 else 65)
      && requests == Requests(old(source.unread)) && |answers| == |requests|
  {
    hide Requests, Leftover, StopHere, Frame, LegalAnswer, Asked, AnswerTo, Faultless, Output;
    booted, greeted, requests, answers, rest := false, false, [], [], [];
    if setup == BadArguments { return 64, booted, greeted, requests, answers, rest; }
    if setup == Unprepared { return 70, booted, greeted, requests, answers, rest; }
    var status, error;
    ghost var reason;
    status, error, reason := runtime.Start(directory, world, false);
    runtime.heap.Free(error);
    if status != 0 { return 70, booted, greeted, requests, answers, rest; }
    booted := true;
    ghost var calls := runtime.heap.calls;
    code, greeted, requests, answers, rest := RunBooted(runtime, source, sink);
    AllocatedInParts(runtime.heap, old(runtime.heap.calls), calls, runtime.heap.calls);
  }
}
