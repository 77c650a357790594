/** What OwnedEclProcess promises its callers, over every run from the moment it is constructed. */
module Guarantees {
  import opened Options
  import opened Utf8
  import opened Utf16
  import opened Response
  import opened Adapter
  import opened Pipes
  import opened Framing
  import opened Runner
  import opened ClientText
  import opened OwnedProcess
  import opened Protocol
  import opened ProtocolInvariant

  lemma Reachable(run: seq<Action>)
    requires Legal(INITIAL, run)
    ensures Inv(After(INITIAL, run))
  {
    hide Inv;
    InitialInv();
    RunInv(INITIAL, run);
  }

  predicate HasReturned(s: Sys, c: CallId, text: seq<uint16>) {
    c in s.callers && s.callers[c].pc == Done(Returned(text))
  }

  // ---------------------------------------------------------------- request and answer belong together

  /** request returns what the child answered to that very request, and to no other call's. */
  lemma ResponsePairing(run: seq<Action>, c: CallId, text: seq<uint16>)
    requires Legal(INITIAL, run) && HasReturned(After(INITIAL, run), c, text)
    ensures var s := After(INITIAL, run);
      && s.callers[c].op.Request? && c in s.served && s.served[c] < |s.peer.asked| == |s.peer.answers|
      && EncodeText(s.callers[c].op.text, MAX_REQUEST) == Some(s.peer.asked[s.served[c]])
      && DecodeText(s.peer.answers[s.served[c]]) == Some(text)
      && forall d, other :: d != c && HasReturned(s, d, other) ==> d in s.served && s.served[d] != s.served[c]
  {
    hide Legal, After, CoreInv, StreamInv, DecodeText, EncodeText, LegalBody;
    Reachable(run);
    var s := After(INITIAL, run);
    PeerLogs(s.peer);
    assert GotItsAnswer(s, c) && ServedRight(s, c);
    LegalIsNotEmpty(s.peer.asked[s.served[c]]);
    forall d, other | d != c && HasReturned(s, d, other) ensures d in s.served && s.served[d] != s.served[c] {
      assert GotItsAnswer(s, d);
    }
  }

  lemma PeerLogs(p: Peer)
    requires StreamInv(p)
    ensures |p.asked| == |p.answers| && forall i :: 0 <= i < |p.asked| ==>
      LegalBody(p.asked[i]) && LegalAnswer(p.answers[i])
  {
    hide LegalBody, LegalAnswer;
  }

  /** Where the child answers in this step, it is with the dispatcher's reply to the request in the pipe, given all the
      requests before it. `Runner.OneFrame` shows that the runner answers so as long as it has memory. */
  predicate AnswersTruly(lisp: seq<Call> -> LispValue, s: Sys, a: Action)
    requires Step(s, a).Some?
  {
    a.OfChild? && a.h.Takes? ==> a.h.answer == AnswerTo(lisp, History(s.peer.asked), FrontBody(s.peer.toChild))
  }

  predicate ChildAnswersTruly(lisp: seq<Call> -> LispValue, s: Sys, run: seq<Action>)
    requires Legal(s, run)
    decreases run
  {
    run != [] ==> AnswersTruly(lisp, s, run[0]) && ChildAnswersTruly(lisp, Step(s, run[0]).value, run[1..])
  }

  // Nobody but the child writes its logs.

  predicate SameLogs(s: Sys, t: Sys) {
    t.peer.asked == s.peer.asked && t.peer.answers == s.peer.answers
  }

  lemma BuilderLeavesLogs(s: Sys, b: BuilderStep)
    requires BuilderNext(s, b).Some?
    ensures SameLogs(s, BuilderNext(s, b).value)
  {
  }

  lemma LaunchLeavesLogs(s: Sys, l: LaunchStep)
    requires LaunchNext(s, l).Some?
    ensures SameLogs(s, LaunchNext(s, l).value)
  {
    hide Frame, FrameText, Needed, DecodeText;
  }

  lemma WorkerLeavesLogs(s: Sys, w: WorkerStep)
    requires WorkerNext(s, w).Some?
    ensures SameLogs(s, WorkerNext(s, w).value)
  {
    hide Frame, FrameText, BodyOf, Needed, HeaderValue, Wanted;
  }

  lemma ReaperLeavesLogs(s: Sys, r: ReaperStep)
    requires ReaperNext(s, r).Some?
    ensures SameLogs(s, ReaperNext(s, r).value)
  {
  }

  lemma ChildLogs(p: Peer, h: ChildStep)
    requires ChildNext(p, h).Some?
    ensures var q := ChildNext(p, h).value;
      if h.Takes? then FrameHere(p.toChild) && q.asked == p.asked + [FrontBody(p.toChild)] &&
        q.answers == p.answers + [h.answer]
      else q.asked == p.asked && q.answers == p.answers
  {
    hide Frame, FrameHere, FrontBody, AfterFrame, StopHere, LegalAnswer;
  }

  lemma TrueStep(lisp: seq<Call> -> LispValue, s: Sys, a: Action)
    requires Step(s, a).Some? && AnswersTruly(lisp, s, a) && s.peer.answers == Answers(lisp, s.peer.asked)
    ensures var p := Step(s, a).value.peer; p.answers == Answers(lisp, p.asked)
  {
    hide BuilderNext, LaunchNext, CallerNext, WorkerNext, ReaperNext, ChildNext, Answers, AnswerTo, History, FrontBody,
      FrameHere;
    match a
    case OfBuilder(b) => BuilderLeavesLogs(s, b);
    case OfLaunch(l) => LaunchLeavesLogs(s, l);
    case OfCaller(c, step) => CallerFrame(s, c, step);
    case OfWorker(w) => WorkerLeavesLogs(s, w);
    case OfReaper(r) => ReaperLeavesLogs(s, r);
    case OfChild(h) =>
      ChildLogs(s.peer, h);
      if h.Takes? { AnswersStep(lisp, s.peer.asked, FrontBody(s.peer.toChild)); }
  }

  /** A child that answers truly in every step has given the dispatcher's replies, in order. */
  lemma {:induction false} LogIsDispatched(lisp: seq<Call> -> LispValue, s: Sys, run: seq<Action>)
    requires Legal(s, run) && ChildAnswersTruly(lisp, s, run) && s.peer.answers == Answers(lisp, s.peer.asked)
    ensures var p := After(s, run).peer; p.answers == Answers(lisp, p.asked)
    decreases run
  {
    hide Step, AnswersTruly, Answers;
    if run != [] {
      TrueStep(lisp, s, run[0]);
      LogIsDispatched(lisp, Step(s, run[0]).value, run[1..]);
    }
  }

  /** With such a child, the text that request returns is the dispatcher's reply to that very request, given all the
      requests before it. */
  lemma DispatcherAnswers(run: seq<Action>, c: CallId, text: seq<uint16>, lisp: seq<Call> -> LispValue)
    requires Legal(INITIAL, run) && ChildAnswersTruly(lisp, INITIAL, run) && HasReturned(After(INITIAL, run), c, text)
    ensures var s := After(INITIAL, run);
      s.callers[c].op.Request? && c in s.served && s.served[c] < |s.peer.asked| && var i := s.served[c];
      && EncodeText(s.callers[c].op.text, MAX_REQUEST) == Some(s.peer.asked[i])
      && DecodeText(AnswerTo(lisp, History(s.peer.asked[..i]), s.peer.asked[i])) == Some(text)
  {
    assert INITIAL.peer.answers == Answers(lisp, INITIAL.peer.asked);
    hide Legal, After, DecodeText, EncodeText, AnswerTo, History, Inv, ChildAnswersTruly, Answers;
    ResponsePairing(run, c, text);
    LogIsDispatched(lisp, INITIAL, run);
    var s := After(INITIAL, run);
    AnswerAt(lisp, s.peer.asked, s.served[c]);
  }

  /** The child of the protocol is the runner: it has taken the first requests of the stream it was sent, and said,
      but for what it still has to say, its greeting, one answer each, and the acknowledgement of a stop. */
  lemma ChildIsTheRunner(run: seq<Action>)
    requires Legal(INITIAL, run)
    ensures var p := After(INITIAL, run).peer;
      && AllBounded(p.answers) && AllAnswers(p.answers) && |p.answers| == |p.asked|
      && (!p.stopping ==> p.asked <= Requests(p.wrote))
      && (p.stopping ==> p.asked == Requests(p.wrote) && StopHere(Leftover(p.wrote)))
      && (!p.life.NotStarted? ==> p.said + p.outbox == Frame(HELLO) + Frames(p.answers) + StopPart(p))
  {
    hide Legal, After, CoreInv, PairingInv, FrameHere, FrontBody, AfterFrame, Frame, Frames, AllLegal, AllAnswers,
      AllBounded, HELLO, Header, HeaderValue;
    Reachable(run);
    var p := After(INITIAL, run).peer;
    HelloIsLegal();
    LegalAnswerIsShort(HELLO);
    assert p.wrote == Frames(p.asked) + (StopPart(p) + p.toChild);
    FramesAreRead(p.asked, StopPart(p) + p.toChild);
    if p.stopping { StopEndsRequests(p.toChild); }
  }

  lemma StopEndsRequests(rest: seq<byte>)
    ensures Requests(Frame([]) + rest) == [] && Leftover(Frame([]) + rest) == Frame([]) + rest &&
      StopHere(Frame([]) + rest)
  {
    var s := Frame([]) + rest;
    HeaderRoundTrip(0);
    assert s[..4] == Header(0);
  }

  // ---------------------------------------------------------------- admission

  /** At most one call at a time is between its admission and its release. */
  lemma AdmissionIsExclusive(run: seq<Action>, c: CallId, d: CallId)
    requires Legal(INITIAL, run)
    requires c in After(INITIAL, run).callers && Holding(After(INITIAL, run).callers[c].pc)
    requires d in After(INITIAL, run).callers && Holding(After(INITIAL, run).callers[d].pc)
    ensures c == d && After(INITIAL, run).own.admitted
  {
    hide Legal, After, LifeInv, RetirementInv, ExchangeInv, TransportInv, PairingInv, StreamInv;
    Reachable(run);
  }

  /** A call that is ready to submit finds the worker idle, the pipes empty and the executor accepting;
      so does the next call after a request that could not be encoded. */
  lemma ReadyFindsAllQuiet(run: seq<Action>, c: CallId)
    requires Legal(INITIAL, run) && c in After(INITIAL, run).callers
    requires After(INITIAL, run).callers[c].pc == Ready ||
      After(INITIAL, run).callers[c].pc == Releasing(Outcome.Unsendable)
    ensures Quiet(After(INITIAL, run))
  {
    hide Legal, After, LifeInv, RetirementInv, TransportInv, PairingInv, StreamInv, Synced, MaySend;
    Reachable(run);
    assert Holding(After(INITIAL, run).callers[c].pc);
  }

  // ---------------------------------------------------------------- after a failure

  /** Once the client is closed it stays closed, and no call that has not returned an answer yet will return one. */
  lemma ClosedStep(s: Sys, a: Action, c: CallId, text: seq<uint16>)
    requires Inv(s) && s.own.closed && Step(s, a).Some?
    ensures Step(s, a).value.own.closed
    ensures HasReturned(Step(s, a).value, c, text) ==> HasReturned(s, c, text)
  {
    hide BuilderNext, LaunchNext, WorkerNext, ReaperNext, ChildNext, LifeInv, TransportInv, PairingInv, StreamInv;
    match a
    case OfBuilder(b) => BuilderLeavesCallers(s, b); BuilderFields(s, b);
    case OfLaunch(l) => LaunchLeavesCallers(s, l); LaunchFields(s, l);
    case OfCaller(d, step) => ClosedCaller(s, d, step, c, text);
    case OfWorker(w) => WorkerFrame(s, w); WorkerFields(s, w);
    case OfReaper(r) => ReaperLeavesCallers(s, r); ReaperFields(s, r);
    case OfChild(h) =>
  }

  // What each of the other threads can do to the fields.

  lemma BuilderFields(s: Sys, b: BuilderStep)
    requires BuilderNext(s, b).Some?
    ensures var own := BuilderNext(s, b).value.own;
      own == s.own || own == s.own.(ioShutdown := true) || own == Retired(s.own)
  {
  }

  lemma LaunchFields(s: Sys, l: LaunchStep)
    requires LaunchNext(s, l).Some?
    ensures var own := LaunchNext(s, l).value.own;
      own == s.own || own == s.own.(hasChild := true) || own == s.own.(launchFinished := true)
  {
    hide Frame, FrameText, Needed, DecodeText;
  }

  lemma ReaperFields(s: Sys, r: ReaperStep)
    requires ReaperNext(s, r).Some?
    ensures var own := ReaperNext(s, r).value.own;
      own == s.own || own == s.own.(retirementConfirmed := true) || own == s.own.(ioShutdown := true)
  {
  }

  lemma ClosedCaller(s: Sys, d: CallId, step: CallerStep, c: CallId, text: seq<uint16>)
    requires AdmissionInv(s) && ExchangeInv(s) && s.own.closed && CallerNext(s, d, step).Some?
    ensures CallerNext(s, d, step).value.own.closed
    ensures HasReturned(CallerNext(s, d, step).value, c, text) ==> HasReturned(s, c, text)
  {
    hide CallerNext, MaySend, OwnerInv, Synced, WaitingInv;
    if step.Retires? { CallerRetires(s, d, step); } else { CallerFields(s, d, step); }
    CallerMovesAlone(s, d, step);
    if d == c && HasReturned(CallerNext(s, d, step).value, c, text) { ReturnedWasReleasing(s, c, step, text); }
  }

  /** A call that returns an answer had it when it gave the admission back. */
  lemma ReturnedWasReleasing(s: Sys, c: CallId, step: CallerStep, text: seq<uint16>)
    requires CallerNext(s, c, step).Some? && HasReturned(CallerNext(s, c, step).value, c, text)
    ensures c in s.callers && (HasReturned(s, c, text) || s.callers[c].pc == Releasing(Returned(text)))
  {
    hide MaySend;
  }

  lemma {:induction false} ClosedDeliversNothing(s: Sys, run: seq<Action>, c: CallId, text: seq<uint16>)
    requires Inv(s) && s.own.closed && Legal(s, run) && HasReturned(After(s, run), c, text)
    ensures HasReturned(s, c, text)
    decreases run
  {
    hide Inv, Step, HasReturned;
    if run != [] {
      StepInv(s, run[0]);
      ClosedStep(s, run[0], c, text);
      ClosedDeliversNothing(Step(s, run[0]).value, run[1..], c, text);
    }
  }

  /** When an exchange has failed its call, the answer is never delivered late, to that call or to any other:
      whoever returns an answer afterwards had returned it before. */
  lemma LateAnswerIsNotDelivered(before: seq<Action>, after: seq<Action>, failed: CallId, c: CallId, text: seq<uint16>)
    requires Legal(INITIAL, before) && Legal(After(INITIAL, before), after)
    requires var s := After(INITIAL, before);
      failed in s.callers && (s.callers[failed].pc == Releasing(Threw) || s.callers[failed].pc == Done(Threw))
    requires HasReturned(After(After(INITIAL, before), after), c, text)
    ensures HasReturned(After(INITIAL, before), c, text) && c != failed
  {
    var s := After(INITIAL, before);
    FailureCloses(before, failed);
    hide Inv, Legal, After;
    Reachable(before);
    ClosedDeliversNothing(s, after, c, text);
  }

  /** A call fails its exchange only after it has closed the client, and before it gives the admission back. */
  lemma FailureCloses(run: seq<Action>, c: CallId)
    requires Legal(INITIAL, run) && c in After(INITIAL, run).callers
    requires After(INITIAL, run).callers[c].pc == Releasing(Threw) || After(INITIAL, run).callers[c].pc == Done(Threw)
    ensures After(INITIAL, run).own.closed
  {
    hide Legal, After, LifeInv, RetirementInv, TransportInv, PairingInv, StreamInv, Synced, MaySend, OwnerInv;
    Reachable(run);
    assert After(INITIAL, run).callers[c].pc == Releasing(Threw) ==> Holding(After(INITIAL, run).callers[c].pc);
  }

  // ---------------------------------------------------------------- tasks whose caller has gone

  /** The task of `c` has not begun, and cannot begin any more: the client is closed or the caller's time is over. */
  predicate Forgotten(s: Sys, c: CallId) {
    && c in s.callers && PastSubmission(s.callers[c].pc) && TaskOf(s.worker) != Some(c) && c !in s.served
    && (c in s.queue ==> s.own.closed || c in s.expired)
  }

  lemma ForgottenStep(s: Sys, a: Action, c: CallId)
    requires Inv(s) && Forgotten(s, c) && Step(s, a).Some?
    ensures Forgotten(Step(s, a).value, c)
  {
    hide BuilderNext, LaunchNext, CallerNext, WorkerNext, ReaperNext, ChildNext, Inv;
    match a
    case OfBuilder(b) => ForgottenByBuilder(s, b, c);
    case OfLaunch(l) => ForgottenByLaunch(s, l, c);
    case OfCaller(d, step) => ForgottenByCaller(s, d, step, c);
    case OfWorker(w) => ForgottenByWorker(s, w, c);
    case OfReaper(r) => ForgottenByReaper(s, r, c);
    case OfChild(h) =>
  }

  lemma ForgottenByBuilder(s: Sys, b: BuilderStep, c: CallId)
    requires Forgotten(s, c) && BuilderNext(s, b).Some?
    ensures Forgotten(BuilderNext(s, b).value, c)
  {
  }

  lemma ForgottenByLaunch(s: Sys, l: LaunchStep, c: CallId)
    requires Forgotten(s, c) && LaunchNext(s, l).Some?
    ensures Forgotten(LaunchNext(s, l).value, c)
  {
    hide Frame, FrameText, Needed, DecodeText;
  }

  lemma ForgottenByReaper(s: Sys, r: ReaperStep, c: CallId)
    requires Forgotten(s, c) && ReaperNext(s, r).Some?
    ensures Forgotten(ReaperNext(s, r).value, c)
  {
  }

  lemma ForgottenByCaller(s: Sys, d: CallId, step: CallerStep, c: CallId)
    requires Forgotten(s, c) && CallerNext(s, d, step).Some?
    ensures Forgotten(CallerNext(s, d, step).value, c)
  {
    hide CallerNext, PastSubmission;
    CallerFrame(s, d, step);
    CallerQueue(s, d, step);
    CallersStay(s, d, step);
    CallerMovesAlone(s, d, step);
    if d == c { CallerGoesOn(s, d, step); }
    if step.Retires? { CallerRetires(s, d, step); } else { CallerFields(s, d, step); }
  }

  lemma ForgottenByWorker(s: Sys, w: WorkerStep, c: CallId)
    requires Inv(s) && Forgotten(s, c) && WorkerNext(s, w).Some?
    ensures Forgotten(WorkerNext(s, w).value, c)
  {
    hide WorkerNext, Inv;
    WorkerFrame(s, w);
    WorkerOnlyCloses(s, w);
    WorkerTakesTheFirst(s, w, c);
  }

  /** The worker has not served `c`, and takes it up only as the first of its queue and in time. */
  predicate Untouched(s: Sys, t: Sys, c: CallId) {
    && (c in t.queue ==> c in s.queue) && c !in t.served
    && (TaskOf(t.worker) == Some(c) ==> c in s.queue && !s.own.closed && c !in s.expired)
  }

  lemma BeginningTouchesFirst(s: Sys, w: WorkerStep, c: CallId)
    requires WorkerNext(s, w).Some? && TaskOf(s.worker) != Some(c) && c !in s.served && w.Begins?
    ensures Untouched(s, WorkerNext(s, w).value, c)
  {
    hide Frame, FrameText, BodyOf, Needed, HeaderValue, Wanted;
  }

  lemma TransferTouchesNone(s: Sys, w: WorkerStep, c: CallId)
    requires WorkerNext(s, w).Some? && TaskOf(s.worker) != Some(c) && c !in s.served && (w.Writes? || w.Reads?)
    ensures Untouched(s, WorkerNext(s, w).value, c)
  {
    hide Frame, FrameText, BodyOf, Needed, HeaderValue, Wanted;
  }

  lemma AnswerTouchesOwner(s: Sys, w: WorkerStep, c: CallId)
    requires WorkerNext(s, w).Some? && TaskOf(s.worker) != Some(c) && c !in s.served && w.Answered?
    ensures Untouched(s, WorkerNext(s, w).value, c)
  {
    hide Frame, FrameText, BodyOf, Needed, HeaderValue, Wanted;
  }

  lemma EndTouchesOwner(s: Sys, w: WorkerStep, c: CallId)
    requires WorkerNext(s, w).Some? && TaskOf(s.worker) != Some(c) && c !in s.served && !w.Begins? && !w.Writes? &&
      !w.Reads? && !w.Answered?
    ensures Untouched(s, WorkerNext(s, w).value, c)
  {
    hide Frame, FrameText, BodyOf, Needed, HeaderValue, Wanted;
  }

  lemma WorkerTakesTheFirst(s: Sys, w: WorkerStep, c: CallId)
    requires WorkerNext(s, w).Some? && TaskOf(s.worker) != Some(c) && c !in s.served
    ensures Untouched(s, WorkerNext(s, w).value, c)
  {
    hide WorkerNext, Untouched;
    match w
    case Begins => BeginningTouchesFirst(s, w, c);
    case Writes(_) => TransferTouchesNone(s, w, c);
    case Reads(_) => TransferTouchesNone(s, w, c);
    case Answered => AnswerTouchesOwner(s, w, c);
    case _ => EndTouchesOwner(s, w, c);
  }

  lemma WorkerOnlyCloses(s: Sys, w: WorkerStep)
    requires WorkerNext(s, w).Some?
    ensures var own := WorkerNext(s, w).value.own;
      own == s.own || own == StoppedInOrder(s.own) || own == s.own.(ioShutdown := true)
  {
    hide Frame, FrameText, BodyOf, Needed, HeaderValue, Wanted;
  }

  lemma {:induction false} ForgottenForever(s: Sys, run: seq<Action>, c: CallId)
    requires Inv(s) && Forgotten(s, c) && Legal(s, run)
    ensures Forgotten(After(s, run), c)
    decreases run
  {
    hide Inv, Step, Forgotten;
    if run != [] {
      StepInv(s, run[0]);
      ForgottenStep(s, run[0], c);
      ForgottenForever(Step(s, run[0]).value, run[1..], c);
    }
  }

  /** A task that is still queued when its caller's time is over, or when the client is closed, is never sent. */
  lemma ExpiredTaskIsNotSent(before: seq<Action>, after: seq<Action>, c: CallId)
    requires Legal(INITIAL, before) && Legal(After(INITIAL, before), after)
    requires c in After(INITIAL, before).queue &&
      (c in After(INITIAL, before).expired || After(INITIAL, before).own.closed)
    ensures var t := After(After(INITIAL, before), after); TaskOf(t.worker) != Some(c) && c !in t.served
  {
    hide Legal, After, AdmissionInv, LifeInv, RetirementInv, TransportInv, StreamInv, HolderInv;
    Reachable(before);
    var s := After(INITIAL, before);
    assert Pending(s, c);
    assert c in s.served ==> ServedRight(s, c);
    ForgottenForever(s, after, c);
  }

  // ---------------------------------------------------------------- retirement

  /** What can never be undone: the child is dead, or none will ever be started. */
  predicate NoChildAgain(s: Sys) {
    NoChildEver(s) || (s.worker == NoTask && s.builder == Abandoned)
  }

  lemma NoChildStep(s: Sys, a: Action)
    requires Inv(s) && NoChildAgain(s) && Step(s, a).Some?
    ensures NoChildAgain(Step(s, a).value) && Step(s, a).value.peer.life == s.peer.life
  {
    hide BuilderNext, LaunchNext, CallerNext, WorkerNext, ReaperNext, ChildNext, AdmissionInv, ExchangeInv,
      TransportInv, PairingInv, StreamInv;
    match a
    case OfBuilder(b) => NoChildByBuilder(s, b);
    case OfLaunch(l) => NoChildByLaunch(s, l);
    case OfCaller(c, step) =>
      CallerFrame(s, c, step);
      if step.Retires? { CallerRetires(s, c, step); } else { CallerFields(s, c, step); }
    case OfWorker(w) =>
      WorkerFrame(s, w);
      WorkerFields(s, w);
      WorkerMoves(s, w);
      NoTaskIsIdle(s, w);
    case OfReaper(r) => NoChildByReaper(s, r);
    case OfChild(h) => DeadChildIsQuiet(s.peer, h);
  }

  lemma NoChildByBuilder(s: Sys, b: BuilderStep)
    requires NoChildAgain(s) && BuilderNext(s, b).Some?
    ensures NoChildAgain(BuilderNext(s, b).value) && BuilderNext(s, b).value.peer == s.peer
  {
  }

  lemma NoChildByLaunch(s: Sys, l: LaunchStep)
    requires LifeInv(s) && NoChildAgain(s) && LaunchNext(s, l).Some?
    ensures NoChildAgain(LaunchNext(s, l).value) && LaunchNext(s, l).value.peer.life == s.peer.life
  {
    hide Frame, FrameText, Needed, DecodeText;
  }

  lemma NoChildByReaper(s: Sys, r: ReaperStep)
    requires NoChildAgain(s) && ReaperNext(s, r).Some?
    ensures NoChildAgain(ReaperNext(s, r).value) && ReaperNext(s, r).value.peer == s.peer
  {
  }

  lemma NoTaskIsIdle(s: Sys, w: WorkerStep)
    requires WorkerNext(s, w).Some?
    ensures s.worker != NoTask
  {
    hide Frame, FrameText, BodyOf, Needed, HeaderValue;
  }

  lemma DeadChildIsQuiet(p: Peer, h: ChildStep)
    requires ChildNext(p, h).Some?
    ensures p.life.Alive?
  {
  }

  lemma {:induction false} NoChildForever(s: Sys, run: seq<Action>)
    requires Inv(s) && NoChildAgain(s) && Legal(s, run)
    ensures NoChildAgain(After(s, run)) && After(s, run).peer.life == s.peer.life
    decreases run
  {
    hide Inv, Step, NoChildAgain;
    if run != [] {
      StepInv(s, run[0]);
      NoChildStep(s, run[0]);
      NoChildForever(Step(s, run[0]).value, run[1..]);
    }
  }

  /** When retirement is confirmed, or the worker that created the child has been let go, the child is not alive and
      no child will be, also not one from a launch that was too late for the constructor. */
  lemma RetirementIsTrue(before: seq<Action>, after: seq<Action>)
    requires Legal(INITIAL, before) && Legal(After(INITIAL, before), after)
    requires After(INITIAL, before).own.retirementConfirmed || After(INITIAL, before).own.ioShutdown
    ensures !After(INITIAL, before).peer.life.Alive? &&
      After(After(INITIAL, before), after).peer.life == After(INITIAL, before).peer.life
  {
    hide Legal, After, AdmissionInv, ExchangeInv, TransportInv, PairingInv, StreamInv;
    Reachable(before);
    NoChildForever(After(INITIAL, before), after);
  }

  /** A child that is alive although the client was closed is still watched: neither confirmation nor shutdown
      happened. */
  lemma LiveChildIsWatched(run: seq<Action>)
    requires Legal(INITIAL, run) && After(INITIAL, run).peer.life.Alive? && After(INITIAL, run).own.closed
    ensures var s := After(INITIAL, run);
      (s.reaper == Looking || s.reaper == Watching) && !s.own.retirementConfirmed && !s.own.ioShutdown
  {
    hide Legal, After, AdmissionInv, ExchangeInv, TransportInv, PairingInv, StreamInv;
    Reachable(run);
  }

  /** While a client that was built is open, isAlive reports exactly whether its child is alive; and a report of death
      is final, whatever anybody does afterwards. */
  lemma HealthIsReported(before: seq<Action>, after: seq<Action>)
    requires Legal(INITIAL, before) && Legal(After(INITIAL, before), after) && After(INITIAL, before).builder == Built
    ensures var s, t := After(INITIAL, before), After(After(INITIAL, before), after);
      && (!s.own.closed ==> (Reported(s) <==> s.peer.life.Alive?))
      && (Reported(s) ==> s.peer.life.Alive?)
      && (!Reported(s) ==> !Reported(t))
  {
    hide Legal, After, AdmissionInv, ExchangeInv, TransportInv, PairingInv, StreamInv;
    Reachable(before);
    var s := After(INITIAL, before);
    if !Reported(s) {
      if s.own.closed { ClosedForever(s, after); } else { NoChildForever(s, after); }
    }
  }

  /** What isAlive would answer. */
  predicate Reported(s: Sys) {
    ReportsAlive(s.own, s.peer.life.Exited?)
  }

  lemma {:induction false} ClosedForever(s: Sys, run: seq<Action>)
    requires Inv(s) && s.own.closed && Legal(s, run)
    ensures After(s, run).own.closed
    decreases run
  {
    hide Inv, Step;
    if run != [] {
      StepInv(s, run[0]);
      ClosedStep(s, run[0], 0, []);
      ClosedForever(Step(s, run[0]).value, run[1..]);
    }
  }

  /** An orderly stop means what it says: the child answered all it was asked, acknowledged the stop, and exited with
      0. */
  lemma OrderlyStopIsTrue(run: seq<Action>)
    requires Legal(INITIAL, run)
    requires After(INITIAL, run).own.gracefulClosed
      || exists c :: c in After(INITIAL, run).callers && After(INITIAL, run).callers[c].pc == Done(Stopped)
    ensures var s := After(INITIAL, run);
      && s.own.gracefulClosed && s.own.closed && s.own.retirementConfirmed
      && s.peer.life == Exited(0) && s.peer.asked == Requests(s.peer.wrote) && StopHere(Leftover(s.peer.wrote))
      && AllBounded(s.peer.answers) && |s.peer.answers| == |s.peer.asked|
      && s.peer.said == Frame(HELLO) + Frames(s.peer.answers) + Frame([])
  {
    hide Legal, After, AdmissionInv, PairingInv, StreamInv, OwnerInv, HolderInv, Frame, Frames, StopHere, Requests,
      Leftover, HELLO;
    Reachable(run);
    ChildIsTheRunner(run);
    var s := After(INITIAL, run);
    HelloIsLegal();
    LegalAnswerIsShort(HELLO);
    assert s.own.gracefulClosed;
    assert s.peer.said + s.peer.outbox == s.peer.said;
  }
}
