/** What every step of the protocol keeps: who holds the admission, whether there can be a child, whose task the worker
    has and what is in the pipes while it has it, which answer belongs to which call, and what the streams contained. */
module ProtocolInvariant {
  import opened Options
  import opened Utf8
  import opened Utf16
  import opened Response
  import opened Pipes
  import opened Framing
  import opened Runner
  import opened ClientText
  import opened OwnedProcess
  import opened Protocol

  // ---------------------------------------------------------------- the shape of a step

  /** What a step of a call that has begun may change. */
  predicate ShapedAsCall(s: Sys, t: Sys, c: CallId) {
    && c in s.callers && c in t.callers
    && t == s.(callers := s.callers[c := s.callers[c].(pc := t.callers[c].pc)],
               own := t.own, reaper := t.reaper, holder := t.holder, queue := t.queue)
  }

  lemma AdmissionShape(s: Sys, c: CallId, step: CallerStep)
    requires c in s.callers && AdmissionNext(s, c, step).Some?
    ensures ShapedAsCall(s, AdmissionNext(s, c, step).value, c)
  {
    hide MaySend;
  }

  lemma ExchangeShape(s: Sys, c: CallId, step: CallerStep)
    requires c in s.callers && ExchangeNext(s, c, step).Some?
    ensures ShapedAsCall(s, ExchangeNext(s, c, step).value, c)
  {
  }

  lemma CallShape(s: Sys, c: CallId, step: CallerStep)
    requires c in s.callers && CallNext(s, c, step).Some?
    ensures ShapedAsCall(s, CallNext(s, c, step).value, c)
  {
    hide AdmissionNext, ExchangeNext, ShapedAsCall;
    if SeeksAdmission(step) { AdmissionShape(s, c, step); } else { ExchangeShape(s, c, step); }
  }

  /** What a step of a task may change. */
  predicate ShapedAsTask(s: Sys, t: Sys) {
    t == s.(worker := t.worker, inbox := t.inbox, acked := t.acked, queue := t.queue, futures := t.futures,
            served := t.served, own := t.own,
            peer := s.peer.(toChild := t.peer.toChild, fromChild := t.peer.fromChild, wrote := t.peer.wrote))
  }

  lemma BeginsShape(s: Sys)
    requires BeginsNext(s).Some?
    ensures ShapedAsTask(s, BeginsNext(s).value)
  {
    hide Frame, BodyOf;
  }

  lemma WritesShape(s: Sys, k: nat)
    requires WritesNext(s, k).Some?
    ensures ShapedAsTask(s, WritesNext(s, k).value)
  {
  }

  lemma ReadsShape(s: Sys, k: nat)
    requires ReadsNext(s, k).Some?
    ensures ShapedAsTask(s, ReadsNext(s, k).value)
  {
    hide Needed, FrameText;
  }

  lemma AnsweredShape(s: Sys)
    requires AnsweredNext(s).Some?
    ensures ShapedAsTask(s, AnsweredNext(s).value)
  {
    hide Needed, FrameText;
  }

  lemma BreaksShape(s: Sys)
    requires BreaksNext(s).Some?
    ensures ShapedAsTask(s, BreaksNext(s).value)
  {
  }

  lemma StopShape(s: Sys, w: WorkerStep)
    requires StopNext(s, w).Some?
    ensures ShapedAsTask(s, StopNext(s, w).value)
  {
    hide HeaderValue;
  }

  lemma WorkerShape(s: Sys, w: WorkerStep)
    requires WorkerNext(s, w).Some?
    ensures ShapedAsTask(s, WorkerNext(s, w).value)
  {
    hide BeginsNext, WritesNext, ReadsNext, AnsweredNext, BreaksNext, StopNext, ShapedAsTask;
    match w
    case Begins => BeginsShape(s);
    case Writes(k) => WritesShape(s, k);
    case Reads(k) => ReadsShape(s, k);
    case Answered => AnsweredShape(s);
    case Breaks => BreaksShape(s);
    case _ => StopShape(s, w);
  }

  // ---------------------------------------------------------------- admission

  predicate Holding(pc: Pc) {
    pc.Checking? || pc.Admitted? || pc.Ready? || pc.Waiting? || pc.Failing? || pc.Releasing?
  }

  /** The flag is the admission of one caller. */
  predicate AdmissionInv(s: Sys) {
    && (s.own.admitted <==> s.holder.Some?)
    && (s.holder.Some? ==> s.holder.value in s.callers)
    && (forall c :: c in s.callers ==> (Holding(s.callers[c].pc) <==> s.holder == Some(c)))
    && (forall c :: c in s.callers ==> s.builder == Built)
  }

  lemma SeekerKeepsAdmission(s: Sys, c: CallId, step: CallerStep)
    requires AdmissionInv(s) && c in s.callers && AdmissionNext(s, c, step).Some?
    ensures AdmissionInv(AdmissionNext(s, c, step).value)
  {
    hide MaySend;
  }

  lemma HolderKeepsAdmission(s: Sys, c: CallId, step: CallerStep)
    requires AdmissionInv(s) && c in s.callers && ExchangeNext(s, c, step).Some?
    ensures AdmissionInv(ExchangeNext(s, c, step).value)
  {
  }

  lemma CallerKeepsAdmission(s: Sys, c: CallId, step: CallerStep)
    requires AdmissionInv(s) && CallerNext(s, c, step).Some?
    ensures AdmissionInv(CallerNext(s, c, step).value)
  {
    hide AdmissionNext, ExchangeNext;
    if !step.Calls? && !step.Expires? {
      hide AdmissionInv;
      if SeeksAdmission(step) { SeekerKeepsAdmission(s, c, step); } else { HolderKeepsAdmission(s, c, step); }
    }
  }

  predicate SameCallers(s: Sys, t: Sys) {
    && t.callers == s.callers && t.holder == s.holder && t.own.admitted == s.own.admitted && t.expired == s.expired
    && (s.builder == Built ==> t.builder == Built)
  }

  // Nobody else has a part in the admission.

  lemma BuilderLeavesCallers(s: Sys, b: BuilderStep)
    requires BuilderNext(s, b).Some?
    ensures SameCallers(s, BuilderNext(s, b).value)
  {
  }

  lemma LaunchLeavesCallers(s: Sys, l: LaunchStep)
    requires LaunchNext(s, l).Some?
    ensures SameCallers(s, LaunchNext(s, l).value)
  {
    hide Frame, FrameText, Needed, DecodeText;
  }

  /** What a task's step leaves alone, and what it makes of the worker and the fields. */
  lemma WorkerFrame(s: Sys, w: WorkerStep)
    requires WorkerNext(s, w).Some?
    ensures var t := WorkerNext(s, w).value;
      && t.callers == s.callers && t.holder == s.holder && t.expired == s.expired && t.builder == s.builder &&
        t.launched == s.launched
  {
    hide WorkerNext;
    WorkerShape(s, w);
  }

  lemma WorkerFields(s: Sys, w: WorkerStep)
    requires WorkerNext(s, w).Some? && (s.worker.AwaitingExit? ==> s.acked)
    ensures var t := WorkerNext(s, w).value;
      && t.reaper == s.reaper && t.peer.life == s.peer.life
      && t.acked == (s.acked || t.worker.AwaitingExit?)
      && t.own == FieldsAfter(s.own, w, t.worker)
  {
    hide Frame, FrameText, Needed, BodyOf, HeaderValue;
    match w
    case Begins => hide WritesNext, ReadsNext, AnsweredNext, BreaksNext, StopNext;
    case Writes(_) => hide BeginsNext, ReadsNext, AnsweredNext, BreaksNext, StopNext;
    case Reads(_) => hide BeginsNext, WritesNext, AnsweredNext, BreaksNext, StopNext;
    case Answered => hide BeginsNext, WritesNext, ReadsNext, BreaksNext, StopNext;
    case Breaks => hide BeginsNext, WritesNext, ReadsNext, AnsweredNext, StopNext;
    case _ => hide BeginsNext, WritesNext, ReadsNext, AnsweredNext, BreaksNext;
  }

  /** Which turns a task takes. */
  lemma WorkerMoves(s: Sys, w: WorkerStep)
    requires WorkerNext(s, w).Some?
    ensures var t := WorkerNext(s, w).value;
      && (t.worker.Winding? ==> w.SeesExit? && s.worker.AwaitingExit? && s.peer.life == Exited(0))
      && (w.Winds? ==> s.worker.Winding?)
      && (w.Reads? ==> t.worker == s.worker)
      && (!w.Reads? ==> TaskOf(s.worker).Some? || (s.worker == Idle && s.queue != [] && s.queue[0] in s.callers))
      && (!w.Reads? ==> t.worker == Idle || TaskOf(t.worker).Some?)
  {
    hide Frame, FrameText, Needed, BodyOf, HeaderValue;
  }

  function FieldsAfter(own: Fields, w: WorkerStep, worker: Worker): Fields {
    if w.SeesExit? && worker.Winding? then StoppedInOrder(own)
    else if w.Winds? then own.(ioShutdown := true)
    else own
  }

  lemma ReaperLeavesCallers(s: Sys, r: ReaperStep)
    requires ReaperNext(s, r).Some?
    ensures SameCallers(s, ReaperNext(s, r).value)
  {
  }

  lemma AdmissionStep(s: Sys, a: Action)
    requires AdmissionInv(s) && RetirementInv(s) && Step(s, a).Some?
    ensures AdmissionInv(Step(s, a).value)
  {
    hide BuilderNext, LaunchNext, CallerNext, WorkerNext, ReaperNext, ChildNext;
    match a
    case OfBuilder(b) => BuilderLeavesCallers(s, b);
    case OfLaunch(l) => LaunchLeavesCallers(s, l);
    case OfCaller(c, step) => CallerKeepsAdmission(s, c, step);
    case OfWorker(w) => WorkerFrame(s, w); WorkerFields(s, w);
    case OfReaper(r) => ReaperLeavesCallers(s, r);
    case OfChild(h) =>
  }

  // ---------------------------------------------------------------- the life of the child

  predicate Unborn(w: Worker) {
    w.NoTask? || w.LaunchQueued? || w.LaunchStarting?
  }

  predicate Launching(w: Worker) {
    Unborn(w) || w.Spawned? || w.Published? || w.Greeting? || w.LaunchEnding?
  }

  /** No child is alive, and none will be. */
  predicate NoChildEver(s: Sys) {
    (s.own.hasChild && s.peer.life.Exited?) || (s.own.launchFinished && s.peer.life.NotStarted?)
  }

  predicate LifeInv(s: Sys) {
    && (Unborn(s.worker) ==> s.peer.life.NotStarted?)
    && (s.worker.Spawned? || s.worker.Published? || s.worker.Greeting? ==> !s.peer.life.NotStarted?)
    && (s.own.hasChild <==> !s.peer.life.NotStarted? && !s.worker.Spawned?)
    && (s.own.launchFinished <==> !Launching(s.worker))
    && (s.launched.Some? <==> !Launching(s.worker) && !s.worker.LaunchEnded?)
    && (s.worker == LaunchEnding(true) || s.worker == LaunchEnded(true) || s.launched == Some(true) ==> s.own.hasChild)
    && (s.builder == Constructing ==> s.worker == NoTask)
    && (s.worker == NoTask ==> (s.builder == Constructing || s.builder == Abandoned) && !s.own.closed)
    && (s.builder == Built ==> s.launched == Some(true))
    && (TaskOf(s.worker).Some? ==> s.builder == Built)
    && (s.builder == Constructing || s.builder == AwaitingLaunch || s.builder == GivingUp ==>
      !s.own.closed && !s.own.ioShutdown)
  }

  predicate RetirementInv(s: Sys) {
    && (s.own.reaperStarted <==> s.reaper != Absent)
    && (s.own.closed <==> s.own.reaperStarted || s.own.gracefulClosed)
    && (s.reaper == Watching ==> s.own.hasChild)
    && (s.reaper == Confirming || s.reaper == Closing || s.reaper == Gone ==> NoChildEver(s))
    && (s.own.retirementConfirmed ==> NoChildEver(s))
    && (s.own.retirementConfirmed <==> s.own.gracefulClosed || s.reaper == Closing || s.reaper == Gone)
    && (s.own.ioShutdown ==> NoChildEver(s) || s.worker == NoTask)
    && (s.own.ioShutdown ==> s.own.closed || s.worker == NoTask)
    && (s.own.gracefulClosed ==> s.acked && s.peer.life == Exited(0))
    && (s.worker.Winding? ==> s.own.gracefulClosed)
    && (s.worker.AwaitingExit? ==> s.acked)
    && (TaskOf(s.worker).Some? ==> s.own.hasChild)
  }

  /** What a caller's step leaves alone, and the three things it can do to the fields. */
  lemma CallerFrame(s: Sys, c: CallId, step: CallerStep)
    requires CallerNext(s, c, step).Some?
    ensures var t := CallerNext(s, c, step).value;
      && t.worker == s.worker && t.peer == s.peer && t.builder == s.builder && t.launched == s.launched &&
        t.inbox == s.inbox
      && t.acked == s.acked && t.futures == s.futures && t.served == s.served
  {
    hide CallNext;
    if !step.Calls? && !step.Expires? { CallShape(s, c, step); }
  }

  predicate AdmissionOnly(s: Sys, t: Sys) {
    && (t.own == s.own || t.own == s.own.(admitted := true) || t.own == s.own.(admitted := false))
    && t.reaper == s.reaper
  }

  lemma SeekerFields(s: Sys, c: CallId, step: CallerStep)
    requires c in s.callers && AdmissionNext(s, c, step).Some?
    ensures AdmissionOnly(s, AdmissionNext(s, c, step).value)
  {
    hide MaySend;
  }

  lemma HolderFields(s: Sys, c: CallId, step: CallerStep)
    requires c in s.callers && ExchangeNext(s, c, step).Some? && !step.Retires?
    ensures AdmissionOnly(s, ExchangeNext(s, c, step).value)
  {
  }

  lemma CallerFields(s: Sys, c: CallId, step: CallerStep)
    requires CallerNext(s, c, step).Some? && !step.Retires?
    ensures AdmissionOnly(s, CallerNext(s, c, step).value)
  {
    hide AdmissionNext, ExchangeNext;
    if !step.Calls? && !step.Expires? {
      if SeeksAdmission(step) { SeekerFields(s, c, step); } else { HolderFields(s, c, step); }
    }
  }

  lemma CallerRetires(s: Sys, c: CallId, step: CallerStep)
    requires CallerNext(s, c, step).Some? && step.Retires?
    ensures var t := CallerNext(s, c, step).value;
      t.own == Retired(s.own) && t.reaper == (if s.own.reaperStarted then s.reaper else Looking) && c in s.callers
  {
    hide MaySend;
  }

  lemma BuilderKeepsLife(s: Sys, b: BuilderStep)
    requires AdmissionInv(s) && LifeInv(s) && RetirementInv(s) && BuilderNext(s, b).Some?
    ensures LifeInv(BuilderNext(s, b).value)
  {
  }

  lemma LaunchKeepsLife(s: Sys, l: LaunchStep)
    requires AdmissionInv(s) && LifeInv(s) && RetirementInv(s) && LaunchNext(s, l).Some?
    ensures LifeInv(LaunchNext(s, l).value)
  {
    hide Frame, FrameText, Needed, DecodeText;
  }

  lemma CallerKeepsLife(s: Sys, c: CallId, step: CallerStep)
    requires AdmissionInv(s) && LifeInv(s) && RetirementInv(s) && CallerNext(s, c, step).Some?
    ensures LifeInv(CallerNext(s, c, step).value)
  {
    hide CallerNext;
    CallerFrame(s, c, step);
    if step.Retires? { CallerRetires(s, c, step); } else { CallerFields(s, c, step); }
  }

  lemma WorkerKeepsLife(s: Sys, w: WorkerStep)
    requires AdmissionInv(s) && LifeInv(s) && RetirementInv(s) && WorkerNext(s, w).Some?
    ensures LifeInv(WorkerNext(s, w).value)
  {
    hide WorkerNext;
    WorkerFrame(s, w);
    WorkerFields(s, w);
    WorkerMoves(s, w);
  }

  lemma ReaperKeepsLife(s: Sys, r: ReaperStep)
    requires AdmissionInv(s) && LifeInv(s) && RetirementInv(s) && ReaperNext(s, r).Some?
    ensures LifeInv(ReaperNext(s, r).value)
  {
  }

  lemma BuilderKeepsRetirement(s: Sys, b: BuilderStep)
    requires AdmissionInv(s) && LifeInv(s) && RetirementInv(s) && BuilderNext(s, b).Some?
    ensures RetirementInv(BuilderNext(s, b).value)
  {
  }

  lemma LaunchKeepsRetirement(s: Sys, l: LaunchStep)
    requires AdmissionInv(s) && LifeInv(s) && RetirementInv(s) && LaunchNext(s, l).Some?
    ensures RetirementInv(LaunchNext(s, l).value)
  {
    hide Frame, FrameText, Needed, DecodeText;
  }

  lemma CallerKeepsRetirement(s: Sys, c: CallId, step: CallerStep)
    requires AdmissionInv(s) && LifeInv(s) && RetirementInv(s) && CallerNext(s, c, step).Some?
    ensures RetirementInv(CallerNext(s, c, step).value)
  {
    hide CallerNext;
    CallerFrame(s, c, step);
    if step.Retires? { CallerRetires(s, c, step); } else { CallerFields(s, c, step); }
  }

  lemma WorkerKeepsRetirement(s: Sys, w: WorkerStep)
    requires AdmissionInv(s) && LifeInv(s) && RetirementInv(s) && WorkerNext(s, w).Some?
    ensures RetirementInv(WorkerNext(s, w).value)
  {
    hide WorkerNext;
    WorkerFrame(s, w);
    WorkerFields(s, w);
    WorkerMoves(s, w);
  }

  lemma ReaperKeepsRetirement(s: Sys, r: ReaperStep)
    requires AdmissionInv(s) && LifeInv(s) && RetirementInv(s) && ReaperNext(s, r).Some?
    ensures RetirementInv(ReaperNext(s, r).value)
  {
  }

  lemma ChildKeepsLife(s: Sys, h: ChildStep)
    requires LifeInv(s) && RetirementInv(s) && ChildNext(s.peer, h).Some?
    ensures var t := s.(peer := ChildNext(s.peer, h).value); LifeInv(t) && RetirementInv(t)
  {
    hide Frame, FrameHere, FrontBody, AfterFrame, StopHere, LegalAnswer;
  }

  lemma LifeStep(s: Sys, a: Action)
    requires AdmissionInv(s) && LifeInv(s) && RetirementInv(s) && Step(s, a).Some?
    ensures LifeInv(Step(s, a).value) && RetirementInv(Step(s, a).value)
  {
    hide BuilderNext, LaunchNext, CallerNext, WorkerNext, ReaperNext, ChildNext, LifeInv, RetirementInv;
    match a
    case OfBuilder(b) => BuilderKeepsLife(s, b); BuilderKeepsRetirement(s, b);
    case OfLaunch(l) => LaunchKeepsLife(s, l); LaunchKeepsRetirement(s, l);
    case OfCaller(c, step) => CallerKeepsLife(s, c, step); CallerKeepsRetirement(s, c, step);
    case OfWorker(w) => WorkerKeepsLife(s, w); WorkerKeepsRetirement(s, w);
    case OfReaper(r) => ReaperKeepsLife(s, r); ReaperKeepsRetirement(s, r);
    case OfChild(h) => ChildKeepsLife(s, h);
  }

  // ---------------------------------------------------------------- what is in the pipes

  /** Nothing is under way. */
  predicate Synced(p: Peer, inbox: seq<byte>) {
    p.toChild == [] && inbox == [] && p.fromChild == [] && p.outbox == [] && !p.stopping
  }

  predicate InGreeting(p: Peer, inbox: seq<byte>) {
    !p.stopping && p.toChild == [] && inbox + p.fromChild + p.outbox == Frame(HELLO)
  }

  /** A frame is written, but for its last bytes. */
  predicate PartlySent(p: Peer, inbox: seq<byte>, left: seq<byte>, body: seq<byte>)
    requires |body| <= MAX_REQUEST
  {
    && !p.stopping && inbox == [] && p.fromChild == [] && p.outbox == []
    && left != [] && p.toChild + left == Frame(body)
  }

  predicate WhollySent(p: Peer, inbox: seq<byte>, body: seq<byte>)
    requires |body| <= MAX_REQUEST
  {
    !p.stopping && inbox == [] && p.fromChild == [] && p.outbox == [] && p.toChild == Frame(body)
  }

  predicate BeingAnswered(p: Peer, inbox: seq<byte>, body: seq<byte>) {
    && !p.stopping && p.toChild == []
    && p.asked != [] && |p.answers| == |p.asked| && p.asked[|p.asked| - 1] == body
    && LegalAnswer(p.answers[|p.asked| - 1])
    && inbox + p.fromChild + p.outbox == Frame(p.answers[|p.asked| - 1])
  }

  predicate BeingStopped(p: Peer, inbox: seq<byte>) {
    p.stopping && p.toChild == [] && inbox + p.fromChild + p.outbox == Frame([])
  }

  lemma ChildWhenSynced(p: Peer, inbox: seq<byte>, h: ChildStep)
    requires Synced(p, inbox) && ChildNext(p, h).Some?
    ensures Synced(ChildNext(p, h).value, inbox) && h.Exits?
  {
  }

  lemma ChildSays(p: Peer, inbox: seq<byte>, k: nat)
    requires ChildNext(p, Says(k)).Some?
    ensures var q := ChildNext(p, Says(k)).value; inbox + q.fromChild + q.outbox == inbox + p.fromChild + p.outbox
    ensures inbox + p.fromChild + p.outbox == [] + inbox + p.fromChild + p.outbox
  {
    assert p.outbox == p.outbox[..k] + p.outbox[k..];
  }

  lemma ChildInGreeting(p: Peer, inbox: seq<byte>, h: ChildStep)
    requires InGreeting(p, inbox) && ChildNext(p, h).Some?
    ensures InGreeting(ChildNext(p, h).value, inbox)
  {
    if h.Says? { ChildSays(p, inbox, h.count); }
  }

  /** The front of a frame is not a frame, and not a stop either. */
  lemma PartIsNoFrame(part: seq<byte>, left: seq<byte>, body: seq<byte>)
    requires |body| <= MAX_REQUEST && left != [] && part + left == Frame(body)
    ensures !FrameHere(part) && (|part| >= 4 ==> HeaderValue(part[..4]) == |body|) && !StopHere(part)
  {
    hide HeaderValue, Header;
    HeaderRoundTrip(|body|);
    if |part| >= 4 { assert part[..4] == Frame(body)[..4] == Header(|body|); }
  }

  lemma ChildWhenPartlySent(p: Peer, inbox: seq<byte>, left: seq<byte>, body: seq<byte>, h: ChildStep)
    requires |body| <= MAX_REQUEST && PartlySent(p, inbox, left, body) && ChildNext(p, h).Some?
    ensures PartlySent(ChildNext(p, h).value, inbox, left, body)
  {
    hide FrameHere, StopHere, Frame;
    PartIsNoFrame(p.toChild, left, body);
  }

  lemma StopFrame()
    ensures StopHere(Frame([])) && Frame([])[4..] == [] && !FrameHere(Frame([]))
  {
    HeaderRoundTrip(0);
    assert Frame([]) == Header(0);
    assert Frame([])[..4] == Header(0);
  }

  lemma RequestFrame(body: seq<byte>)
    requires LegalBody(body)
    ensures FrameHere(Frame(body)) && FrontBody(Frame(body)) == body && AfterFrame(Frame(body)) == [] &&
      !StopHere(Frame(body))
  {
    hide LegalBody;
    FrameIsRead(body, []);
    assert Frame(body) + [] == Frame(body);
    HeaderRoundTrip(|body|);
    assert Frame(body)[..4] == Header(|body|);
    assert |body| > 0 by { assert LegalBody(body) ==> |body| > 0 by { LegalIsNotEmpty(body); } }
  }

  lemma LegalIsNotEmpty(body: seq<byte>)
    requires LegalBody(body)
    ensures 0 < |body| <= MAX_REQUEST
  {
  }

  lemma ChildWhenRequested(p: Peer, inbox: seq<byte>, body: seq<byte>, h: ChildStep)
    requires LegalBody(body) && WhollySent(p, inbox, body) && ChildNext(p, h).Some? && |p.answers| == |p.asked|
    ensures var q := ChildNext(p, h).value; WhollySent(q, inbox, body) || BeingAnswered(q, inbox, body)
  {
    hide FrameHere, StopHere, Frame, FrontBody, AfterFrame, LegalAnswer, LegalBody;
    RequestFrame(body);
  }

  lemma ChildWhileAnswering(p: Peer, inbox: seq<byte>, body: seq<byte>, h: ChildStep)
    requires BeingAnswered(p, inbox, body) && ChildNext(p, h).Some?
    ensures BeingAnswered(ChildNext(p, h).value, inbox, body) && (h.Says? || h.Exits?)
  {
    hide Frame, LegalAnswer;
    if h.Says? { ChildSays(p, inbox, h.count); }
  }

  lemma ChildWhenStopped(p: Peer, inbox: seq<byte>, h: ChildStep)
    requires WhollySent(p, inbox, []) && ChildNext(p, h).Some?
    ensures var q := ChildNext(p, h).value; WhollySent(q, inbox, []) || BeingStopped(q, inbox)
  {
    hide FrameHere, StopHere, Frame;
    StopFrame();
  }

  lemma ChildWhileStopping(p: Peer, inbox: seq<byte>, h: ChildStep)
    requires BeingStopped(p, inbox) && ChildNext(p, h).Some?
    ensures BeingStopped(ChildNext(p, h).value, inbox)
  {
    hide Frame;
    if h.Says? { ChildSays(p, inbox, h.count); }
  }

  /** When the worker has read enough, it has read exactly the answer. */
  lemma WholeAnswer(inbox: seq<byte>, rest: seq<byte>, answer: seq<byte>)
    requires LegalAnswer(answer) && |answer| <= MAX_RESPONSE_BYTES
    requires inbox + rest == Frame(answer) && Needed(inbox) == 0
    ensures inbox == Frame(answer) && rest == [] && FrameText(inbox) == DecodeText(answer) && DecodeText(answer).Some?
  {
    hide HeaderValue, Header, DecodeText, LegalAnswer;
    LegalAnswerIsShort(answer);
    HeaderRoundTrip(|answer|);
    assert inbox[..4] == Frame(answer)[..4] == Header(|answer|);
    assert Frame(answer)[4..] == answer;
    BothEndsAgree(answer);
  }

  // ---------------------------------------------------------------- whose task it is

  predicate PastSubmission(pc: Pc) {
    pc.Waiting? || pc.Failing? || pc.Releasing? || pc.Done?
  }

  predicate Pending(s: Sys, c: CallId) {
    c in s.queue || TaskOf(s.worker) == Some(c)
  }

  /** Tasks and results belong to calls that submitted them; a pending task is the holder's, or the client is closed. */
  ghost predicate OwnerInv(s: Sys) {
    && (forall c :: c in s.futures ==> c in s.callers && PastSubmission(s.callers[c].pc))
    && (forall c :: Pending(s, c) ==> c in s.callers && PastSubmission(s.callers[c].pc))
    && (forall c :: Pending(s, c) ==>
      c !in s.futures && MaySend(s.callers[c].op) && (s.own.closed || s.holder == Some(c)))
    && |s.queue| <= 1 && (s.queue != [] ==> s.worker == Idle)
  }

  /** The worker and the pipes are idle, and the client is open. */
  predicate Quiet(s: Sys) {
    s.worker == Idle && s.queue == [] && Synced(s.peer, s.inbox) && !s.own.closed && !s.own.ioShutdown
  }

  predicate WaitingInv(s: Sys, c: CallId)
    requires c in s.callers
  {
    && MaySend(s.callers[c].op)
    && (Pending(s, c) || c in s.futures)
    && (c in s.queue ==> !s.own.closed)
    && (TaskOf(s.worker) == Some(c) ==> (s.own.closed <==> s.worker.Winding?))
    && (c in s.futures && s.futures[c].Answer? ==> s.callers[c].op.Request? && Quiet(s))
    && (c in s.futures && s.futures[c].Acknowledged? ==> s.callers[c].op.Close? && s.own.gracefulClosed)
  }

  /** What the holder of the admission may rely on. */
  predicate HolderInv(s: Sys, c: CallId)
    requires c in s.callers
  {
    match s.callers[c].pc
    case Checking => !s.own.closed ==> Quiet(s)
    case Admitted => Quiet(s)
    case Ready => Quiet(s) && MaySend(s.callers[c].op)
    case Waiting => WaitingInv(s, c)
    case Releasing(outcome) => OutcomeInv(s, outcome) && ((outcome.Returned? || outcome.Unsendable?) ==> Quiet(s))
    case _ => true
  }

  /** What the end of a call says about the client. */
  predicate OutcomeInv(s: Sys, outcome: Outcome) {
    && (outcome.Stopped? ==> s.own.gracefulClosed)
    && (outcome.Threw? ==> s.own.closed)
  }

  ghost predicate ExchangeInv(s: Sys) {
    && OwnerInv(s)
    && (s.holder.Some? ==> s.holder.value in s.callers && HolderInv(s, s.holder.value))
    && (s.holder.Some? && s.callers[s.holder.value].pc == Releasing(Outcome.Refused) ==> s.own.closed)
    && (s.builder == Built && !s.own.closed && s.holder.None? ==> Quiet(s))
    && OutcomesInv(s)
  }

  /** Every call that is over ended as the client's state says. */
  predicate OutcomesInv(s: Sys) {
    forall c :: c in s.callers && s.callers[c].pc.Done? ==> OutcomeInv(s, s.callers[c].pc.outcome)
  }

  /** What is in the pipes, by what the worker is doing. */
  predicate TaskInv(s: Sys, c: CallId)
    requires c in s.callers
  {
    var op := s.callers[c].op;
    match s.worker
    case Sending(_, left) => PartlySent(s.peer, s.inbox, left, BodyOf(op))
    case Receiving(_) =>
      WhollySent(s.peer, s.inbox, BodyOf(op)) ||
        (if op.Close? then BeingStopped(s.peer, s.inbox) else BeingAnswered(s.peer, s.inbox, BodyOf(op)))
    case _ => op.Close?
  }

  predicate TransportInv(s: Sys) {
    && (Unborn(s.worker) ==> Synced(s.peer, s.inbox))
    && (s.worker.Spawned? || s.worker.Published? ==> s.inbox == [])
    && (s.worker.Spawned? || s.worker.Published? || s.worker.Greeting? ==> InGreeting(s.peer, s.inbox))
    && (s.worker == LaunchEnding(true) || s.worker == LaunchEnded(true) ==> Synced(s.peer, s.inbox))
    && (s.launched == Some(true) && s.builder != Built ==> s.worker == Idle && Synced(s.peer, s.inbox))
    && (s.queue != [] ==> s.worker == Idle && Synced(s.peer, s.inbox))
    && (TaskOf(s.worker).Some? ==> TaskOf(s.worker).value in s.callers && TaskInv(s, TaskOf(s.worker).value))
    && (s.acked ==> s.peer.stopping && s.peer.outbox == [])
  }

  /** All but the contents of the logs. */
  ghost predicate CoreInv(s: Sys) {
    && AdmissionInv(s) && LifeInv(s) && RetirementInv(s) && ExchangeInv(s) && TransportInv(s)
    && LogInv(s.peer)
  }

  /** Steps that leave the calls, the tasks and the results alone. */
  lemma OwnersStay(s: Sys, t: Sys)
    requires OwnerInv(s)
    requires t.futures == s.futures && t.callers == s.callers && t.holder == s.holder && t.queue == s.queue
    requires TaskOf(t.worker) == TaskOf(s.worker) && (s.worker == Idle ==> t.worker == Idle) &&
      (s.own.closed ==> t.own.closed)
    ensures OwnerInv(t)
  {
    hide MaySend;
    assert forall c :: Pending(t, c) <==> Pending(s, c);
  }

  /** Without callers there are no tasks and no results. */
  lemma NothingAsked(s: Sys)
    requires AdmissionInv(s) && OwnerInv(s) && s.builder != Built
    ensures s.queue == [] && TaskOf(s.worker).None? && s.holder.None? && s.callers == map[]
  {
    assert s.queue != [] ==> Pending(s, s.queue[0]);
    assert TaskOf(s.worker).Some? ==> Pending(s, TaskOf(s.worker).value);
  }

  lemma BuilderKeepsExchange(s: Sys, b: BuilderStep)
    requires CoreInv(s) && BuilderNext(s, b).Some?
    ensures ExchangeInv(BuilderNext(s, b).value)
  {
    hide Synced, MaySend, TaskInv, OwnerInv, HolderInv, AdmissionInv;
    var t := BuilderNext(s, b).value;
    if s.builder == Built { assert t == s.(late := t.late); }
    else { NothingAsked(s); }
    OwnersStay(s, t);
    assert s.builder == Built && s.holder.Some? ==> HolderInv(t, s.holder.value) by {
      if s.builder == Built && s.holder.Some? { LateIsNothing(s, t); }
    }
  }

  lemma LateIsNothing(s: Sys, t: Sys)
    requires s.holder.Some? && s.holder.value in s.callers && HolderInv(s, s.holder.value) && t == s.(late := t.late)
    ensures HolderInv(t, s.holder.value)
  {
    hide Synced, MaySend;
  }

  lemma LaunchKeepsExchange(s: Sys, l: LaunchStep)
    requires CoreInv(s) && LaunchNext(s, l).Some?
    ensures ExchangeInv(LaunchNext(s, l).value)
  {
    hide Frame, FrameText, Needed, DecodeText, MaySend, Synced, TransportInv, RetirementInv, OwnerInv, HolderInv,
      AdmissionInv;
    NothingAsked(s);
    OwnersStay(s, LaunchNext(s, l).value);
  }

  lemma ReaperKeepsExchange(s: Sys, r: ReaperStep)
    requires CoreInv(s) && ReaperNext(s, r).Some?
    ensures ExchangeInv(ReaperNext(s, r).value)
  {
    hide MaySend, Synced, TransportInv, LifeInv, AdmissionInv, OwnerInv;
    OwnersStay(s, ReaperNext(s, r).value);
  }

  lemma ArrivingKeepsExchange(s: Sys, c: CallId, step: CallerStep)
    requires CoreInv(s) && CallerNext(s, c, step).Some? && (step.Calls? || step.Expires?)
    ensures ExchangeInv(CallerNext(s, c, step).value)
  {
    hide MaySend, Synced, TransportInv, LifeInv, RetirementInv, AdmissionInv, CallNext;
    var t := CallerNext(s, c, step).value;
    assert forall d :: Pending(t, d) <==> Pending(s, d);
    assert step.Calls? ==> !Pending(s, c) && c !in s.futures;
  }

  /** A call that moves on stays the owner of what it submitted, and the calls that are over stay as they are. */
  lemma OwnersMove(s: Sys, t: Sys, c: CallId)
    requires OwnerInv(s) && OutcomesInv(s) && ShapedAsCall(s, t, c) && t.queue == s.queue
    requires PastSubmission(s.callers[c].pc) ==> PastSubmission(t.callers[c].pc)
    requires (s.own.closed ==> t.own.closed) && t.own.gracefulClosed == s.own.gracefulClosed
    requires t.callers[c].pc.Done? ==> OutcomeInv(t, t.callers[c].pc.outcome)
    requires t.holder == s.holder || s.holder.None? || t.own.closed || (s.queue == [] && TaskOf(s.worker).None?)
    ensures OwnerInv(t) && OutcomesInv(t)
  {
    hide MaySend;
    assert forall d :: Pending(t, d) <==> Pending(s, d);
    assert s.queue == [] && TaskOf(s.worker).None? ==> forall d :: !Pending(s, d);
  }

  lemma ContendingKeepsExchange(s: Sys, c: CallId, step: CallerStep)
    requires CoreInv(s) && CallerNext(s, c, step).Some? && step.Contends?
    ensures ExchangeInv(CallerNext(s, c, step).value)
  {
    hide MaySend, Synced, TransportInv, LifeInv, RetirementInv, OwnerInv, OutcomesInv, ExchangeNext, LogInv;
    var t := CallerNext(s, c, step).value;
    CallShape(s, c, step);
    OwnersMove(s, t, c);
  }

  lemma LookingKeepsExchange(s: Sys, c: CallId, step: CallerStep)
    requires CoreInv(s) && CallerNext(s, c, step).Some? && step.Looks?
    ensures ExchangeInv(CallerNext(s, c, step).value)
  {
    hide MaySend, Synced, TransportInv, LifeInv, RetirementInv, OwnerInv, OutcomesInv;
    var t := CallerNext(s, c, step).value;
    CallShape(s, c, step);
    OwnersMove(s, t, c);
  }

  lemma AdmittedKeepsExchange(s: Sys, c: CallId, step: CallerStep)
    requires CoreInv(s) && CallerNext(s, c, step).Some? && (step.Checks? || step.Encodes?)
    ensures ExchangeInv(CallerNext(s, c, step).value)
  {
    hide MaySend, Synced, TransportInv, LifeInv, RetirementInv, OwnerInv, OutcomesInv;
    var t := CallerNext(s, c, step).value;
    CallShape(s, c, step);
    OwnersMove(s, t, c);
  }

  lemma SubmittingKeepsExchange(s: Sys, c: CallId, step: CallerStep)
    requires CoreInv(s) && CallerNext(s, c, step).Some? && step.Submits?
    ensures ExchangeInv(CallerNext(s, c, step).value)
  {
    hide MaySend, Synced, TransportInv, LifeInv, RetirementInv;
    var t := CallerNext(s, c, step).value;
    assert t == At(s, c, Waiting).(queue := [c]);
    hide CallerNext;
    assert forall d :: !Pending(s, d);
    assert forall d :: Pending(t, d) <==> d == c;
  }

  lemma ReturningKeepsExchange(s: Sys, c: CallId, step: CallerStep)
    requires CoreInv(s) && CallerNext(s, c, step).Some? && (step.Returns? || step.Fails?)
    ensures ExchangeInv(CallerNext(s, c, step).value)
  {
    hide MaySend, Synced, TransportInv, LifeInv, RetirementInv, OwnerInv, OutcomesInv;
    var t := CallerNext(s, c, step).value;
    CallShape(s, c, step);
    OwnersMove(s, t, c);
  }

  lemma RetiringKeepsExchange(s: Sys, c: CallId, step: CallerStep)
    requires CoreInv(s) && CallerNext(s, c, step).Some? && step.Retires?
    ensures ExchangeInv(CallerNext(s, c, step).value)
  {
    hide MaySend, Synced, TransportInv, LifeInv, RetirementInv, OwnerInv, OutcomesInv;
    var t := CallerNext(s, c, step).value;
    CallShape(s, c, step);
    OwnersMove(s, t, c);
  }

  lemma ReleasingKeepsExchange(s: Sys, c: CallId, step: CallerStep)
    requires CoreInv(s) && CallerNext(s, c, step).Some? && step.Releases?
    ensures ExchangeInv(CallerNext(s, c, step).value)
  {
    hide MaySend, Synced, TransportInv, LifeInv, OwnerInv, OutcomesInv;
    var t := CallerNext(s, c, step).value;
    CallShape(s, c, step);
    OwnersMove(s, t, c);
  }

  /** A task ends: what its result says must be so. */
  lemma EndingKeepsExchange(s: Sys, t: Sys, c: CallId, future: Future)
    requires AdmissionInv(s) && ExchangeInv(s) && TaskOf(s.worker) == Some(c)
    requires t.worker == Idle && t.futures == s.futures[c := future] && t.queue == s.queue
    requires t.callers == s.callers && t.holder == s.holder && t.builder == s.builder
    requires t.own.closed == s.own.closed && t.own.gracefulClosed == s.own.gracefulClosed
    requires future.Answer? ==>
      s.worker.Receiving? && s.callers[c].op.Request? && Synced(t.peer, t.inbox) && (t.own.ioShutdown ==> t.own.closed)
    requires future.Acknowledged? ==> s.callers[c].op.Close? && s.own.gracefulClosed
    ensures ExchangeInv(t)
  {
    hide MaySend, Synced, AdmissionInv;
    assert Pending(s, c);
  }

  /** A task that is not even started ends at once. */
  lemma SkippingKeepsExchange(s: Sys, t: Sys, c: CallId)
    requires ExchangeInv(s) && s.queue == [c] && s.worker == Idle && TaskOf(t.worker).None?
    requires t == Ended(s.(queue := []), c, Failed)
    ensures ExchangeInv(t)
  {
    hide MaySend, Synced;
    assert Pending(s, c) && forall d :: !Pending(t, d);
  }

  lemma StartingKeepsExchange(s: Sys, t: Sys, c: CallId, left: seq<byte>)
    requires ExchangeInv(s) && s.queue == [c] && s.worker == Idle && !s.own.closed
    requires t == s.(queue := [], worker := Sending(c, left))
    ensures ExchangeInv(t)
  {
    hide MaySend, Synced;
    assert forall d :: Pending(t, d) <==> d == c;
    assert forall d :: Pending(s, d) <==> d == c;
  }

  lemma BeginsKeepsExchange(s: Sys, w: WorkerStep)
    requires CoreInv(s) && WorkerNext(s, w).Some? && w.Begins?
    ensures ExchangeInv(WorkerNext(s, w).value)
  {
    hide Frame, BodyOf, LifeInv, RetirementInv, TransportInv, AdmissionInv, HolderInv;
    var c, t := s.queue[0], WorkerNext(s, w).value;
    assert s.queue == [c] && s.queue[1..] == [];
    hide ExchangeInv;
    if s.own.closed || c in s.expired {
      SkippingKeepsExchange(s, t, c);
    } else {
      StartingKeepsExchange(s, t, c, t.worker.left);
    }
  }

  lemma MovesKeepsExchange(s: Sys, w: WorkerStep)
    requires CoreInv(s) && WorkerNext(s, w).Some? && (w.Writes? || w.Reads?)
    ensures ExchangeInv(WorkerNext(s, w).value)
  {
    hide BodyOf, MaySend, RetirementInv, TransportInv, Needed, AdmissionInv;
    var t := WorkerNext(s, w).value;
    assert TaskOf(t.worker) == TaskOf(s.worker) && t.queue == s.queue && (t.worker.Winding? <==> s.worker.Winding?);
    assert s.worker.Greeting? ==> s.builder != Built;
    assert forall c :: Pending(s, c) <==> Pending(t, c);
  }

  lemma AnsweredKeepsExchange(s: Sys, w: WorkerStep)
    requires CoreInv(s) && WorkerNext(s, w).Some? && w.Answered?
    ensures ExchangeInv(WorkerNext(s, w).value)
  {
    hide Frame, FrameText, BodyOf, MaySend, WhollySent, BeingStopped, InGreeting, ExchangeInv, AdmissionInv, LifeInv,
      BeingAnswered, Needed;
    var c, text := s.worker.caller, FrameText(s.inbox);
    if text.Some? { AnswerEmptiesPipes(s, c); }
    EndingKeepsExchange(s, WorkerNext(s, w).value, c, if text.None? then Failed else Answer(text.value));
  }

  lemma AcksKeepsExchange(s: Sys, w: WorkerStep)
    requires CoreInv(s) && WorkerNext(s, w).Some? && w.Acks?
    ensures ExchangeInv(WorkerNext(s, w).value)
  {
    hide BodyOf, MaySend, LifeInv, RetirementInv, TransportInv, Needed, AdmissionInv;
    var c := s.worker.caller;
    assert Pending(s, c);
    if HeaderValue(s.inbox) != 0 {
      EndingKeepsExchange(s, WorkerNext(s, w).value, c, Failed);
    }
  }

  lemma SeesExitKeepsExchange(s: Sys, w: WorkerStep)
    requires CoreInv(s) && WorkerNext(s, w).Some? && w.SeesExit?
    ensures ExchangeInv(WorkerNext(s, w).value)
  {
    hide BodyOf, MaySend, LifeInv, TransportInv, Needed;
    assert Pending(s, s.worker.caller);
    if s.peer.life.code != 0 { EndingKeepsExchange(s, WorkerNext(s, w).value, s.worker.caller, Failed); }
  }

  lemma EndsKeepsExchange(s: Sys, w: WorkerStep)
    requires CoreInv(s) && WorkerNext(s, w).Some? && (w.Winds? || w.Breaks?)
    ensures ExchangeInv(WorkerNext(s, w).value)
  {
    hide BodyOf, MaySend, LifeInv, Needed, ExchangeInv, AdmissionInv;
    EndingKeepsExchange(s, WorkerNext(s, w).value, s.worker.caller, if w.Winds? then Acknowledged else Failed);
  }

  /** An answer that was read is read to its end, and leaves nothing behind. */
  lemma AnswerEmptiesPipes(s: Sys, c: CallId)
    requires TransportInv(s) && s.worker == Receiving(c) && !IsStop(s, c) && Needed(s.inbox) == 0 &&
      FrameText(s.inbox).Some?
    ensures c in s.callers && s.callers[c].op.Request? && BeingAnswered(s.peer, s.inbox, BodyOf(s.callers[c].op))
    ensures Synced(s.peer, []) && FrameText(s.inbox) == DecodeText(s.peer.answers[|s.peer.asked| - 1])
  {
    hide Frame, FrameText, BodyOf, LegalAnswer, DecodeText, HeaderValue;
    LegalAnswerIsShort(s.peer.answers[|s.peer.asked| - 1]);
    assert s.inbox + s.peer.fromChild + s.peer.outbox == s.inbox + (s.peer.fromChild + s.peer.outbox);
    WholeAnswer(s.inbox, s.peer.fromChild + s.peer.outbox, s.peer.answers[|s.peer.asked| - 1]);
  }

  // ---------------------------------------------------------------- the pipes follow the worker

  lemma BuilderKeepsTransport(s: Sys, b: BuilderStep)
    requires CoreInv(s) && BuilderNext(s, b).Some?
    ensures TransportInv(BuilderNext(s, b).value)
  {
    hide PartlySent, WhollySent, BeingAnswered, BeingStopped, InGreeting, Synced, MaySend, BodyOf, ExchangeInv,
      AdmissionInv;
  }

  lemma HelloIsLegal()
    ensures LegalAnswer(HELLO)
  {
    PlainIsText("{\"transport\":\"starintel-owned/1\",\"abi\":1}");
    CleanIsLegal(HELLO);
  }

  /** The greeting is read to its end, if it is accepted. */
  lemma GreetingEmptiesPipes(s: Sys)
    requires InGreeting(s.peer, s.inbox) && Needed(s.inbox) == 0
    ensures Synced(s.peer, [])
  {
    hide FrameText, DecodeText, Frame, HELLO, LegalAnswer;
    HelloIsLegal();
    LegalAnswerIsShort(HELLO);
    assert s.inbox + s.peer.fromChild + s.peer.outbox == s.inbox + (s.peer.fromChild + s.peer.outbox);
    WholeAnswer(s.inbox, s.peer.fromChild + s.peer.outbox, HELLO);
  }

  lemma GreetingBegins(p: Peer, inbox: seq<byte>)
    requires Synced(p, inbox)
    ensures InGreeting(p.(life := Alive, outbox := Frame(HELLO)), inbox) && inbox == [] && !p.stopping
  {
    HelloIsLegal();
    hide HELLO, Frame;
    assert [] + [] + Frame(HELLO) == Frame(HELLO);
  }

  lemma StartKeepsTransport(s: Sys, l: LaunchStep)
    requires CoreInv(s) && LaunchNext(s, l).Some? && l.LauncherStarts?
    ensures TransportInv(LaunchNext(s, l).value)
  {
    hide Frame, FrameText, Needed, DecodeText, ExchangeInv, AdmissionInv, RetirementInv, HELLO, TaskInv, InGreeting,
      Synced;
    GreetingBegins(s.peer, s.inbox);
  }

  lemma GreetingKeepsTransport(s: Sys, l: LaunchStep)
    requires CoreInv(s) && LaunchNext(s, l).Some? && l.Greets?
    ensures TransportInv(LaunchNext(s, l).value)
  {
    hide Frame, FrameText, Needed, DecodeText, ExchangeInv, AdmissionInv, RetirementInv, HELLO, TaskInv, InGreeting,
      Synced;
    GreetingEmptiesPipes(s);
  }

  lemma RestOfLaunchKeepsTransport(s: Sys, l: LaunchStep)
    requires CoreInv(s) && LaunchNext(s, l).Some? && !l.LauncherStarts? && !l.Greets?
    ensures TransportInv(LaunchNext(s, l).value)
  {
    hide Frame, FrameText, Needed, DecodeText, ExchangeInv, AdmissionInv, RetirementInv, HELLO, TaskInv, InGreeting,
      Synced;
  }

  lemma LaunchKeepsTransport(s: Sys, l: LaunchStep)
    requires CoreInv(s) && LaunchNext(s, l).Some?
    ensures TransportInv(LaunchNext(s, l).value)
  {
    hide CoreInv, LaunchNext, TransportInv;
    match l
    case LauncherStarts => StartKeepsTransport(s, l);
    case Greets => GreetingKeepsTransport(s, l);
    case _ => RestOfLaunchKeepsTransport(s, l);
  }

  lemma ReaperKeepsTransport(s: Sys, r: ReaperStep)
    requires CoreInv(s) && ReaperNext(s, r).Some?
    ensures TransportInv(ReaperNext(s, r).value)
  {
    hide BodyOf, Frame, MaySend, Synced, PartlySent, WhollySent, BeingAnswered, BeingStopped, InGreeting, ExchangeInv,
      AdmissionInv;
  }

  lemma SubmitsOnce(s: Sys, c: CallId, step: CallerStep)
    requires c in s.callers && CallNext(s, c, step).Some?
    ensures CallNext(s, c, step).value.queue == s.queue
      || (step.Submits? && s.callers[c].pc == Ready && CallNext(s, c, step).value.queue == s.queue + [c])
  {
    hide MaySend;
  }

  /** Calls come and move on, but stay the calls they are. */
  lemma CallersStay(s: Sys, c: CallId, step: CallerStep)
    requires CallerNext(s, c, step).Some?
    ensures var t := CallerNext(s, c, step).value;
      && (forall d :: d in s.callers ==> d in t.callers && t.callers[d].op == s.callers[d].op)
      && (t.queue != s.queue ==> c in s.callers && s.callers[c].pc == Ready && step.Submits?)
  {
    hide CallNext;
    if !step.Calls? && !step.Expires? {
      CallShape(s, c, step);
      SubmitsOnce(s, c, step);
    }
  }

  lemma CallerKeepsTransport(s: Sys, c: CallId, step: CallerStep)
    requires CoreInv(s) && CallerNext(s, c, step).Some?
    ensures TransportInv(CallerNext(s, c, step).value)
  {
    hide BodyOf, Frame, MaySend, Synced, PartlySent, WhollySent, BeingAnswered, BeingStopped, InGreeting, LifeInv,
      RetirementInv, CallerNext;
    CallerFrame(s, c, step);
    CallersStay(s, c, step);
  }

  lemma BeginsKeepsTransport(s: Sys, w: WorkerStep)
    requires CoreInv(s) && WorkerNext(s, w).Some? && w.Begins?
    ensures TransportInv(WorkerNext(s, w).value)
  {
    hide Frame, BodyOf, MaySend, LifeInv, RetirementInv;
    var c := s.queue[0];
    assert Pending(s, c) && s.queue[1..] == [];
    assert [] + Frame(BodyOf(s.callers[c].op)) == Frame(BodyOf(s.callers[c].op));
  }

  lemma WritesKeepsTransport(s: Sys, w: WorkerStep)
    requires CoreInv(s) && WorkerNext(s, w).Some? && w.Writes?
    ensures TransportInv(WorkerNext(s, w).value)
  {
    hide Frame, BodyOf, MaySend, RetirementInv, AdmissionInv, ExchangeInv;
    var k, left := w.count, s.worker.left;
    assert left == left[..k] + left[k..];
    assert left[k..] == [] ==> left[..k] == left;
    assert s.peer.toChild + left == s.peer.toChild + left[..k] + left[k..];
  }

  /** What the worker reads is no longer in the pipe. */
  lemma ReadingMoves(p: Peer, inbox: seq<byte>, k: nat)
    requires k <= |p.fromChild|
    ensures inbox + p.fromChild[..k] + p.fromChild[k..] + p.outbox == inbox + p.fromChild + p.outbox
  {
    assert p.fromChild == p.fromChild[..k] + p.fromChild[k..];
  }

  lemma ReadsKeepsTransport(s: Sys, w: WorkerStep)
    requires CoreInv(s) && WorkerNext(s, w).Some? && w.Reads?
    ensures TransportInv(WorkerNext(s, w).value)
  {
    hide Frame, BodyOf, MaySend, LifeInv, RetirementInv, AdmissionInv, ExchangeInv, Needed, LegalAnswer;
    ReadingMoves(s.peer, s.inbox, w.count);
  }

  lemma EndsKeepsTransport(s: Sys, w: WorkerStep)
    requires CoreInv(s) && WorkerNext(s, w).Some? && !w.Begins? && !w.Writes? && !w.Reads?
    ensures TransportInv(WorkerNext(s, w).value)
  {
    hide WorkerNext, Frame, BodyOf, MaySend, AdmissionInv, PartlySent, WhollySent, BeingAnswered, BeingStopped,
      InGreeting, Synced;
    WorkerFrame(s, w);
    WorkerFields(s, w);
    WorkerMoves(s, w);
    assert TaskOf(s.worker).Some? ==> Pending(s, TaskOf(s.worker).value);
    TaskStops(s, w);
    if w.Acks? { AcknowledgementIsLast(s, w); }
  }

  lemma TaskStops(s: Sys, w: WorkerStep)
    requires OwnerInv(s) && WorkerNext(s, w).Some? && !w.Begins? && !w.Writes? && !w.Reads?
    ensures var t := WorkerNext(s, w).value;
      && t.queue == s.queue == [] && t.peer == s.peer
      && (t.worker == Idle || (TaskOf(t.worker) == TaskOf(s.worker) && (t.worker.AwaitingExit? || t.worker.Winding?)
          && (s.worker.Receiving? ==> IsStop(s, s.worker.caller)) && !s.worker.Sending?))
      && (t.worker.AwaitingExit? ==> w.Acks?)
  {
    hide Frame, FrameText, Needed, BodyOf, HeaderValue;
    match w
    case Begins => hide WritesNext, ReadsNext, AnsweredNext, BreaksNext, StopNext;
    case Writes(_) => hide BeginsNext, ReadsNext, AnsweredNext, BreaksNext, StopNext;
    case Reads(_) => hide BeginsNext, WritesNext, AnsweredNext, BreaksNext, StopNext;
    case Answered => hide BeginsNext, WritesNext, ReadsNext, BreaksNext, StopNext;
    case Breaks => hide BeginsNext, WritesNext, ReadsNext, AnsweredNext, StopNext;
    case _ => hide BeginsNext, WritesNext, ReadsNext, AnsweredNext, BreaksNext;
  }

  /** Behind the acknowledgement of a stop the child says nothing. */
  lemma AcknowledgementIsLast(s: Sys, w: WorkerStep)
    requires TransportInv(s) && WorkerNext(s, w).Some? && w.Acks?
    ensures s.peer.stopping && s.peer.outbox == []
  {
    hide BodyOf, MaySend, HeaderValue;
    assert |s.inbox + s.peer.fromChild + s.peer.outbox| == |s.inbox| + |s.peer.fromChild| + |s.peer.outbox|;
  }

  lemma ChildKeepsExchange(s: Sys, h: ChildStep)
    requires CoreInv(s) && ChildNext(s.peer, h).Some?
    ensures ExchangeInv(s.(peer := ChildNext(s.peer, h).value))
  {
    hide ChildNext, Synced, LifeInv, RetirementInv, TransportInv;
    if Synced(s.peer, s.inbox) { ChildWhenSynced(s.peer, s.inbox, h); }
  }

  lemma SentBodyIsLegal(op: Op)
    requires op.Request? && MaySend(op)
    ensures LegalBody(BodyOf(op))
  {
    hide EncodeText, LegalBody;
    RequestArrives(op.text.value, []) by { assert op.text.Some? by { NullIsNotEncoded(); } }
  }

  lemma NullIsNotEncoded()
    ensures EncodeText(None, MAX_REQUEST).None?
  {
  }

  lemma ChildKeepsTask(s: Sys, c: CallId, h: ChildStep)
    requires CoreInv(s) && ChildNext(s.peer, h).Some? && TaskOf(s.worker) == Some(c)
    ensures c in s.callers && TaskInv(s.(peer := ChildNext(s.peer, h).value), c)
  {
    hide ChildNext, PartlySent, WhollySent, BeingAnswered, BeingStopped, LifeInv, RetirementInv, AdmissionInv, BodyOf,
      MaySend;
    assert Pending(s, c);
    var op, p, inbox := s.callers[c].op, s.peer, s.inbox;
    if s.worker.Sending? {
      ChildWhenPartlySent(p, inbox, s.worker.left, BodyOf(op), h);
    } else if s.worker.Receiving? {
      if op.Request? {
        SentBodyIsLegal(op);
        if WhollySent(p, inbox,
          BodyOf(op)) { ChildWhenRequested(p, inbox, BodyOf(op), h); } else { ChildWhileAnswering(p, inbox, BodyOf(op),
            h); }
      } else {
        StopHasNoBody(op);
        if WhollySent(p, inbox, []) { ChildWhenStopped(p, inbox, h); } else { ChildWhileStopping(p, inbox, h); }
      }
    }
  }

  lemma StopHasNoBody(op: Op)
    requires op.Close?
    ensures BodyOf(op) == []
  {
  }

  lemma ChildAfterStop(p: Peer, h: ChildStep)
    requires p.stopping && p.outbox == [] && ChildNext(p, h).Some?
    ensures ChildNext(p, h).value == p.(life := ChildNext(p, h).value.life)
  {
  }

  lemma ChildKeepsTransport(s: Sys, h: ChildStep)
    requires CoreInv(s) && ChildNext(s.peer, h).Some?
    ensures TransportInv(s.(peer := ChildNext(s.peer, h).value))
  {
    hide ChildNext, Synced, InGreeting, LifeInv, RetirementInv, AdmissionInv, ExchangeInv, TaskInv;
    if Synced(s.peer, s.inbox) { ChildWhenSynced(s.peer, s.inbox, h); }
    if InGreeting(s.peer, s.inbox) { ChildInGreeting(s.peer, s.inbox, h); }
    if TaskOf(s.worker).Some? { ChildKeepsTask(s, TaskOf(s.worker).value, h); }
    if s.acked { ChildAfterStop(s.peer, h); }
  }

  ghost predicate LogInv(p: Peer) {
    |p.asked| == |p.answers| && AllLegal(p.asked) && AllBounded(p.asked) && AllAnswers(p.answers) &&
      AllBounded(p.answers)
  }

  // ---------------------------------------------------------------- the logs

  /** The answer a call got is the child's answer to that call's request. */
  predicate ServedRight(s: Sys, c: CallId) {
    && c in s.served && c in s.callers && s.callers[c].op.Request? && c in s.futures && s.futures[c].Answer?
    && s.served[c] < |s.peer.asked| == |s.peer.answers|
    && s.peer.asked[s.served[c]] == BodyOf(s.callers[c].op)
    && DecodeText(s.peer.answers[s.served[c]]) == Some(s.futures[c].text)
  }

  predicate GotItsAnswer(s: Sys, c: CallId)
    requires c in s.callers
  {
    match s.callers[c].pc
    case Releasing(outcome) => outcome.Returned? ==> c in s.futures && s.futures[c] == Answer(outcome.text)
    case Done(outcome) => outcome.Returned? ==> c in s.futures && s.futures[c] == Answer(outcome.text)
    case _ => true
  }

  predicate PairingInv(s: Sys) {
    && (forall c :: c in s.served ==> ServedRight(s, c))
    && (forall c :: c in s.futures && s.futures[c].Answer? ==> c in s.served)
    && (forall c, d :: c in s.served && d in s.served && c != d ==> s.served[c] != s.served[d])
    && (forall c :: c in s.callers ==> GotItsAnswer(s, c))
    && (s.worker.Receiving? && !IsStop(s, s.worker.caller) && s.peer.toChild == [] ==>
          forall c :: c in s.served ==> s.served[c] < |s.peer.asked| - 1)
  }

  /** A call that moves on moves alone, and returns only what its future holds. */
  lemma CallerMovesAlone(s: Sys, c: CallId, step: CallerStep)
    requires CallerNext(s, c, step).Some?
    ensures var t := CallerNext(s, c, step).value;
      && (forall d :: d in t.callers && d != c ==> d in s.callers && t.callers[d] == s.callers[d])
      && (c in t.callers && (c in s.callers ==> GotItsAnswer(s, c)) ==> GotItsAnswer(t, c))
  {
    hide MaySend, BodyOf;
  }

  /** Only a call that is ready gets into the queue. */
  lemma CallerQueue(s: Sys, c: CallId, step: CallerStep)
    requires CallerNext(s, c, step).Some?
    ensures var t := CallerNext(s, c, step).value;
      && s.expired <= t.expired
      && (t.queue == s.queue || (t.queue == s.queue + [c] && c in s.callers && s.callers[c].pc == Ready))
  {
    hide MaySend;
  }

  /** A call that has submitted its task does not submit another. */
  lemma CallerGoesOn(s: Sys, c: CallId, step: CallerStep)
    requires CallerNext(s, c, step).Some? && c in s.callers && PastSubmission(s.callers[c].pc)
    ensures var t := CallerNext(s, c, step).value;
      c in t.callers && PastSubmission(t.callers[c].pc) && t.queue == s.queue
  {
    hide MaySend;
  }

  lemma CallerKeepsPairing(s: Sys, c: CallId, step: CallerStep)
    requires PairingInv(s) && CallerNext(s, c, step).Some?
    ensures PairingInv(CallerNext(s, c, step).value)
  {
    hide CallerNext, BodyOf, DecodeText;
    var t := CallerNext(s, c, step).value;
    CallerFrame(s, c, step);
    CallersStay(s, c, step);
    CallerMovesAlone(s, c, step);
    forall d | d in t.callers ensures GotItsAnswer(t, d) {
      if d != c { assert GotItsAnswer(s, d); }
    }
    forall d | d in t.served ensures ServedRight(t, d) { assert ServedRight(s, d); }
  }

  /** Steps that leave calls, results and logs alone. */
  lemma OthersKeepPairing(s: Sys, t: Sys)
    requires PairingInv(s)
    requires t.callers == s.callers && t.served == s.served && t.futures == s.futures
    requires t.peer.asked == s.peer.asked && t.peer.answers == s.peer.answers
    requires t.worker.Receiving? && t.peer.toChild == [] ==> t.worker == s.worker && s.peer.toChild == []
    ensures PairingInv(t)
  {
    hide BodyOf, DecodeText;
    forall d | d in t.served ensures ServedRight(t, d) { assert ServedRight(s, d); }
    forall d | d in t.callers ensures GotItsAnswer(t, d) { assert GotItsAnswer(s, d); }
  }

  lemma BuilderKeepsPairing(s: Sys, b: BuilderStep)
    requires PairingInv(s) && BuilderNext(s, b).Some?
    ensures PairingInv(BuilderNext(s, b).value)
  {
    hide PairingInv;
    OthersKeepPairing(s, BuilderNext(s, b).value);
  }

  lemma LaunchKeepsPairing(s: Sys, l: LaunchStep)
    requires PairingInv(s) && LaunchNext(s, l).Some?
    ensures PairingInv(LaunchNext(s, l).value)
  {
    hide PairingInv, Frame, FrameText, Needed, DecodeText;
    OthersKeepPairing(s, LaunchNext(s, l).value);
  }

  lemma ReaperKeepsPairing(s: Sys, r: ReaperStep)
    requires PairingInv(s) && ReaperNext(s, r).Some?
    ensures PairingInv(ReaperNext(s, r).value)
  {
    hide PairingInv;
    OthersKeepPairing(s, ReaperNext(s, r).value);
  }

  /** A task that ends without an answer. */
  lemma FailureKeepsPairing(s: Sys, t: Sys, c: CallId, future: Future)
    requires PairingInv(s) && c !in s.futures && !future.Answer? && t.futures == s.futures[c := future]
    requires t.callers == s.callers && t.served == s.served && t.peer == s.peer && t.worker == Idle
    ensures PairingInv(t)
  {
    hide BodyOf, DecodeText;
    forall d | d in t.served ensures ServedRight(t, d) { assert ServedRight(s, d); }
    forall d | d in t.callers ensures GotItsAnswer(t, d) { assert GotItsAnswer(s, d); }
  }

  /** A task that ends with the answer to the last request. */
  lemma AnswerKeepsPairing(s: Sys, t: Sys, c: CallId, text: seq<uint16>)
    requires PairingInv(s) && s.worker == Receiving(c) && !IsStop(s, c) && s.peer.toChild == []
    requires c in s.callers && s.callers[c].op.Request? && c !in s.futures
    requires 0 < |s.peer.asked| == |s.peer.answers| && s.peer.asked[|s.peer.asked| - 1] == BodyOf(s.callers[c].op)
    requires DecodeText(s.peer.answers[|s.peer.asked| - 1]) == Some(text)
    requires t == s.(worker := Idle, inbox := [], futures := s.futures[c := Answer(text)],
      served := s.served[c := |s.peer.asked| - 1])
    ensures PairingInv(t)
  {
    hide BodyOf, DecodeText;
    assert c in s.served ==> ServedRight(s, c);
    forall d | d in t.served ensures ServedRight(t, d) { if d != c { assert ServedRight(s, d); } }
    forall d | d in t.callers ensures GotItsAnswer(t, d) { assert GotItsAnswer(s, d); }
  }

  lemma AnsweredKeepsPairing(s: Sys, w: WorkerStep)
    requires CoreInv(s) && PairingInv(s) && WorkerNext(s, w).Some? && w.Answered?
    ensures PairingInv(WorkerNext(s, w).value)
  {
    hide Frame, FrameText, BodyOf, Needed, DecodeText, LifeInv, RetirementInv, LegalAnswer, Synced, TransportInv,
      PairingInv, AdmissionInv;
    var c, t := s.worker.caller, WorkerNext(s, w).value;
    assert Pending(s, c);
    if FrameText(s.inbox).None? {
      FailureKeepsPairing(s, t, c, Failed);
    } else {
      AnswerEmptiesPipes(s, c);
      AnswerKeepsPairing(s, t, c, FrameText(s.inbox).value);
    }
  }

  /** What is left of the calls when a task ends without an answer. */
  lemma FailureLeavesLogs(s: Sys, w: WorkerStep)
    requires WorkerNext(s, w).Some? && TaskOf(WorkerNext(s, w).value.worker).None? && !w.Reads? && !w.Answered?
    ensures var t, c := WorkerNext(s, w).value, TaskThatEnds(s);
      && t.worker == Idle && t.callers == s.callers && t.served == s.served && t.peer == s.peer
      && t.futures == s.futures[c := if w.Winds? then Acknowledged else Failed] && Pending(s, c)
  {
    hide Frame, FrameText, BodyOf, Needed, HeaderValue, Wanted;
  }

  function TaskThatEnds(s: Sys): CallId {
    if TaskOf(s.worker).Some? then TaskOf(s.worker).value else if s.queue != [] then s.queue[0] else 0
  }

  lemma WorkerKeepsPairing(s: Sys, w: WorkerStep)
    requires CoreInv(s) && PairingInv(s) && WorkerNext(s, w).Some?
    ensures PairingInv(WorkerNext(s, w).value)
  {
    hide WorkerNext, PairingInv, AdmissionInv, LifeInv, RetirementInv, TransportInv, LogInv, HolderInv;
    var t := WorkerNext(s, w).value;
    if w.Answered? {
      AnsweredKeepsPairing(s, w);
    } else if TaskOf(t.worker).Some? || w.Reads? {
      WorkerMovesLogs(s, w);
      OthersKeepPairing(s, t);
    } else {
      FailureLeavesLogs(s, w);
      FailureKeepsPairing(s, t, TaskThatEnds(s), if w.Winds? then Acknowledged else Failed);
    }
  }

  /** While its task lasts, the worker changes nothing that pairing depends on. */
  lemma WorkerMovesLogs(s: Sys, w: WorkerStep)
    requires WorkerNext(s, w).Some? && (TaskOf(WorkerNext(s, w).value.worker).Some? || w.Reads?)
    ensures var t := WorkerNext(s, w).value;
      && t.callers == s.callers && t.served == s.served && t.futures == s.futures
      && t.peer.asked == s.peer.asked && t.peer.answers == s.peer.answers
      && (t.worker.Receiving? && t.peer.toChild == [] ==> t.worker == s.worker && s.peer.toChild == [])
  {
    hide WorkerNext;
    WorkerShape(s, w);
    WorkerKeepsResults(s, w);
    ReceivingIsFed(s, w);
  }

  lemma WorkerKeepsResults(s: Sys, w: WorkerStep)
    requires WorkerNext(s, w).Some? && (TaskOf(WorkerNext(s, w).value.worker).Some? || w.Reads?)
    ensures WorkerNext(s, w).value.served == s.served && WorkerNext(s, w).value.futures == s.futures
  {
    hide Frame, FrameText, Needed, BodyOf, HeaderValue, Wanted;
  }

  /** When the worker begins to receive, its request is in the pipe. */
  lemma ReceivingIsFed(s: Sys, w: WorkerStep)
    requires WorkerNext(s, w).Some?
    ensures var t := WorkerNext(s, w).value;
      t.worker.Receiving? && t.peer.toChild == [] ==> t.worker == s.worker && s.peer.toChild == []
  {
    hide Frame, FrameText, Needed, BodyOf, HeaderValue, Wanted;
  }

  lemma ChildKeepsPairing(s: Sys, h: ChildStep)
    requires CoreInv(s) && PairingInv(s) && ChildNext(s.peer, h).Some?
    ensures PairingInv(s.(peer := ChildNext(s.peer, h).value))
  {
    hide BodyOf, DecodeText, FrameHere, FrontBody, AfterFrame, Frame, StopHere, LegalAnswer, ExchangeInv, TransportInv,
      AdmissionInv, LifeInv, RetirementInv, AllLegal, AllAnswers, AllBounded;
    var t := s.(peer := ChildNext(s.peer, h).value);
    forall d | d in t.served ensures ServedRight(t, d) { assert ServedRight(s, d); }
    forall d | d in t.callers ensures GotItsAnswer(t, d) { assert GotItsAnswer(s, d); }
    if h.TakesStop? && s.worker.Receiving? && !IsStop(s, s.worker.caller) { StopIsForStop(s, h); }
  }

  /** The child is not asked to stop while a request is on its way. */
  lemma StopIsForStop(s: Sys, h: ChildStep)
    requires CoreInv(s) && ChildNext(s.peer, h).Some? && s.worker.Receiving? && !IsStop(s, s.worker.caller)
    ensures !h.TakesStop?
  {
    hide BodyOf, FrameHere, StopHere, Frame, FrontBody, AfterFrame, LegalAnswer, LegalBody, MaySend, LifeInv,
      RetirementInv, AdmissionInv;
    var c := s.worker.caller;
    assert Pending(s, c);
    SentBodyIsLegal(s.callers[c].op);
    RequestFrame(BodyOf(s.callers[c].op));
    NoStopInNothing();
  }

  lemma NoStopInNothing()
    ensures !StopHere([])
  {
  }

  // ---------------------------------------------------------------- the two streams

  function StopPart(p: Peer): seq<byte> {
    if p.stopping then Frame([]) else []
  }

  /** What went through the pipes is what the logs say. */
  ghost predicate StreamInv(p: Peer) {
    && LogInv(p)
    && p.wrote == Frames(p.asked) + StopPart(p) + p.toChild
    && (p.life.NotStarted? ==> p.said == [] && p.outbox == [] && p.asked == [] && p.answers == [] && !p.stopping)
    && (!p.life.NotStarted? ==> p.said + p.outbox == Frame(HELLO) + Frames(p.answers) + StopPart(p))
  }

  lemma AnswerIsLogged(answers: seq<seq<byte>>, a: seq<byte>)
    requires AllAnswers(answers) && AllBounded(answers) && LegalAnswer(a)
    ensures AllAnswers(answers + [a]) && AllBounded(answers + [a]) &&
      Frames(answers + [a]) == Frames(answers) + Frame(a)
  {
    hide LegalAnswer, Frame;
    LegalAnswerIsShort(a);
    FramesConcat(answers, a);
  }

  lemma RequestIsLogged(asked: seq<seq<byte>>, s: seq<byte>)
    requires AllLegal(asked) && AllBounded(asked) && FrameHere(s)
    ensures AllLegal(asked + [FrontBody(s)]) && AllBounded(asked + [FrontBody(s)])
    ensures Frames(asked + [FrontBody(s)]) + AfterFrame(s) == Frames(asked) + s
  {
    hide LegalBody, Frame, FrameHere, FrontBody, AfterFrame;
    FrontIsFrame(s);
    FramesConcat(asked, FrontBody(s));
  }

  lemma TakesKeepsStream(p: Peer, h: ChildStep)
    requires StreamInv(p) && ChildNext(p, h).Some? && h.Takes?
    ensures StreamInv(ChildNext(p, h).value)
  {
    hide LegalAnswer, Frame, FrameHere, FrontBody, AfterFrame, AllLegal, AllAnswers, AllBounded, StopHere, HELLO,
      Frames;
    HelloIsLegal();
    LegalAnswerIsShort(HELLO);
    LegalAnswerIsShort(h.answer);
    AnswerIsLogged(p.answers, h.answer);
    RequestIsLogged(p.asked, p.toChild);
    assert p.wrote == Frames(p.asked) + p.toChild;
    assert p.said == Frame(HELLO) + Frames(p.answers) + [] == Frame(HELLO) + Frames(p.answers);
    assert p.said + Frame(h.answer) == Frame(HELLO) + (Frames(p.answers) + Frame(h.answer));
  }

  lemma StopKeepsStream(p: Peer, h: ChildStep)
    requires StreamInv(p) && ChildNext(p, h).Some? && h.TakesStop?
    ensures StreamInv(ChildNext(p, h).value)
  {
    hide LegalAnswer, Frame, FrameHere, FrontBody, AfterFrame, AllLegal, AllAnswers, AllBounded, HELLO, Frames,
      HeaderValue, Header;
    HelloIsLegal();
    LegalAnswerIsShort(HELLO);
    HeaderIsInjective(p.toChild[..4]);
    StopIsHeader();
    assert Frames(p.asked) + [] + p.toChild == Frames(p.asked) + Frame([]) + p.toChild[4..];
    assert p.said == Frame(HELLO) + Frames(p.answers) + [];
  }

  lemma SaysKeepsStream(p: Peer, h: ChildStep)
    requires StreamInv(p) && ChildNext(p, h).Some? && h.Says?
    ensures StreamInv(ChildNext(p, h).value)
  {
    hide LegalAnswer, Frame, FrameHere, FrontBody, AfterFrame, AllLegal, AllAnswers, AllBounded, HELLO, Frames,
      HeaderValue, Header;
    HelloIsLegal();
    LegalAnswerIsShort(HELLO);
    hide StopPart, LogInv;
    assert p.outbox == p.outbox[..h.count] + p.outbox[h.count..];
  }

  lemma ChildKeepsStream(p: Peer, h: ChildStep)
    requires StreamInv(p) && ChildNext(p, h).Some?
    ensures StreamInv(ChildNext(p, h).value)
  {
    match h
    case Takes(_) =>
      hide StreamInv;
      TakesKeepsStream(p, h);
    case TakesStop =>
      hide StreamInv;
      StopKeepsStream(p, h);
    case Says(_) =>
      hide StreamInv;
      SaysKeepsStream(p, h);
    case Exits(_) => hide LogInv, Frame, Frames, HELLO;
  }

  lemma StopIsHeader()
    ensures Frame([]) == Header(0)
  {
  }

  lemma WorkerKeepsStream(s: Sys, w: WorkerStep)
    requires StreamInv(s.peer) && WorkerNext(s, w).Some?
    ensures StreamInv(WorkerNext(s, w).value.peer)
  {
    hide Frame, FrameText, BodyOf, Needed, AllLegal, AllAnswers, AllBounded, Frames, HeaderValue, Wanted;
    if w.Writes? {
      var p, now := s.peer, s.worker.left[..w.count];
      assert Frames(p.asked) + StopPart(p) + p.toChild + now == Frames(p.asked) + StopPart(p) + (p.toChild + now);
    }
  }

  lemma FirstWords(p: Peer)
    requires StreamInv(p) && p.life.NotStarted? && |HELLO| < 0x1_0000_0000
    ensures StreamInv(p.(life := Alive, outbox := Frame(HELLO)))
  {
    hide Frame, HELLO;
    assert [] + Frame(HELLO) == Frame(HELLO) + Frames([]) + [];
  }

  lemma LaunchKeepsStream(s: Sys, l: LaunchStep)
    requires StreamInv(s.peer) && (Unborn(s.worker) ==> s.peer.life.NotStarted?) && LaunchNext(s, l).Some?
    ensures StreamInv(LaunchNext(s, l).value.peer)
  {
    hide StreamInv, Frame, FrameText, Needed, DecodeText;
    if l.LauncherStarts? { FirstWords(s.peer); }
  }

  lemma StreamHasLogs(p: Peer)
    requires StreamInv(p)
    ensures LogInv(p)
  {
  }

  // ---------------------------------------------------------------- all of it, over every run

  ghost predicate Inv(s: Sys) {
    CoreInv(s) && PairingInv(s) && StreamInv(s.peer)
  }

  lemma InitialInv()
    ensures Inv(INITIAL)
  {
  }

  lemma CallerKeepsExchange(s: Sys, c: CallId, step: CallerStep)
    requires CoreInv(s) && CallerNext(s, c, step).Some?
    ensures ExchangeInv(CallerNext(s, c, step).value)
  {
    hide CoreInv, CallerNext, ExchangeInv;
    match step
    case Calls(_) => ArrivingKeepsExchange(s, c, step);
    case Expires => ArrivingKeepsExchange(s, c, step);
    case Looks => LookingKeepsExchange(s, c, step);
    case Contends => ContendingKeepsExchange(s, c, step);
    case Checks => AdmittedKeepsExchange(s, c, step);
    case Encodes => AdmittedKeepsExchange(s, c, step);
    case Submits => SubmittingKeepsExchange(s, c, step);
    case Returns => ReturningKeepsExchange(s, c, step);
    case Fails => ReturningKeepsExchange(s, c, step);
    case Retires => RetiringKeepsExchange(s, c, step);
    case Releases => ReleasingKeepsExchange(s, c, step);
  }

  lemma WorkerKeepsExchange(s: Sys, w: WorkerStep)
    requires CoreInv(s) && WorkerNext(s, w).Some?
    ensures ExchangeInv(WorkerNext(s, w).value) && TransportInv(WorkerNext(s, w).value)
  {
    hide CoreInv, WorkerNext, ExchangeInv, TransportInv;
    match w
    case Begins => BeginsKeepsExchange(s, w); BeginsKeepsTransport(s, w);
    case Writes(_) => MovesKeepsExchange(s, w); WritesKeepsTransport(s, w);
    case Reads(_) => MovesKeepsExchange(s, w); ReadsKeepsTransport(s, w);
    case Answered => AnsweredKeepsExchange(s, w); EndsKeepsTransport(s, w);
    case Acks => AcksKeepsExchange(s, w); EndsKeepsTransport(s, w);
    case SeesExit => SeesExitKeepsExchange(s, w); EndsKeepsTransport(s, w);
    case Winds => EndsKeepsExchange(s, w); EndsKeepsTransport(s, w);
    case Breaks => EndsKeepsExchange(s, w); EndsKeepsTransport(s, w);
  }

  lemma StepKeepsExchange(s: Sys, a: Action)
    requires CoreInv(s) && Step(s, a).Some?
    ensures ExchangeInv(Step(s, a).value) && TransportInv(Step(s, a).value)
  {
    hide BuilderNext, LaunchNext, CallerNext, WorkerNext, ReaperNext, ChildNext, CoreInv, ExchangeInv, TransportInv;
    match a
    case OfBuilder(b) => BuilderKeepsExchange(s, b); BuilderKeepsTransport(s, b);
    case OfLaunch(l) => LaunchKeepsExchange(s, l); LaunchKeepsTransport(s, l);
    case OfCaller(c, step) => CallerKeepsExchange(s, c, step); CallerKeepsTransport(s, c, step);
    case OfWorker(w) => WorkerKeepsExchange(s, w);
    case OfReaper(r) => ReaperKeepsExchange(s, r); ReaperKeepsTransport(s, r);
    case OfChild(h) => ChildKeepsExchange(s, h); ChildKeepsTransport(s, h);
  }

  lemma StepKeepsPairing(s: Sys, a: Action)
    requires CoreInv(s) && PairingInv(s) && Step(s, a).Some?
    ensures PairingInv(Step(s, a).value)
  {
    hide BuilderNext, LaunchNext, CallerNext, WorkerNext, ReaperNext, ChildNext, CoreInv, PairingInv;
    match a
    case OfBuilder(b) => BuilderKeepsPairing(s, b);
    case OfLaunch(l) => LaunchKeepsPairing(s, l);
    case OfCaller(c, step) => CallerKeepsPairing(s, c, step);
    case OfWorker(w) => WorkerKeepsPairing(s, w);
    case OfReaper(r) => ReaperKeepsPairing(s, r);
    case OfChild(h) => ChildKeepsPairing(s, h);
  }

  lemma BuilderLeavesPeer(s: Sys, b: BuilderStep)
    requires BuilderNext(s, b).Some?
    ensures BuilderNext(s, b).value.peer == s.peer
  {
  }

  lemma ReaperLeavesPeer(s: Sys, r: ReaperStep)
    requires ReaperNext(s, r).Some?
    ensures ReaperNext(s, r).value.peer == s.peer
  {
  }

  lemma StepKeepsStream(s: Sys, a: Action)
    requires LifeInv(s) && StreamInv(s.peer) && Step(s, a).Some?
    ensures StreamInv(Step(s, a).value.peer)
  {
    hide BuilderNext, LaunchNext, CallerNext, WorkerNext, ReaperNext, ChildNext, StreamInv;
    match a
    case OfBuilder(b) => BuilderLeavesPeer(s, b);
    case OfLaunch(l) => LaunchKeepsStream(s, l);
    case OfCaller(c, step) => CallerFrame(s, c, step);
    case OfWorker(w) => WorkerKeepsStream(s, w);
    case OfReaper(r) => ReaperLeavesPeer(s, r);
    case OfChild(h) => ChildKeepsStream(s.peer, h);
  }

  lemma StepKeepsLogs(s: Sys, a: Action)
    requires Inv(s) && Step(s, a).Some?
    ensures PairingInv(Step(s, a).value) && StreamInv(Step(s, a).value.peer)
  {
    hide Step, AdmissionInv, LifeInv, RetirementInv, ExchangeInv, TransportInv, PairingInv, StreamInv, LogInv;
    StepKeepsPairing(s, a);
    StepKeepsStream(s, a);
  }

  lemma StepInv(s: Sys, a: Action)
    requires Inv(s) && Step(s, a).Some?
    ensures Inv(Step(s, a).value)
  {
    hide Step, AdmissionInv, LifeInv, RetirementInv, ExchangeInv, TransportInv, PairingInv, StreamInv, LogInv;
    AdmissionStep(s, a);
    LifeStep(s, a);
    StepKeepsExchange(s, a);
    StepKeepsLogs(s, a);
    StreamHasLogs(Step(s, a).value.peer);
  }

  lemma {:induction false} RunInv(s: Sys, run: seq<Action>)
    requires Inv(s) && Legal(s, run)
    ensures Inv(After(s, run))
    decreases run
  {
    hide Inv, Step;
    if run != [] {
      StepInv(s, run[0]);
      RunInv(Step(s, run[0]).value, run[1..]);
    }
  }
}
