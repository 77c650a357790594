/** OwnedEclProcess.java and starintel_ecl_runner.c together: the thread that constructs the client, any number of
    caller threads, the retained worker, the reaper and the child are interleaved step by step. Deadlines pass and
    threads are interrupted at any moment, transfers fail at any moment, the pipes cut the streams anywhere, and the
    child may exit with any code at any time. */
module Protocol {
  import opened Options
  import opened Utf8
  import opened Utf16
  import opened Response
  import opened Pipes
  import opened Framing
  import opened Runner
  import opened ClientText
  import opened OwnedProcess

  type CallId = nat

  /** request and close; a null request is None. */
  datatype Op = Request(text: Option<seq<uint16>>) | Close

  /** How a call ends: with an answer, with an orderly stop, without the admission, with text that cannot be sent,
      or with a failed exchange. */
  datatype Outcome = Returned(text: seq<uint16>) | Stopped | Refused | Unsendable | Threw

  /** Where a calling thread is. From Checking to Releasing it holds the admission. */
  datatype Pc = Calling | Contending | Checking | Admitted | Ready | Waiting | Failing | Releasing(outcome: Outcome)
    | Done(outcome: Outcome)

  datatype Caller = Caller(op: Op, pc: Pc)

  datatype Future = Answer(text: seq<uint16>) | Acknowledged | Failed

  /** The thread in the constructor. */
  datatype Builder = Constructing | AwaitingLaunch | GivingUp | Built | Abandoned

  /** The worker thread: first the launch, then one task after the other. */
  datatype Worker =
    | NoTask | LaunchQueued | LaunchStarting | Spawned | Published | Greeting | LaunchEnding(ok: bool)
      | LaunchEnded(ok: bool)
    | Idle | Sending(caller: CallId, left: seq<byte>) | Receiving(caller: CallId) | AwaitingExit(caller: CallId)
      | Winding(caller: CallId)

  datatype Reaper = Absent | Looking | Watching | Confirming | Closing | Gone

  datatype Life = NotStarted | Alive | Exited(code: int)

  /** The child and the pipes. `wrote` and `said` are all the bytes that ever went in and came out. */
  datatype Peer = Peer(
    life: Life, toChild: seq<byte>, outbox: seq<byte>, fromChild: seq<byte>, stopping: bool,
    asked: seq<seq<byte>>, answers: seq<seq<byte>>, wrote: seq<byte>, said: seq<byte>)

  datatype Sys = Sys(
    own: Fields,
    builder: Builder, late: bool, launched: Option<bool>,
    worker: Worker, inbox: seq<byte>, acked: bool, queue: seq<CallId>, futures: map<CallId, Future>,
    callers: map<CallId, Caller>, expired: set<CallId>, holder: Option<CallId>,
    served: map<CallId, nat>, // the exchanges that were answered, by their place among the requests the child got
    reaper: Reaper,
    peer: Peer)

  const INITIAL := Sys(FRESH, Constructing, false, None, NoTask, [], false, [], map[], map[], {}, None, map[], Absent,
                       Peer(NotStarted, [], [], [], false, [], [], [], []))

  datatype BuilderStep = Interrupted | Enqueues | RunsLate | Completes | GivesUp | Abandons
  datatype LaunchStep = LaunchChecks | LauncherThrows | LauncherStarts | Publishes | Connects | Greets | LaunchFails
    | LaunchFinishes | LaunchCompletes
  datatype CallerStep = Calls(op: Op) | Expires | Looks | Contends | Checks | Encodes | Submits | Returns | Fails
    | Retires | Releases
  datatype WorkerStep = Begins | Writes(count: nat) | Reads(count: nat) | Answered | Acks | SeesExit | Winds | Breaks
  datatype ReaperStep = LooksAtChild | SeesChildExit | Confirms | ShutsDown
  datatype ChildStep = Takes(answer: seq<byte>) | TakesStop | Says(count: nat) | Exits(code: int)

  datatype Action =
    | OfBuilder(b: BuilderStep) | OfLaunch(l: LaunchStep) | OfCaller(c: CallId, step: CallerStep)
    | OfWorker(w: WorkerStep) | OfReaper(r: ReaperStep) | OfChild(h: ChildStep)

  // ---------------------------------------------------------------- the steps; None when a step is not possible

  function Retiring(s: Sys): Sys {
    s.(own := Retired(s.own), reaper := if s.own.reaperStarted then s.reaper else Looking)
  }

  function BuilderNext(s: Sys, b: BuilderStep): Option<Sys> {
    match b
    case Interrupted => if s.builder != Constructing then None
      else Some(s.(own := s.own.(ioShutdown := true), builder := Abandoned))
    case Enqueues => if s.builder != Constructing then None
      else Some(s.(worker := LaunchQueued, builder := AwaitingLaunch))
    case RunsLate => Some(s.(late := true))
    case Completes => if s.builder != AwaitingLaunch || s.launched != Some(true) then None
      else Some(s.(builder := Built))
    case GivesUp => if s.builder != AwaitingLaunch then None else Some(s.(builder := GivingUp))
    case Abandons => if s.builder != GivingUp then None else Some(Retiring(s).(builder := Abandoned))
  }

  /** How many bytes the worker still reads before it has a whole response, or an illegal length. */
  function Needed(inbox: seq<byte>): nat {
    if |inbox| < 4 then 4 - |inbox|
    else
      var n := HeaderValue(inbox[..4]);
      if 0 < n <= MAX_RESPONSE_BYTES && |inbox| < 4 + n then 4 + n - |inbox| else 0
  }

  /** readFrame, once the bytes are there. */
  function FrameText(inbox: seq<byte>): Option<seq<uint16>>
    requires Needed(inbox) == 0
  {
    if 0 < HeaderValue(inbox[..4]) <= MAX_RESPONSE_BYTES then DecodeText(inbox[4..]) else None
  }

  function LaunchNext(s: Sys, l: LaunchStep): Option<Sys> {
    match l
    case LaunchChecks => if s.worker != LaunchQueued then None
      else Some(s.(worker := if s.own.closed || s.late then LaunchEnding(false) else LaunchStarting))
    case LauncherThrows => if s.worker != LaunchStarting then None else Some(s.(worker := LaunchEnding(false)))
    case LauncherStarts => if s.worker != LaunchStarting then None
      else Some(s.(worker := Spawned, peer := s.peer.(life := Alive, outbox := Frame(HELLO))))
    case Publishes => if s.worker != Spawned then None
      else Some(s.(worker := Published, own := s.own.(hasChild := true)))
    case Connects => if s.worker != Published then None
      else Some(s.(worker := if s.own.closed then LaunchEnding(false) else Greeting))
    case Greets => if s.worker != Greeting || Needed(s.inbox) > 0 then None
      else Some(s.(worker := LaunchEnding(FrameText(s.inbox).Some? && FrameText(s.inbox) == DecodeText(HELLO)),
        inbox := []))
    case LaunchFails => if s.worker != Published && s.worker != Greeting then None
      else Some(s.(worker := LaunchEnding(false)))
    case LaunchFinishes => if !s.worker.LaunchEnding? then None
      else Some(s.(worker := LaunchEnded(s.worker.ok), own := s.own.(launchFinished := true)))
    case LaunchCompletes => if !s.worker.LaunchEnded? then None
      else Some(s.(worker := Idle, launched := Some(s.worker.ok)))
  }

  /** A stop may always be sent, a request when encode makes a body of it. */
  predicate MaySend(op: Op) {
    op.Close? || MayBeSent(op.text)
  }

  /** The body of the frame that is sent; a stop has none. */
  function BodyOf(op: Op): (body: seq<byte>)
    ensures |body| <= MAX_REQUEST
  {
    if op.Request? && MaySend(op) then EncodeText(op.text, MAX_REQUEST).value else []
  }

  function At(s: Sys, c: CallId, pc: Pc): Sys
    requires c in s.callers
  {
    s.(callers := s.callers[c := s.callers[c].(pc := pc)])
  }

  function Contended(s: Sys, c: CallId): Sys
    requires c in s.callers
  {
    if s.own.admitted then At(s, c, Done(Outcome.Refused))
    else At(s, c, Checking).(own := s.own.(admitted := true), holder := Some(c))
  }

  /** Interruption and a passed deadline are both failures here; RejectedExecutionException is not caught. */
  function Submitted(s: Sys, c: CallId): Sys
    requires c in s.callers
  {
    if s.own.ioShutdown then At(s, c, Releasing(Threw)) else At(s, c, Waiting).(queue := s.queue + [c])
  }

  /** The steps of a call up to the moment when it is ready to submit its task. */
  function AdmissionNext(s: Sys, c: CallId, step: CallerStep): Option<Sys>
    requires c in s.callers
  {
    var op, pc := s.callers[c].op, s.callers[c].pc;
    match step
    case Looks => if pc != Calling then None
      else Some(At(s, c, if s.own.gracefulClosed then Done(Stopped) else Contending))
    case Contends => if pc != Contending then None else Some(Contended(s, c))
    case Checks => if pc != Checking then None
      else Some(At(s, c, if s.own.closed then Releasing(Outcome.Refused) else Admitted))
    case Encodes => if pc != Admitted then None
      else Some(At(s, c, if MaySend(op) then Ready else Releasing(Outcome.Unsendable)))
    case _ => None
  }

  /** And from there on. */
  function ExchangeNext(s: Sys, c: CallId, step: CallerStep): Option<Sys>
    requires c in s.callers
  {
    var pc := s.callers[c].pc;
    match step
    case Submits => if pc != Ready || c in s.expired then None else Some(Submitted(s, c))
    case Returns => if pc != Waiting || c !in s.futures || s.futures[c].Failed? then None
      else Some(At(s, c, Releasing(if s.futures[c].Answer? then Returned(s.futures[c].text) else Stopped)))
    case Fails => if pc != Ready && pc != Waiting then None else Some(At(s, c, Failing))
    case Retires => if pc != Failing then None else Some(Retiring(At(s, c, Releasing(Threw))))
    case Releases => if !pc.Releasing? then None
      else Some(At(s, c, Done(pc.outcome)).(own := s.own.(admitted := false), holder := None))
    case _ => None
  }

  predicate SeeksAdmission(step: CallerStep) {
    step.Looks? || step.Contends? || step.Checks? || step.Encodes?
  }

  /** The next step of a call that has begun. */
  function CallNext(s: Sys, c: CallId, step: CallerStep): Option<Sys>
    requires c in s.callers
  {
    if SeeksAdmission(step) then AdmissionNext(s, c, step) else ExchangeNext(s, c, step)
  }

  function CallerNext(s: Sys, c: CallId, step: CallerStep): Option<Sys> {
    match step
    case Calls(op) => if s.builder != Built || c in s.callers then None
      else Some(s.(callers := s.callers[c := Caller(op, if op.Close? then Calling else Contending)]))
    case Expires => Some(s.(expired := s.expired + {c}))
    case _ => if c !in s.callers then None else CallNext(s, c, step)
  }

  function TaskOf(w: Worker): Option<CallId> {
    if w.Sending? || w.Receiving? || w.AwaitingExit? || w.Winding? then Some(w.caller) else None
  }

  predicate IsStop(s: Sys, c: CallId) {
    c in s.callers && s.callers[c].op.Close?
  }

  /** How many bytes the worker still reads: the acknowledgement of a stop is a bare length. */
  function Wanted(s: Sys): nat {
    if s.worker == Greeting then Needed(s.inbox)
    else if !s.worker.Receiving? then 0
    else if IsStop(s, s.worker.caller) then (if |s.inbox| < 4 then 4 - |s.inbox| else 0)
    else Needed(s.inbox)
  }

  function Ended(s: Sys, c: CallId, future: Future): Sys {
    s.(worker := Idle, futures := s.futures[c := future])
  }

  /** The place of the last request the child got. */
  function LastPlace(asked: seq<seq<byte>>): nat {
    if asked == [] then 0 else |asked| - 1
  }

  function ReadsAnswer(s: Sys, c: CallId, text: Option<seq<uint16>>): Sys {
    if text.None? then Ended(s, c, Failed)
    else Ended(s, c, Answer(text.value)).(inbox := [], served := s.served[c := LastPlace(s.peer.asked)])
  }

  function BeginsNext(s: Sys): Option<Sys> {
    if s.worker != Idle || s.queue == [] || s.queue[0] !in s.callers then None
    else
      var c, t := s.queue[0], s.(queue := s.queue[1..]);
      if s.own.closed || c in s.expired then Some(Ended(t, c, Failed))
      else Some(t.(worker := Sending(c, Frame(BodyOf(s.callers[c].op)))))
  }

  function WritesNext(s: Sys, k: nat): Option<Sys> {
    if !s.worker.Sending? || !(0 < k <= |s.worker.left|) then None
    else
      var now, left := s.worker.left[..k], s.worker.left[k..];
      Some(s.(worker := if left == [] then Receiving(s.worker.caller) else Sending(s.worker.caller, left),
              peer := s.peer.(toChild := s.peer.toChild + now, wrote := s.peer.wrote + now)))
  }

  function ReadsNext(s: Sys, k: nat): Option<Sys> {
    if !(0 < k <= |s.peer.fromChild|) || k > Wanted(s) then None
    else Some(s.(inbox := s.inbox + s.peer.fromChild[..k], peer := s.peer.(fromChild := s.peer.fromChild[k..])))
  }

  function AnsweredNext(s: Sys): Option<Sys> {
    if !s.worker.Receiving? || IsStop(s, s.worker.caller) || Needed(s.inbox) > 0 then None
    else Some(ReadsAnswer(s, s.worker.caller, FrameText(s.inbox)))
  }

  /** The task of a stop, from its acknowledgement to its end. */
  function StopNext(s: Sys, w: WorkerStep): Option<Sys> {
    match w
    case Acks => if !s.worker.Receiving? || !IsStop(s, s.worker.caller) || |s.inbox| != 4 then None
      else if HeaderValue(s.inbox) != 0 then Some(Ended(s, s.worker.caller, Failed))
      else Some(s.(worker := AwaitingExit(s.worker.caller), acked := true))
    case SeesExit => if !s.worker.AwaitingExit? || !s.peer.life.Exited? then None
      else if s.peer.life.code != 0 then Some(Ended(s, s.worker.caller, Failed))
      else Some(s.(worker := Winding(s.worker.caller), own := StoppedInOrder(s.own)))
    case Winds => if !s.worker.Winding? then None
      else Some(Ended(s, s.worker.caller, Acknowledged).(own := s.own.(ioShutdown := true)))
    case _ => None
  }

  function BreaksNext(s: Sys): Option<Sys> {
    if !s.worker.Sending? && !s.worker.Receiving? && !s.worker.AwaitingExit? then None
    else Some(Ended(s, s.worker.caller, Failed))
  }

  function WorkerNext(s: Sys, w: WorkerStep): Option<Sys> {
    match w
    case Begins => BeginsNext(s)
    case Writes(k) => WritesNext(s, k)
    case Reads(k) => ReadsNext(s, k)
    case Answered => AnsweredNext(s)
    case Breaks => BreaksNext(s)
    case _ => StopNext(s, w)
  }

  function ReaperNext(s: Sys, r: ReaperStep): Option<Sys> {
    match r
    case LooksAtChild => if s.reaper != Looking || (!s.own.hasChild && !s.own.launchFinished) then None
      else Some(s.(reaper := if s.own.hasChild then Watching else Confirming))
    case SeesChildExit => if s.reaper != Watching || !s.peer.life.Exited? then None else Some(s.(reaper := Confirming))
    case Confirms => if s.reaper != Confirming then None
      else Some(s.(reaper := Closing, own := s.own.(retirementConfirmed := true)))
    case ShutsDown => if s.reaper != Closing then None else Some(s.(reaper := Gone, own := s.own.(ioShutdown := true)))
  }

  /** The runner: it takes whole legal frames in turn, and what it says is first HELLO, then its answers. */
  function ChildNext(p: Peer, h: ChildStep): Option<Peer> {
    if p.life != Alive then None
    else
      match h
      case Takes(a) => if p.stopping || p.outbox != [] || !FrameHere(p.toChild) || !LegalAnswer(a) then None
        else Some(p.(toChild := AfterFrame(p.toChild), asked := p.asked + [FrontBody(p.toChild)],
          answers := p.answers + [a], outbox := Frame(a)))
      case TakesStop => if p.stopping || p.outbox != [] || !StopHere(p.toChild) then None
        else Some(p.(toChild := p.toChild[4..], stopping := true, outbox := Frame([])))
      case Says(k) => if !(0 < k <= |p.outbox|) then None
        else Some(p.(outbox := p.outbox[k..], fromChild := p.fromChild + p.outbox[..k], said := p.said + p.outbox[..k]))
      case Exits(code) => Some(p.(life := Exited(code)))
  }

  function Step(s: Sys, a: Action): Option<Sys> {
    match a
    case OfBuilder(b) => BuilderNext(s, b)
    case OfLaunch(l) => LaunchNext(s, l)
    case OfCaller(c, step) => CallerNext(s, c, step)
    case OfWorker(w) => WorkerNext(s, w)
    case OfReaper(r) => ReaperNext(s, r)
    case OfChild(h) => (match ChildNext(s.peer, h) case None => None case Some(p) => Some(s.(peer := p)))
  }

  // ---------------------------------------------------------------- runs

  /** Every step of the run is possible when its turn comes. */
  predicate Legal(s: Sys, run: seq<Action>)
    decreases run
  {
    run == [] || (Step(s, run[0]).Some? && Legal(Step(s, run[0]).value, run[1..]))
  }

  function After(s: Sys, run: seq<Action>): Sys
    requires Legal(s, run)
    decreases run
  {
    if run == [] then s else After(Step(s, run[0]).value, run[1..])
  }
}
