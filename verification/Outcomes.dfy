/** What the refusals of OwnedEclProcess mean: a call that is turned away, a text that cannot be sent, a launch that
    comes too late. */
module Outcomes {
  import opened Options
  import opened Pipes
  import opened ClientText
  import opened OwnedProcess
  import opened Protocol
  import opened ProtocolInvariant
  import opened Guarantees

  // ---------------------------------------------------------------- texts that cannot be sent

  predicate EndsUnsendable(pc: Pc) {
    pc == Releasing(Outcome.Unsendable) || pc == Done(Outcome.Unsendable)
  }

  /** Only what may be sent gets to the exchange, and only what may not be sent is called unsendable. */
  predicate Sorted(caller: Caller) {
    && (caller.pc == Ready || caller.pc == Waiting || caller.pc == Failing ==> MaySend(caller.op))
    && (EndsUnsendable(caller.pc) ==> !MaySend(caller.op))
    && (caller.pc.Releasing? && caller.pc.outcome.Returned? ==> MaySend(caller.op))
    && (caller.pc.Done? && caller.pc.outcome.Returned? ==> MaySend(caller.op))
  }

  predicate AllSorted(s: Sys) {
    forall c :: c in s.callers ==> Sorted(s.callers[c])
  }

  lemma SeekerStaysSorted(s: Sys, c: CallId, step: CallerStep)
    requires c in s.callers && Sorted(s.callers[c]) && AdmissionNext(s, c, step).Some?
    ensures Sorted(AdmissionNext(s, c, step).value.callers[c])
  {
    hide MaySend;
  }

  lemma HolderStaysSorted(s: Sys, c: CallId, step: CallerStep)
    requires c in s.callers && Sorted(s.callers[c]) && ExchangeNext(s, c, step).Some?
    ensures Sorted(ExchangeNext(s, c, step).value.callers[c])
  {
    hide MaySend;
  }

  lemma CallerStaysSorted(s: Sys, c: CallId, step: CallerStep)
    requires AllSorted(s) && CallerNext(s, c, step).Some?
    ensures AllSorted(CallerNext(s, c, step).value)
  {
    hide Sorted, AdmissionNext, ExchangeNext;
    CallerMovesAlone(s, c, step);
    match step
    case Calls(op) => NewIsSorted(op);
    case Expires =>
    case _ => if SeeksAdmission(step) { SeekerStaysSorted(s, c, step); } else { HolderStaysSorted(s, c, step); }
  }

  lemma NewIsSorted(op: Op)
    ensures Sorted(Caller(op, Calling)) && Sorted(Caller(op, Contending))
  {
  }

  lemma SortedStep(s: Sys, a: Action)
    requires AllSorted(s) && Step(s, a).Some?
    ensures AllSorted(Step(s, a).value)
  {
    hide BuilderNext, LaunchNext, CallerNext, WorkerNext, ReaperNext, ChildNext, Sorted;
    match a
    case OfBuilder(b) => BuilderLeavesCallers(s, b);
    case OfLaunch(l) => LaunchLeavesCallers(s, l);
    case OfCaller(c, step) => CallerStaysSorted(s, c, step);
    case OfWorker(w) => WorkerFrame(s, w);
    case OfReaper(r) => ReaperLeavesCallers(s, r);
    case OfChild(h) =>
  }

  lemma {:induction false} SortedRun(s: Sys, run: seq<Action>)
    requires AllSorted(s) && Legal(s, run)
    ensures AllSorted(After(s, run))
    decreases run
  {
    hide AllSorted, Step;
    if run != [] {
      SortedStep(s, run[0]);
      SortedRun(Step(s, run[0]).value, run[1..]);
    }
  }

  /** A call that ends as unsendable was given a text that cannot be sent, and nothing of it has been sent; a call that
      ends with an answer was given one that can. */
  lemma UnsendableIsTrue(run: seq<Action>, c: CallId)
    requires Legal(INITIAL, run) && c in After(INITIAL, run).callers
    ensures var s := After(INITIAL, run);
      && (EndsUnsendable(s.callers[c].pc) ==>
            s.callers[c].op.Request? && !MayBeSent(s.callers[c].op.text) && !Pending(s, c) && c !in s.served)
      && (s.callers[c].pc.Done? && s.callers[c].pc.outcome.Returned? ==> MaySend(s.callers[c].op))
  {
    var s := After(INITIAL, run);
    assert AllSorted(INITIAL);
    hide Legal, After, AdmissionInv, LifeInv, RetirementInv, TransportInv, StreamInv, HolderInv;
    SortedRun(INITIAL, run);
    Reachable(run);
    assert Sorted(s.callers[c]);
    assert c in s.served ==> ServedRight(s, c);
    PeerLogs(s.peer);
    if c in s.served { LegalIsNotEmpty(s.peer.asked[s.served[c]]); }
  }

  // ---------------------------------------------------------------- calls that are turned away

  predicate TurnedAway(s: Sys, c: CallId) {
    && c in s.callers
    && (s.callers[c].pc == Done(Outcome.Refused) || s.callers[c].pc == Releasing(Outcome.Refused))
  }

  /** A call is turned away only while another call is under way, or once the client is closed. */
  lemma RefusalIsTrue(run: seq<Action>, a: Action, c: CallId)
    requires Legal(INITIAL, run) && Step(After(INITIAL, run), a).Some?
    requires !TurnedAway(After(INITIAL, run), c) && TurnedAway(Step(After(INITIAL, run), a).value, c)
    ensures var s := After(INITIAL, run);
      s.own.closed || (s.holder.Some? && s.holder != Some(c) && s.own.admitted)
  {
    hide Legal, After, BuilderNext, LaunchNext, WorkerNext, ReaperNext, ChildNext, LifeInv, RetirementInv,
      ExchangeInv, TransportInv, PairingInv, StreamInv;
    Reachable(run);
    var s := After(INITIAL, run);
    match a
    case OfBuilder(b) => BuilderLeavesCallers(s, b);
    case OfLaunch(l) => LaunchLeavesCallers(s, l);
    case OfCaller(d, step) => RefusedByState(s, d, step, c);
    case OfWorker(w) => WorkerFrame(s, w);
    case OfReaper(r) => ReaperLeavesCallers(s, r);
    case OfChild(h) =>
  }

  lemma RefusedByState(s: Sys, d: CallId, step: CallerStep, c: CallId)
    requires AdmissionInv(s) && CallerNext(s, d, step).Some?
    requires !TurnedAway(s, c) && TurnedAway(CallerNext(s, d, step).value, c)
    ensures s.own.closed || (s.holder.Some? && s.holder != Some(c) && s.own.admitted)
  {
    hide MaySend;
    CallerMovesAlone(s, d, step);
  }

  // ---------------------------------------------------------------- launches that come too late

  /** The launch has been given up before it started anything. */
  predicate Abandoned(s: Sys) {
    && s.peer.life.NotStarted?
    && (|| (s.worker == LaunchQueued && (s.own.closed || s.late))
        || s.worker == LaunchEnding(false) || s.worker == LaunchEnded(false)
        || (s.worker == Idle && s.launched == Some(false)))
  }

  lemma AbandonedByLaunch(s: Sys, l: LaunchStep)
    requires Abandoned(s) && LaunchNext(s, l).Some?
    ensures Abandoned(LaunchNext(s, l).value)
  {
    hide Frame, FrameText, Needed, DecodeText;
  }

  lemma AbandonedByBuilder(s: Sys, b: BuilderStep)
    requires Abandoned(s) && LifeInv(s) && BuilderNext(s, b).Some?
    ensures Abandoned(BuilderNext(s, b).value)
  {
  }

  lemma AbandonedByWorker(s: Sys, w: WorkerStep)
    requires Abandoned(s) && Inv(s)
    ensures WorkerNext(s, w).None?
  {
    hide Frame, FrameText, Needed, DecodeText, ExchangeInv, TransportInv, PairingInv, StreamInv, RetirementInv;
  }

  lemma AbandonedStep(s: Sys, a: Action)
    requires Inv(s) && Abandoned(s) && Step(s, a).Some?
    ensures Abandoned(Step(s, a).value)
  {
    hide BuilderNext, LaunchNext, CallerNext, WorkerNext, ReaperNext, ChildNext, AdmissionInv, ExchangeInv,
      TransportInv, PairingInv, StreamInv, RetirementInv;
    match a
    case OfBuilder(b) => AbandonedByBuilder(s, b);
    case OfLaunch(l) => AbandonedByLaunch(s, l);
    case OfCaller(c, step) =>
      CallerFrame(s, c, step);
      CallerLeavesLate(s, c, step);
      if step.Retires? { CallerRetires(s, c, step); } else { CallerFields(s, c, step); }
    case OfWorker(w) => AbandonedByWorker(s, w);
    case OfReaper(r) => AbandonedByReaper(s, r);
    case OfChild(h) => DeadChildIsQuiet(s.peer, h);
  }

  lemma CallerLeavesLate(s: Sys, c: CallId, step: CallerStep)
    requires CallerNext(s, c, step).Some?
    ensures CallerNext(s, c, step).value.late == s.late
  {
    hide MaySend;
  }

  lemma AbandonedByReaper(s: Sys, r: ReaperStep)
    requires Abandoned(s) && ReaperNext(s, r).Some?
    ensures Abandoned(ReaperNext(s, r).value)
  {
  }

  lemma {:induction false} AbandonedForever(s: Sys, run: seq<Action>)
    requires Inv(s) && Abandoned(s) && Legal(s, run)
    ensures Abandoned(After(s, run))
    decreases run
  {
    hide Inv, Step, Abandoned;
    if run != [] {
      StepInv(s, run[0]);
      AbandonedStep(s, run[0]);
      AbandonedForever(Step(s, run[0]).value, run[1..]);
    }
  }

  /** A launch that is still queued when its deadline is over, or when the client has been closed, never starts a
      child. */
  lemma LateLaunchStartsNothing(before: seq<Action>, after: seq<Action>)
    requires Legal(INITIAL, before) && Legal(After(INITIAL, before), after)
    requires var s := After(INITIAL, before); s.worker == LaunchQueued && (s.late || s.own.closed)
    ensures var t := After(After(INITIAL, before), after);
      t.peer.life == NotStarted && !t.own.hasChild && t.builder != Built
  {
    hide Legal, After, AdmissionInv, RetirementInv, ExchangeInv, TransportInv, PairingInv, StreamInv;
    Reachable(before);
    var s := After(INITIAL, before);
    AbandonedForever(s, after);
    RunInv(s, after);
  }

  /** The client was closed before the launch got to the pipes. */
  predicate Doomed(s: Sys) {
    && s.own.closed
    && (|| Unborn(s.worker) || s.worker.Spawned? || s.worker.Published?
        || s.worker == LaunchEnding(false) || s.worker == LaunchEnded(false)
        || s.launched == Some(false))
  }

  lemma DoomedByLaunch(s: Sys, l: LaunchStep)
    requires Doomed(s) && LifeInv(s) && LaunchNext(s, l).Some?
    ensures Doomed(LaunchNext(s, l).value)
  {
    hide Frame, FrameText, Needed, DecodeText;
  }

  lemma DoomedByBuilder(s: Sys, b: BuilderStep)
    requires Doomed(s) && LifeInv(s) && BuilderNext(s, b).Some?
    ensures Doomed(BuilderNext(s, b).value)
  {
  }

  lemma DoomedByReaper(s: Sys, r: ReaperStep)
    requires Doomed(s) && ReaperNext(s, r).Some?
    ensures Doomed(ReaperNext(s, r).value)
  {
  }

  lemma WorkerNeedsLaunch(s: Sys, w: WorkerStep)
    requires WorkerNext(s, w).Some?
    ensures s.worker == Idle || s.worker == Greeting || TaskOf(s.worker).Some?
  {
    hide Frame, FrameText, Needed, DecodeText, BodyOf, HeaderValue;
  }

  lemma DoomedStep(s: Sys, a: Action)
    requires Inv(s) && Doomed(s) && Step(s, a).Some?
    ensures Doomed(Step(s, a).value)
  {
    hide BuilderNext, LaunchNext, CallerNext, WorkerNext, ReaperNext, ChildNext, AdmissionInv, ExchangeInv,
      TransportInv, PairingInv, StreamInv, RetirementInv;
    ClosedStep(s, a, 0, []);
    match a
    case OfBuilder(b) => DoomedByBuilder(s, b);
    case OfLaunch(l) => DoomedByLaunch(s, l);
    case OfCaller(c, step) => CallerFrame(s, c, step);
    case OfWorker(w) =>
      WorkerFrame(s, w);
      WorkerNeedsLaunch(s, w);
    case OfReaper(r) => DoomedByReaper(s, r);
    case OfChild(h) =>
  }

  lemma {:induction false} DoomedForever(s: Sys, run: seq<Action>)
    requires Inv(s) && Doomed(s) && Legal(s, run)
    ensures Doomed(After(s, run))
    decreases run
  {
    hide Inv, Step, Doomed;
    if run != [] {
      StepInv(s, run[0]);
      DoomedStep(s, run[0]);
      DoomedForever(Step(s, run[0]).value, run[1..]);
    }
  }

  /** A launch that has not got to the pipes when the client is closed fails, also when it has started a child. */
  lemma ClosedLaunchFails(before: seq<Action>, after: seq<Action>)
    requires Legal(INITIAL, before) && Legal(After(INITIAL, before), after)
    requires var s := After(INITIAL, before);
      s.own.closed && (s.worker == LaunchQueued || s.worker == LaunchStarting || s.worker == Spawned ||
        s.worker == Published)
    ensures var t := After(After(INITIAL, before), after);
      t.launched != Some(true) && t.worker != Greeting
  {
    hide Legal, After, AdmissionInv, RetirementInv, ExchangeInv, TransportInv, PairingInv, StreamInv;
    Reachable(before);
    var s := After(INITIAL, before);
    DoomedForever(s, after);
    RunInv(s, after);
  }

  // ---------------------------------------------------------------- constructors that fail

  /** A constructor that was interrupted has started nothing, and one that gave up has closed the client. */
  predicate Retracted(s: Sys) {
    s.builder == Builder.Abandoned ==> s.own.closed || (s.worker == NoTask && s.own.ioShutdown)
  }

  lemma RetractedByBuilder(s: Sys, b: BuilderStep)
    requires Retracted(s) && LifeInv(s) && BuilderNext(s, b).Some?
    ensures Retracted(BuilderNext(s, b).value)
  {
  }

  lemma RetractedStep(s: Sys, a: Action)
    requires Inv(s) && Retracted(s) && Step(s, a).Some?
    ensures Retracted(Step(s, a).value)
  {
    hide BuilderNext, LaunchNext, CallerNext, WorkerNext, ReaperNext, ChildNext, AdmissionInv, ExchangeInv,
      TransportInv, PairingInv, StreamInv, RetirementInv, LifeInv;
    if s.own.closed { ClosedStep(s, a, 0, []); }
    match a
    case OfBuilder(b) => RetractedByBuilder(s, b);
    case OfLaunch(l) =>
      LaunchNeedsTask(s, l);
      LaunchFields(s, l);
      LaunchLeavesBuilder(s, l);
    case OfCaller(c, step) =>
      CallerFrame(s, c, step);
      if step.Retires? { CallerRetires(s, c, step); } else { CallerFields(s, c, step); }
    case OfWorker(w) =>
      WorkerFrame(s, w);
      WorkerNeedsLaunch(s, w);
    case OfReaper(r) =>
      ReaperFields(s, r);
      ReaperLeavesBuilder(s, r);
    case OfChild(h) =>
  }

  lemma LaunchNeedsTask(s: Sys, l: LaunchStep)
    requires LaunchNext(s, l).Some?
    ensures s.worker != NoTask
  {
    hide Frame, FrameText, Needed, DecodeText;
  }

  lemma LaunchLeavesBuilder(s: Sys, l: LaunchStep)
    requires LaunchNext(s, l).Some?
    ensures LaunchNext(s, l).value.builder == s.builder
  {
    hide Frame, FrameText, Needed, DecodeText;
  }

  lemma ReaperLeavesBuilder(s: Sys, r: ReaperStep)
    requires ReaperNext(s, r).Some?
    ensures ReaperNext(s, r).value.builder == s.builder && ReaperNext(s, r).value.worker == s.worker
  {
  }

  lemma {:induction false} RetractedForever(s: Sys, run: seq<Action>)
    requires Inv(s) && Retracted(s) && Legal(s, run)
    ensures Retracted(After(s, run))
    decreases run
  {
    hide Inv, Step, Retracted;
    if run != [] {
      StepInv(s, run[0]);
      RetractedStep(s, run[0]);
      RetractedForever(Step(s, run[0]).value, run[1..]);
    }
  }

  /** When the constructor has thrown, the client is closed and its child is being retired, or nothing was ever started
      and the worker is shut down. */
  lemma FailedStartRetires(run: seq<Action>)
    requires Legal(INITIAL, run) && After(INITIAL, run).builder == Builder.Abandoned
    ensures var s := After(INITIAL, run);
      || (s.own.closed && s.own.reaperStarted)
      || (s.worker == NoTask && s.own.ioShutdown && s.peer.life == NotStarted)
  {
    InitialInv();
    assert Retracted(INITIAL);
    hide Legal, After, AdmissionInv, ExchangeInv, TransportInv, PairingInv, StreamInv;
    RetractedForever(INITIAL, run);
    Reachable(run);
    BuiltBeforeStopped(run);
  }

  /** Only a client that was built can be stopped in order. */
  lemma BuiltBeforeStopped(run: seq<Action>)
    requires Legal(INITIAL, run) && After(INITIAL, run).builder == Builder.Abandoned
    ensures !After(INITIAL, run).own.gracefulClosed
  {
    InitialInv();
    hide Legal, After, Inv;
    NeverStoppedForever(INITIAL, run);
  }

  predicate NeverStopped(s: Sys) {
    s.builder != Built ==> !s.own.gracefulClosed
  }

  lemma NeverStoppedStep(s: Sys, a: Action)
    requires Inv(s) && NeverStopped(s) && Step(s, a).Some?
    ensures NeverStopped(Step(s, a).value)
  {
    hide BuilderNext, LaunchNext, CallerNext, WorkerNext, ReaperNext, ChildNext, AdmissionInv, ExchangeInv,
      TransportInv, PairingInv, StreamInv, RetirementInv;
    match a
    case OfBuilder(b) =>
      BuilderFields(s, b);
      BuilderLeavesCallers(s, b);
    case OfLaunch(l) =>
      LaunchFields(s, l);
      LaunchLeavesBuilder(s, l);
    case OfCaller(c, step) =>
      CallerFrame(s, c, step);
      if step.Retires? { CallerRetires(s, c, step); } else { CallerFields(s, c, step); }
    case OfWorker(w) =>
      WorkerFrame(s, w);
      if TaskOf(s.worker).None? { StopNeedsTask(s, w); }
    case OfReaper(r) =>
      ReaperFields(s, r);
      ReaperLeavesBuilder(s, r);
    case OfChild(h) =>
  }

  lemma StopNeedsTask(s: Sys, w: WorkerStep)
    requires WorkerNext(s, w).Some? && TaskOf(s.worker).None?
    ensures WorkerNext(s, w).value.own == s.own
  {
    hide Frame, FrameText, Needed, DecodeText, BodyOf, HeaderValue;
  }

  lemma {:induction false} NeverStoppedForever(s: Sys, run: seq<Action>)
    requires Inv(s) && NeverStopped(s) && Legal(s, run)
    ensures NeverStopped(After(s, run))
    decreases run
  {
    hide Inv, Step, NeverStopped;
    if run != [] {
      StepInv(s, run[0]);
      NeverStoppedStep(s, run[0]);
      NeverStoppedForever(Step(s, run[0]).value, run[1..]);
    }
  }

  // ---------------------------------------------------------------- stopping once more

  /** A close that has begun on a client that was stopped in order. */
  predicate StopsAgain(s: Sys, c: CallId) {
    && s.own.gracefulClosed && c in s.callers
    && (s.callers[c] == Caller(Op.Close, Calling) || s.callers[c] == Caller(Op.Close, Done(Stopped)))
  }

  lemma StopsAgainStep(s: Sys, a: Action, c: CallId)
    requires Inv(s) && StopsAgain(s, c) && Step(s, a).Some?
    ensures StopsAgain(Step(s, a).value, c)
  {
    hide BuilderNext, LaunchNext, CallerNext, WorkerNext, ReaperNext, ChildNext, AdmissionInv, ExchangeInv, LifeInv,
      TransportInv, PairingInv, StreamInv, RetirementInv;
    match a
    case OfBuilder(b) =>
      BuilderFields(s, b);
      BuilderLeavesCallers(s, b);
    case OfLaunch(l) =>
      LaunchFields(s, l);
      LaunchLeavesCallers(s, l);
    case OfCaller(d, step) => StopsAgainByCaller(s, d, step, c);
    case OfWorker(w) =>
      WorkerFrame(s, w);
      WorkerOnlyCloses(s, w);
    case OfReaper(r) =>
      ReaperFields(s, r);
      ReaperLeavesCallers(s, r);
    case OfChild(h) =>
  }

  lemma StopsAgainByCaller(s: Sys, d: CallId, step: CallerStep, c: CallId)
    requires StopsAgain(s, c) && CallerNext(s, d, step).Some?
    ensures StopsAgain(CallerNext(s, d, step).value, c)
  {
    CallersStay(s, d, step);
    CallerMovesAlone(s, d, step);
    if step.Retires? { CallerRetires(s, d, step); } else { CallerFields(s, d, step); }
    if d == c { LooksAtStopped(s, c, step); }
  }

  lemma LooksAtStopped(s: Sys, c: CallId, step: CallerStep)
    requires StopsAgain(s, c) && CallerNext(s, c, step).Some?
    ensures var t := CallerNext(s, c, step).value;
      c in t.callers && (t.callers[c] == s.callers[c] || t.callers[c] == Caller(Op.Close, Done(Stopped)))
  {
    hide MaySend;
  }

  lemma {:induction false} StopsAgainForever(s: Sys, run: seq<Action>, c: CallId)
    requires Inv(s) && StopsAgain(s, c) && Legal(s, run)
    ensures StopsAgain(After(s, run), c)
    decreases run
  {
    hide Inv, Step, StopsAgain;
    if run != [] {
      StepInv(s, run[0]);
      StopsAgainStep(s, run[0], c);
      StopsAgainForever(Step(s, run[0]).value, run[1..], c);
    }
  }

  /** A close of a client that was stopped in order ends normally, without an admission, whatever else goes on. */
  lemma StopAgainSucceeds(before: seq<Action>, after: seq<Action>, c: CallId)
    requires Legal(INITIAL, before) && Legal(After(INITIAL, before), after)
    requires var s := After(INITIAL, before);
      s.own.gracefulClosed && c in s.callers && s.callers[c] == Caller(Op.Close, Calling)
    ensures var t := After(After(INITIAL, before), after);
      c in t.callers && (t.callers[c].pc == Calling || t.callers[c].pc == Done(Stopped))
  {
    hide Legal, After, Inv;
    Reachable(before);
    StopsAgainForever(After(INITIAL, before), after, c);
  }
}
