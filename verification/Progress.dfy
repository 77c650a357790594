/** What can always still happen: calls come to an end, retirement stays reachable, and an exchange that nothing
    disturbs brings the answer. */
module Progress {
  import opened Options
  import opened Utf8
  import opened Response
  import opened Pipes
  import opened Framing
  import opened Runner
  import opened ClientText
  import opened OwnedProcess
  import opened Protocol
  import opened ProtocolInvariant
  import opened Guarantees

  // ---------------------------------------------------------------- putting runs together

  lemma Prepend(s: Sys, a: Action, tail: seq<Action>) returns (run: seq<Action>)
    requires Step(s, a).Some? && Legal(Step(s, a).value, tail)
    ensures Legal(s, run) && After(s, run) == After(Step(s, a).value, tail) && run == [a] + tail
  {
    hide Step;
    run := [a] + tail;
    assert run[1..] == tail;
  }

  lemma {:induction false} Append(s: Sys, first: seq<Action>, second: seq<Action>)
    requires Legal(s, first) && Legal(After(s, first), second)
    ensures Legal(s, first + second) && After(s, first + second) == After(After(s, first), second)
    decreases first
  {
    hide Step;
    if first == [] {
      assert first + second == second;
    } else {
      assert (first + second)[1..] == first[1..] + second;
      Append(Step(s, first[0]).value, first[1..], second);
    }
  }

  // ---------------------------------------------------------------- calls

  function CallRank(pc: Pc): nat {
    match pc
    case Calling => 8
    case Contending => 7
    case Checking => 6
    case Admitted => 5
    case Ready => 4
    case Waiting => 3
    case Failing => 2
    case Releasing(_) => 1
    case Done(_) => 0
  }

  predicate IsOwnStep(a: Action, c: CallId) {
    a.OfCaller? && a.c == c && !a.step.Expires?
  }

  function OwnSteps(run: seq<Action>, c: CallId): nat {
    if run == [] then 0 else (if IsOwnStep(run[0], c) then 1 else 0) + OwnSteps(run[1..], c)
  }

  lemma SeekingLowers(s: Sys, c: CallId, step: CallerStep)
    requires c in s.callers && AdmissionNext(s, c, step).Some?
    ensures var t := AdmissionNext(s, c, step).value;
      c in t.callers && CallRank(t.callers[c].pc) < CallRank(s.callers[c].pc)
  {
    hide MaySend;
  }

  lemma ExchangingLowers(s: Sys, c: CallId, step: CallerStep)
    requires c in s.callers && ExchangeNext(s, c, step).Some?
    ensures var t := ExchangeNext(s, c, step).value;
      c in t.callers && CallRank(t.callers[c].pc) < CallRank(s.callers[c].pc)
  {
  }

  lemma OwnStepLowers(s: Sys, c: CallId, step: CallerStep)
    requires c in s.callers && CallerNext(s, c, step).Some?
    ensures c in CallerNext(s, c, step).value.callers
    ensures step.Expires? ==> CallerNext(s, c, step).value.callers == s.callers
    ensures !step.Expires? ==> CallRank(CallerNext(s, c, step).value.callers[c].pc) < CallRank(s.callers[c].pc)
  {
    hide AdmissionNext, ExchangeNext, CallRank;
    if !step.Expires? {
      if SeeksAdmission(step) { SeekingLowers(s, c, step); } else { ExchangingLowers(s, c, step); }
    }
  }

  lemma CallStep(s: Sys, a: Action, c: CallId)
    requires c in s.callers && Step(s, a).Some?
    ensures c in Step(s, a).value.callers
    ensures CallRank(Step(s, a).value.callers[c].pc) + (if IsOwnStep(a, c) then 1 else 0) <= CallRank(s.callers[c].pc)
  {
    hide BuilderNext, LaunchNext, CallerNext, WorkerNext, ReaperNext, ChildNext, CallRank;
    match a
    case OfBuilder(b) => BuilderLeavesCallers(s, b);
    case OfLaunch(l) => LaunchLeavesCallers(s, l);
    case OfCaller(d, step) =>
      CallersStay(s, d, step);
      if d == c { OwnStepLowers(s, c, step); } else { CallerMovesAlone(s, d, step); }
    case OfWorker(w) => WorkerFrame(s, w);
    case OfReaper(r) => ReaperLeavesCallers(s, r);
    case OfChild(h) =>
  }

  /** No call takes more steps than its rank, whatever the others do. */
  lemma {:induction false} CallsAreShort(s: Sys, run: seq<Action>, c: CallId)
    requires c in s.callers && Legal(s, run)
    ensures c in After(s, run).callers &&
      CallRank(After(s, run).callers[c].pc) + OwnSteps(run, c) <= CallRank(s.callers[c].pc)
    decreases run
  {
    hide Step, CallRank;
    if run != [] {
      CallStep(s, run[0], c);
      CallsAreShort(Step(s, run[0]).value, run[1..], c);
    }
  }

  /** And none of its steps waits for another thread once its time is over. */
  lemma CallCanMove(s: Sys, c: CallId) returns (step: CallerStep)
    requires c in s.callers && !s.callers[c].pc.Done? && c in s.expired
    ensures IsOwnStep(OfCaller(c, step), c) && Step(s, OfCaller(c, step)).Some?
  {
    hide BuilderNext, LaunchNext, WorkerNext, ReaperNext, ChildNext, MaySend;
    match s.callers[c].pc
    case Calling => step := Looks;
    case Contending => step := Contends;
    case Checking => step := Checks;
    case Admitted => step := Encodes;
    case Ready => step := Fails;
    case Waiting => step := Fails;
    case Failing => step := Retires;
    case Releasing(_) => step := Releases;
  }

  // ---------------------------------------------------------------- retirement

  lemma NothingHappens(s: Sys)
    ensures Legal(s, []) && After(s, []) == s
  {
  }

  lemma ConfirmingEnds(s: Sys) returns (run: seq<Action>)
    requires s.reaper == Confirming
    ensures Legal(s, run) && After(s, run).own.retirementConfirmed
  {
    hide Legal, After, BuilderNext, LaunchNext, CallerNext, WorkerNext, ChildNext;
    NothingHappens(ReaperNext(s, Confirms).value);
    run := Prepend(s, OfReaper(Confirms), []);
  }

  lemma WatchingEnds(s: Sys) returns (run: seq<Action>)
    requires s.reaper == Watching && s.peer.life.Exited?
    ensures Legal(s, run) && After(s, run).own.retirementConfirmed
  {
    hide Legal, After, BuilderNext, LaunchNext, CallerNext, WorkerNext, ChildNext;
    run := ConfirmingEnds(ReaperNext(s, SeesChildExit).value);
    run := Prepend(s, OfReaper(SeesChildExit), run);
  }

  /** The reaper ends as soon as there is nothing left to wait for. */
  lemma ReaperEnds(s: Sys) returns (run: seq<Action>)
    requires LifeInv(s) && RetirementInv(s) && s.own.reaperStarted && NoChildEver(s)
    ensures Legal(s, run) && After(s, run).own.retirementConfirmed
  {
    hide Legal, After, BuilderNext, LaunchNext, CallerNext, WorkerNext, ChildNext;
    match s.reaper
    case Looking =>
      var t := ReaperNext(s, LooksAtChild).value;
      if t.reaper == Watching { run := WatchingEnds(t); } else { run := ConfirmingEnds(t); }
      run := Prepend(s, OfReaper(LooksAtChild), run);
    case Watching => run := WatchingEnds(s);
    case Confirming => run := ConfirmingEnds(s);
    case _ =>
      run := [];
      NothingHappens(s);
  }

  /** Steps the reaper still has to take before it confirms. */
  function ReaperRank(r: Reaper): nat {
    match r case Looking => 3 case Watching => 2 case Confirming => 1 case _ => 0
  }

  function ReaperSteps(run: seq<Action>): nat {
    if run == [] then 0 else (if run[0].OfReaper? then 1 else 0) + ReaperSteps(run[1..])
  }

  /** The reaper was started, and there is nothing left for it to wait for. */
  predicate NothingToWaitFor(s: Sys) {
    s.own.reaperStarted && NoChildEver(s)
  }

  lemma ReaperAdvances(s: Sys, r: ReaperStep)
    requires ReaperNext(s, r).Some?
    ensures var rank, after := ReaperRank(s.reaper), ReaperRank(ReaperNext(s, r).value.reaper);
      if rank > 0 then after < rank else after == 0
  {
  }

  /** While it has not confirmed, it has a step to take. */
  lemma ReaperCanMove(s: Sys) returns (r: ReaperStep)
    requires LifeInv(s) && RetirementInv(s) && NothingToWaitFor(s) && ReaperRank(s.reaper) > 0
    ensures ReaperNext(s, r).Some?
  {
    r := match s.reaper case Looking => LooksAtChild case Watching => SeesChildExit case _ => Confirms;
  }

  // Nobody else moves a reaper that was started.

  predicate SameReaper(s: Sys, t: Sys) {
    t.own.reaperStarted == s.own.reaperStarted && t.reaper == s.reaper
  }

  lemma BuilderLeavesReaper(s: Sys, b: BuilderStep)
    requires BuilderNext(s, b).Some? && s.own.reaperStarted
    ensures SameReaper(s, BuilderNext(s, b).value)
  {
  }

  lemma LaunchLeavesReaper(s: Sys, l: LaunchStep)
    requires LaunchNext(s, l).Some?
    ensures SameReaper(s, LaunchNext(s, l).value)
  {
    hide Frame, FrameText, Needed, DecodeText;
  }

  lemma CallerLeavesReaper(s: Sys, c: CallId, step: CallerStep)
    requires CallerNext(s, c, step).Some? && s.own.reaperStarted
    ensures SameReaper(s, CallerNext(s, c, step).value)
  {
    hide CallerNext;
    if step.Retires? { CallerRetires(s, c, step); } else { CallerFields(s, c, step); }
  }

  lemma WaitingStep(s: Sys, a: Action)
    requires Inv(s) && NothingToWaitFor(s) && Step(s, a).Some?
    ensures var t := Step(s, a).value;
      && NothingToWaitFor(t)
      && (if a.OfReaper? && ReaperRank(s.reaper) > 0 then ReaperRank(t.reaper) < ReaperRank(s.reaper)
          else ReaperRank(t.reaper) == ReaperRank(s.reaper))
  {
    hide BuilderNext, LaunchNext, CallerNext, WorkerNext, ReaperNext, ChildNext, AdmissionInv, ExchangeInv,
    TransportInv,
      PairingInv, StreamInv, ReaperRank;
    StepInv(s, a);
    NoChildStep(s, a);
    match a
    case OfBuilder(b) => BuilderLeavesReaper(s, b);
    case OfLaunch(l) => LaunchLeavesReaper(s, l);
    case OfCaller(c, step) => CallerLeavesReaper(s, c, step);
    case OfWorker(w) => WorkerFields(s, w);
    case OfReaper(r) => ReaperAdvances(s, r); ReaperFields(s, r);
    case OfChild(h) =>
  }

  /** Three steps of the reaper confirm the retirement, however the other threads interleave. */
  lemma {:induction false} ReaperConfirms(s: Sys, run: seq<Action>)
    requires Inv(s) && NothingToWaitFor(s) && Legal(s, run) && ReaperSteps(run) >= ReaperRank(s.reaper)
    ensures After(s, run).own.retirementConfirmed && ReaperRank(s.reaper) <= 3
    decreases run
  {
    hide Inv, Step, NothingToWaitFor;
    if run == [] || ReaperRank(s.reaper) == 0 {
      hide ReaperRank, ReaperSteps;
      Confirmed(s, run);
    } else {
      WaitingStep(s, run[0]);
      StepInv(s, run[0]);
      ReaperConfirms(Step(s, run[0]).value, run[1..]);
    }
  }

  /** A reaper that has nothing left to do has confirmed, and nobody takes that back. */
  lemma {:induction false} Confirmed(s: Sys, run: seq<Action>)
    requires Inv(s) && NothingToWaitFor(s) && Legal(s, run) && ReaperRank(s.reaper) == 0
    ensures After(s, run).own.retirementConfirmed
    decreases run
  {
    hide Step, NothingToWaitFor;
    if run == [] {
      RankZeroIsConfirmed(s);
    } else {
      hide Inv, ReaperRank;
      WaitingStep(s, run[0]);
      StepInv(s, run[0]);
      Confirmed(Step(s, run[0]).value, run[1..]);
    }
  }

  lemma RankZeroIsConfirmed(s: Sys)
    requires RetirementInv(s) && NothingToWaitFor(s) && ReaperRank(s.reaper) == 0
    ensures s.own.retirementConfirmed
  {
  }

  function LaunchDistance(s: Sys): nat {
    (if s.worker.LaunchQueued? ||
      s.worker.LaunchStarting? then 3 else if s.worker.Spawned? then 2 else if s.worker.LaunchEnding? then 1 else 0)
    + if s.peer.life.Alive? then 1 else 0
  }

  /** What has to happen next when the reaper waits for the launch or for the child. */
  function Awaited(s: Sys): Action {
    match s.worker
    case LaunchQueued => OfLaunch(LaunchChecks)
    case LaunchStarting => OfLaunch(LauncherThrows)
    case Spawned => OfLaunch(Publishes)
    case LaunchEnding(_) => if s.peer.life.Alive? then OfChild(Exits(1)) else OfLaunch(LaunchFinishes)
    case _ => OfChild(Exits(1))
  }

  lemma AwaitedComes(s: Sys)
    requires LifeInv(s) && RetirementInv(s) && s.own.reaperStarted && !NoChildEver(s)
    ensures var t := Step(s, Awaited(s));
      t.Some? && t.value.own.reaperStarted == s.own.reaperStarted && LaunchDistance(t.value) < LaunchDistance(s)
  {
    hide Frame, FrameText, Needed, BodyOf, BuilderNext, CallerNext, WorkerNext, ReaperNext, DecodeText;
    if Awaited(s).OfChild? {
      assert s.peer.life.Alive? && s.worker != Spawned;
      assert Step(s, Awaited(s)) == Some(s.(peer := s.peer.(life := Exited(1))));
    } else {
      match s.worker
      case LaunchQueued => assert LaunchNext(s, LaunchChecks) == Some(s.(worker := LaunchEnding(false)));
      case LaunchStarting => assert LaunchNext(s, LauncherThrows) == Some(s.(worker := LaunchEnding(false)));
      case Spawned => assert LaunchNext(s, Publishes) == Some(s.(worker := Published, own := s.own.(hasChild := true)));
      case LaunchEnding(ok) =>
        assert LaunchNext(s, LaunchFinishes) == Some(s.(worker := LaunchEnded(ok),
          own := s.own.(launchFinished := true)));
    }
  }

  /** Wherever a retirement was requested, with the launch or the child in whatever state, it can still be confirmed. */
  lemma {:induction false} RetirementCanBeConfirmed(s: Sys) returns (run: seq<Action>)
    requires Inv(s) && s.own.reaperStarted
    ensures Legal(s, run) && After(s, run).own.retirementConfirmed
    decreases LaunchDistance(s)
  {
    hide Legal, After, Step, AdmissionInv, LifeInv, RetirementInv, ExchangeInv, TransportInv, PairingInv, StreamInv,
      NoChildEver, LaunchDistance;
    if NoChildEver(s) {
      run := ReaperEnds(s);
    } else {
      AwaitedComes(s);
      StepInv(s, Awaited(s));
      run := RetirementCanBeConfirmed(Step(s, Awaited(s)).value);
      run := Prepend(s, Awaited(s), run);
    }
  }

  // ---------------------------------------------------------------- an undisturbed exchange

  /** The client is open and idle with a child that is alive, and nobody holds the admission. */
  predicate Serving(s: Sys) {
    s.builder == Built && Quiet(s) && s.peer.life.Alive? && !s.own.admitted && s.holder.None?
  }

  function Waits(s: Sys, c: CallId, op: Op): Sys {
    s.(callers := s.callers[c := Caller(op, Waiting)], own := s.own.(admitted := true), holder := Some(c), queue := [c])
  }

  function Having(s: Sys, c: CallId, op: Op, pc: Pc): Sys {
    s.(callers := s.callers[c := Caller(op, pc)])
  }

  lemma MovesOn(s: Sys, c: CallId, op: Op, pc: Pc, next: Pc)
    ensures At(Having(s, c, op, pc), c, next) == Having(s, c, op, next)
  {
  }

  function Admits(s: Sys, c: CallId): Sys {
    s.(own := s.own.(admitted := true), holder := Some(c))
  }

  lemma CallGetsAdmitted(s: Sys, c: CallId, op: Op) returns (run: seq<Action>)
    requires Serving(s) && c !in s.callers && MaySend(op) && !s.own.gracefulClosed
    ensures Legal(s, run) && After(s, run) == Having(Admits(s, c), c, op, Admitted)
  {
    hide Legal, After, BuilderNext, LaunchNext, WorkerNext, ReaperNext, ChildNext, MaySend, Synced;
    var s1, s2 := Having(s, c, op, Contending), Having(Admits(s, c), c, op, Checking);
    MovesOn(s, c, op, Calling, Contending);
    MovesOn(s, c, op, Contending, Checking);
    MovesOn(Admits(s, c), c, op, Checking, Admitted);
    NothingHappens(Having(Admits(s, c), c, op, Admitted));
    run := Prepend(s2, OfCaller(c, Checks), []);
    run := Prepend(s1, OfCaller(c, Contends), run);
    if op.Close? { run := Prepend(Having(s, c, op, Calling), OfCaller(c, Looks), run); }
    run := Prepend(s, OfCaller(c, Calls(op)), run);
  }

  /** The caller on its way to the queue. */
  lemma CallGetsQueued(s: Sys, c: CallId, op: Op) returns (run: seq<Action>)
    requires Serving(s) && c !in s.callers && c !in s.expired && MaySend(op) && !s.own.gracefulClosed
    ensures Legal(s, run) && After(s, run) == Waits(s, c, op)
  {
    hide Legal, After, BuilderNext, LaunchNext, WorkerNext, ReaperNext, ChildNext, MaySend, Synced;
    var admitted := Admits(s, c);
    var s3, s4 := Having(admitted, c, op, Admitted), Having(admitted, c, op, Ready);
    MovesOn(admitted, c, op, Admitted, Ready);
    MovesOn(admitted, c, op, Ready, Waiting);
    assert s4.queue + [c] == [c];
    NothingHappens(Waits(s, c, op));
    run := Prepend(s4, OfCaller(c, Submits), []);
    run := Prepend(s3, OfCaller(c, Encodes), run);
    var first := CallGetsAdmitted(s, c, op);
    Append(s, first, run);
    run := first + run;
  }

  /** The child's peer state after it was sent a request and has said all of its answer, which is still in the pipe. */
  function PeerThatAnswered(p: Peer, body: seq<byte>, a: seq<byte>): Peer
    requires |body| <= MAX_REQUEST && |a| <= MAX_RESPONSE_BYTES
  {
    p.(asked := p.asked + [body], answers := p.answers + [a], wrote := p.wrote + Frame(body), said := p.said + Frame(a),
      fromChild := Frame(a))
  }

  lemma TaskIsAnswered(s: Sys, c: CallId, a: seq<byte>) returns (run: seq<Action>)
    requires s.queue == [c] && s.worker == Idle && c in s.callers && s.callers[c].op.Request? &&
      MaySend(s.callers[c].op)
    requires !s.own.closed && c !in s.expired && Synced(s.peer, s.inbox) && s.peer.life.Alive?
    requires LegalAnswer(a) && |a| <= MAX_RESPONSE_BYTES
    ensures Legal(s, run)
    ensures After(s, run) == s.(queue := [], worker := Receiving(c),
      peer := PeerThatAnswered(s.peer, BodyOf(s.callers[c].op), a))
  {
    hide Legal, After, BuilderNext, LaunchNext, CallerNext, ReaperNext, MaySend, Frame, BodyOf, FrameHere, FrontBody,
      AfterFrame, LegalAnswer, StopHere;
    var body := BodyOf(s.callers[c].op);
    SentBodyIsLegal(s.callers[c].op);
    RequestFrame(body);
    var s1 := WorkerNext(s, Begins).value;
    assert s1 == s.(queue := [], worker := Sending(c, Frame(body)));
    var all := |Frame(body)|;
    assert Frame(body)[..all] == Frame(body) && Frame(body)[all..] == [] && [] + Frame(body) == Frame(body);
    var s2 := WorkerNext(s1, Writes(all)).value;
    assert s2 == s1.(worker := Receiving(c),
      peer := s.peer.(toChild := Frame(body), wrote := s.peer.wrote + Frame(body)));
    var s3 := s2.(peer := ChildNext(s2.peer, Takes(a)).value);
    var len := |Frame(a)|;
    assert Frame(a)[..len] == Frame(a) && Frame(a)[len..] == [] && [] + Frame(a) == Frame(a);
    var s4 := s3.(peer := ChildNext(s3.peer, Says(len)).value);
    assert s4 == s.(queue := [], worker := Receiving(c), peer := PeerThatAnswered(s.peer, body, a));
    NothingHappens(s4);
    run := Prepend(s3, OfChild(Says(len)), []);
    run := Prepend(s2, OfChild(Takes(a)), run);
    run := Prepend(s1, OfWorker(Writes(all)), run);
    run := Prepend(s, OfWorker(Begins), run);
  }

  /** The worker reads header and body, and has the answer. */
  lemma AnswerIsRead(s: Sys, c: CallId, a: seq<byte>) returns (run: seq<Action>)
    requires s.worker == Receiving(c) && c in s.callers && s.callers[c].op.Request? && s.inbox == []
    requires LegalAnswer(a) && |a| <= MAX_RESPONSE_BYTES && s.peer.fromChild == Frame(a) && s.peer.asked != []
    ensures Legal(s, run) && DecodeText(a).Some?
    ensures After(s, run) == s.(worker := Idle, peer := s.peer.(fromChild := []),
        futures := s.futures[c := Answer(DecodeText(a).value)], served := s.served[c := |s.peer.asked| - 1])
  {
    hide Legal, After, BuilderNext, LaunchNext, CallerNext, ReaperNext, ChildNext, LegalAnswer, DecodeText, Frame,
      FrameText;
    var frame := Frame(a);
    FrameInTwo(a);
    var s1 := WorkerNext(s, Reads(4)).value;
    assert s1 == s.(inbox := frame[..4], peer := s.peer.(fromChild := frame[4..]));
    var s2 := WorkerNext(s1, Reads(|a|)).value;
    assert s2 == s.(inbox := frame, peer := s.peer.(fromChild := []));
    assert frame + [] == frame;
    WholeAnswer(frame, [], a);
    var s3 := WorkerNext(s2, WorkerStep.Answered).value;
    NothingHappens(s3);
    run := Prepend(s2, OfWorker(WorkerStep.Answered), []);
    run := Prepend(s1, OfWorker(Reads(|a|)), run);
    run := Prepend(s, OfWorker(Reads(4)), run);
  }

  /** What the worker still needs, before, between and after the two reads. */
  lemma FrameInTwo(a: seq<byte>)
    requires LegalAnswer(a) && |a| <= MAX_RESPONSE_BYTES
    ensures var f := Frame(a);
      && a != [] && Needed([]) == 4 && Needed(f[..4]) == |a| && Needed(f) == 0
      && [] + f[..4] == f[..4] && f[..4] + f[4..][..|a|] == f && f[4..][|a|..] == []
  {
    hide HeaderValue, Header, LegalAnswer;
    LegalAnswerIsShort(a);
    HeaderRoundTrip(|a|);
    assert Frame(a)[..4] == Header(|a|) && Frame(a)[..4][..4] == Header(|a|);
  }

  /** The caller returns and gives the admission back. */
  lemma CallReturns(s: Sys, c: CallId, outcome: Outcome) returns (run: seq<Action>)
    requires c in s.callers && s.callers[c].pc == Waiting && c in s.futures
    requires s.futures[c] == (if outcome.Returned? then Answer(outcome.text) else Acknowledged) &&
      (outcome.Returned? || outcome.Stopped?)
    ensures Legal(s, run)
    ensures After(s, run) == s.(callers := s.callers[c := s.callers[c].(pc := Done(outcome))],
      own := s.own.(admitted := false), holder := None)
  {
    hide Legal, After, BuilderNext, LaunchNext, WorkerNext, ReaperNext, ChildNext, MaySend;
    var s1 := CallerNext(s, c, Returns).value;
    var s2 := CallerNext(s1, c, Releases).value;
    assert s2.callers == s.callers[c := s.callers[c].(pc := Done(outcome))];
    NothingHappens(s2);
    run := Prepend(s1, OfCaller(c, Releases), []);
    run := Prepend(s, OfCaller(c, Returns), run);
  }

  /** Every request that may be sent can be answered with every answer the child may give, which the caller then
      returns; and the client serves on. */
  lemma RequestCanBeAnswered(s: Sys, c: CallId, op: Op, a: seq<byte>) returns (run: seq<Action>)
    requires Serving(s) && c !in s.callers && c !in s.expired && op.Request? && MaySend(op) && LegalAnswer(a) &&
      !s.own.gracefulClosed
    ensures Legal(s, run)
    ensures var t := After(s, run);
      && Serving(t) && DecodeText(a).Some? && c in t.callers &&
        t.callers[c] == Caller(op, Done(Returned(DecodeText(a).value)))
      && t.peer.asked == s.peer.asked + [BodyOf(op)] && t.peer.answers == s.peer.answers + [a]
  {
    hide Legal, After, Step, MaySend, LegalAnswer, DecodeText, Frame, BodyOf;
    LegalAnswerIsShort(a);
    var first := CallGetsQueued(s, c, op);
    var s1 := After(s, first);
    var second := TaskIsAnswered(s1, c, a);
    var s2 := After(s1, second);
    var third := AnswerIsRead(s2, c, a);
    var s3 := After(s2, third);
    var fourth := CallReturns(s3, c, Returned(DecodeText(a).value));
    Append(s2, third, fourth);
    Append(s1, second, third + fourth);
    Append(s, first, second + (third + fourth));
    run := first + (second + (third + fourth));
  }

  // ---------------------------------------------------------------- an undisturbed start and stop

  /** The child is started, and has said its greeting. */
  lemma LaunchComes() returns (run: seq<Action>)
    ensures Legal(INITIAL, run) && |HELLO| <= MAX_RESPONSE_BYTES
    ensures After(INITIAL, run) == INITIAL.(builder := AwaitingLaunch, worker := Greeting,
      own := FRESH.(hasChild := true),
        peer := INITIAL.peer.(life := Alive, outbox := [], fromChild := Frame(HELLO), said := Frame(HELLO)))
  {
    hide Legal, After, CallerNext, WorkerNext, ReaperNext, ChildNext, HELLO, Frame;
    HelloIsLegal();
    LegalAnswerIsShort(HELLO);
    var s1 := INITIAL.(builder := AwaitingLaunch, worker := LaunchQueued);
    var s2 := s1.(worker := LaunchStarting);
    var s3 := s1.(worker := Spawned, peer := INITIAL.peer.(life := Alive, outbox := Frame(HELLO)));
    var s4 := s3.(worker := Published, own := FRESH.(hasChild := true));
    var s5 := s4.(worker := Greeting);
    run := ChildSaysAll(s5, HELLO);
    run := Prepend(s4, OfLaunch(Connects), run);
    run := Prepend(s3, OfLaunch(Publishes), run);
    run := Prepend(s2, OfLaunch(LauncherStarts), run);
    run := Prepend(s1, OfLaunch(LaunchChecks), run);
    run := Prepend(INITIAL, OfBuilder(Enqueues), run);
  }

  lemma ChildSaysAll(s: Sys, text: seq<byte>) returns (run: seq<Action>)
    requires |text| <= MAX_RESPONSE_BYTES && s.peer.life.Alive? && s.peer.outbox == Frame(text) &&
      s.peer.fromChild == []
    ensures Legal(s, run)
    ensures After(s, run) == s.(peer := s.peer.(outbox := [], fromChild := Frame(text),
      said := s.peer.said + Frame(text)))
  {
    hide Legal, After, BuilderNext, LaunchNext, CallerNext, WorkerNext, ReaperNext, Frame, FrameHere, StopHere,
      LegalAnswer;
    var f, p := Frame(text), s.peer;
    assert f[..|f|] == f && f[|f|..] == [] && [] + f == f;
    var q := p.(outbox := [], fromChild := f, said := p.said + f);
    assert ChildNext(p, Says(|f|)) == Some(q);
    hide ChildNext;
    NothingHappens(s.(peer := q));
    run := Prepend(s, OfChild(Says(|f|)), []);
  }

  lemma HandshakeEnds(s: Sys) returns (run: seq<Action>)
    requires |HELLO| <= MAX_RESPONSE_BYTES && s.worker == Greeting && s.inbox == [] && s.peer.fromChild == Frame(HELLO)
    requires s.builder == AwaitingLaunch
    ensures Legal(s, run)
    ensures After(s, run) == s.(builder := Built, worker := Idle, launched := Some(true),
      peer := s.peer.(fromChild := []),
        own := s.own.(launchFinished := true))
  {
    hide Legal, After, CallerNext, ReaperNext, ChildNext, HELLO, Frame, FrameText, Needed, LegalAnswer;
    HelloIsLegal();
    FrameInTwo(HELLO);
    var frame := Frame(HELLO);
    var s1 := s.(inbox := frame[..4], peer := s.peer.(fromChild := frame[4..]));
    var s2 := s.(inbox := frame, peer := s.peer.(fromChild := []));
    assert frame + [] == frame;
    WholeAnswer(frame, [], HELLO);
    var s3 := s2.(worker := LaunchEnding(true), inbox := []);
    var s4 := s3.(worker := LaunchEnded(true), own := s.own.(launchFinished := true));
    var s5 := s4.(worker := Idle, launched := Some(true));
    var s6 := s5.(builder := Built);
    NothingHappens(s6);
    run := Prepend(s5, OfBuilder(Completes), []);
    run := Prepend(s4, OfLaunch(LaunchCompletes), run);
    run := Prepend(s3, OfLaunch(LaunchFinishes), run);
    run := Prepend(s2, OfLaunch(Greets), run);
    run := Prepend(s1, OfWorker(Reads(|HELLO|)), run);
    run := Prepend(s, OfWorker(Reads(4)), run);
  }

  /** A start that nothing disturbs ends with a client that serves. */
  lemma StartCanSucceed() returns (run: seq<Action>)
    ensures Legal(INITIAL, run) && Serving(After(INITIAL, run)) && After(INITIAL, run).callers == map[] &&
      After(INITIAL, run).expired == {}
    ensures !After(INITIAL, run).own.gracefulClosed
  {
    hide Legal, After, Step, HELLO, Frame;
    var first := LaunchComes();
    var s := After(INITIAL, first);
    var second := HandshakeEnds(s);
    Append(INITIAL, first, second);
    run := first + second;
  }

  /** The child is asked to stop and acknowledges. */
  lemma StopIsAcknowledged(s: Sys, c: CallId) returns (run: seq<Action>)
    requires s.queue == [c] && s.worker == Idle && IsStop(s, c) && !s.own.closed && c !in s.expired
    requires Synced(s.peer, s.inbox) && s.peer.life.Alive?
    ensures Legal(s, run)
    ensures After(s, run) == s.(queue := [], worker := Receiving(c),
      peer := s.peer.(stopping := true, fromChild := Frame([]), wrote := s.peer.wrote + Frame([]),
        said := s.peer.said + Frame([])))
  {
    hide Legal, After, BuilderNext, LaunchNext, CallerNext, ReaperNext, MaySend, Frame, FrameHere, FrontBody,
      AfterFrame, StopHere, HeaderValue, Header;
    var frame := Frame([]);
    StopFrame();
    StopHasNoBody(s.callers[c].op);
    assert s.queue[1..] == [] && [] + frame == frame && frame[..4] == frame && frame[4..] == [];
    var s1 := s.(queue := [], worker := Sending(c, frame));
    var s2 := s1.(worker := Receiving(c), peer := s.peer.(toChild := frame, wrote := s.peer.wrote + frame));
    var s3 := s2.(peer := s2.peer.(toChild := [], stopping := true, outbox := frame));
    var s4 := s2.(peer := s3.peer.(outbox := [], fromChild := frame, said := s.peer.said + frame));
    NothingHappens(s4);
    run := Prepend(s3, OfChild(Says(4)), []);
    run := Prepend(s2, OfChild(TakesStop), run);
    run := Prepend(s1, OfWorker(Writes(4)), run);
    run := Prepend(s, OfWorker(Begins), run);
  }

  /** The worker reads the acknowledgement, and the child exits. */
  lemma StoppedChildExits(s: Sys, c: CallId) returns (run: seq<Action>)
    requires s.worker == Receiving(c) && IsStop(s, c) && s.inbox == [] && s.peer.fromChild == Frame([]) &&
      s.peer.life.Alive?
    ensures Legal(s, run)
    ensures var t := After(s, run);
      && t.worker == Idle && t.futures == s.futures[c := Acknowledged] && t.callers == s.callers
      && t.own == StoppedInOrder(s.own).(ioShutdown := true) && t.peer.life == Exited(0)
  {
    hide Legal, After, BuilderNext, LaunchNext, CallerNext, ReaperNext, MaySend, Frame, FrameHere, FrontBody,
      AfterFrame, StopHere, HeaderValue, Header;
    var frame := Frame([]);
    HeaderRoundTrip(0);
    StopIsHeader();
    assert [] + frame == frame && frame[..4] == frame && frame[4..] == [];
    var s5 := s.(inbox := frame, peer := s.peer.(fromChild := []));
    var s6 := s5.(worker := AwaitingExit(c), acked := true);
    var s7 := s6.(peer := s6.peer.(life := Exited(0)));
    var s8 := s7.(worker := Winding(c), own := StoppedInOrder(s.own));
    var s9 := s8.(worker := Idle, futures := s.futures[c := Acknowledged], own := s8.own.(ioShutdown := true));
    NothingHappens(s9);
    run := Prepend(s8, OfWorker(Winds), []);
    run := Prepend(s7, OfWorker(SeesExit), run);
    run := Prepend(s6, OfChild(Exits(0)), run);
    run := Prepend(s5, OfWorker(Acks), run);
    run := Prepend(s, OfWorker(Reads(4)), run);
  }

  /** A stop that nothing disturbs is an orderly stop. */
  lemma StopCanSucceed(s: Sys, c: CallId) returns (run: seq<Action>)
    requires Serving(s) && c !in s.callers && c !in s.expired && !s.own.gracefulClosed
    ensures Legal(s, run)
    ensures var t := After(s, run);
      t.own.gracefulClosed && c in t.callers && t.callers[c] == Caller(Close, Done(Stopped))
  {
    hide Legal, After, Step, Frame;
    var first := CallGetsQueued(s, c, Close);
    var s1 := After(s, first);
    var second := StopIsAcknowledged(s1, c);
    var s2 := After(s1, second);
    var third := StoppedChildExits(s2, c);
    var s3 := After(s2, third);
    var fourth := CallReturns(s3, c, Stopped);
    Append(s2, third, fourth);
    Append(s1, second, third + fourth);
    Append(s, first, second + (third + fourth));
    run := first + (second + (third + fourth));
  }
}
