/** EclLifecycle.java: the order in which the native port is called. The port may return or throw at every call as it
    likes; `behaves` fixes what its n-th call does, and `log` records the calls with their effects. */
module Lifecycle {

  datatype Kind = AbiVersion | StartRuntime | ServiceReady | StopManaged | StopNative

  /** A call answers as hoped for (the right version, no error text, ready, stopped), answers otherwise, or throws;
      a missing native library is told apart. */
  datatype Effect = Good | Bad | Throws | Unlinked

  predicate Returns(e: Effect) {
    e == Good || e == Bad
  }

  datatype Entry = Entry(kind: Kind, effect: Effect)

  type Behaviour = nat -> Effect

  datatype SessionState = NoSession | Live | Stopped

  datatype State = State(bootAttempted: bool, session: SessionState, log: seq<Entry>)

  const FRESH := State(false, NoSession, [])

  /** What interferes with an open: the four cancellation checks and the installation of the assets. */
  datatype Interference = Interference(cancelled: bool, installFails: bool, cancelledAfterInstall: bool,
                                       cancelledAfterStart: bool, cancelledAfterReady: bool)

  datatype OpenResult = Opened | Unavailable | Failed

  function Call(log: seq<Entry>, kind: Kind, behaves: Behaviour): (after: seq<Entry>)
    ensures |after| == |log| + 1
  {
    log + [Entry(kind, behaves(|log|))]
  }

  function Last(log: seq<Entry>): Effect
    requires log != []
  {
    log[|log| - 1].effect
  }

  // ---------------------------------------------------------------- what open and close do

  /** Cleanup of a failed start: both stops, the second even when the first throws. */
  function CleanedUp(log: seq<Entry>, behaves: Behaviour): seq<Entry> {
    Call(Call(log, StopManaged, behaves), StopNative, behaves)
  }

  /** open from the start attempt on. */
  function Attempt(log: seq<Entry>, behaves: Behaviour, i: Interference): (State, OpenResult) {
    var started := Call(log, StartRuntime, behaves);
    if Last(started) != Good || i.cancelledAfterStart then (State(true, NoSession, CleanedUp(started, behaves)), Failed)
    else
      var ready := Call(started, ServiceReady, behaves);
      if Last(ready) != Good || i.cancelledAfterReady then (State(true, NoSession, CleanedUp(ready, behaves)), Failed)
      else (State(true, Live, ready), Opened)
  }

  function Open(s: State, behaves: Behaviour, i: Interference): (State, OpenResult) {
    if s.bootAttempted then (s, Failed)
    else
      var asked := Call(s.log, AbiVersion, behaves);
      if Last(asked) == Unlinked then (s.(log := asked), Unavailable)
      else if Last(asked) != Good || i.cancelled || i.installFails ||
        i.cancelledAfterInstall then (s.(log := asked), Failed)
      else Attempt(asked, behaves, i)
  }

  /** Session.close; the second component says whether it returned normally. */
  function Close(s: State, behaves: Behaviour): (State, bool)
    requires s.session != NoSession
  {
    if s.session == Stopped then (s, true)
    else
      var managed := Call(s.log, StopManaged, behaves);
      var stopped := Call(managed, StopNative, behaves);
      if Returns(Last(stopped)) then (State(s.bootAttempted, Stopped, stopped), Last(managed) == Good)
      else (s.(log := stopped), false)
  }

  // ---------------------------------------------------------------- runs of serialized calls

  datatype Op = OpenOp(i: Interference) | CloseOp

  function Step(s: State, behaves: Behaviour, op: Op): State {
    match op
    case OpenOp(i) => Open(s, behaves, i).0
    case CloseOp => if s.session == NoSession then s else Close(s, behaves).0
  }

  function After(s: State, behaves: Behaviour, ops: seq<Op>): State
    decreases ops
  {
    if ops == [] then s else After(Step(s, behaves, ops[0]), behaves, ops[1..])
  }

  function Count(log: seq<Entry>, kind: Kind): nat {
    if log == [] then 0
    else Count(log[..|log| - 1], kind) + if log[|log| - 1].kind == kind then 1 else 0
  }

  /** Native stops that returned. */
  function StopsReturned(log: seq<Entry>): nat {
    if log == [] then 0
    else StopsReturned(log[..|log| - 1])
         + if log[|log| - 1].kind == StopNative && Returns(log[|log| - 1].effect) then 1 else 0
  }

  lemma CallCounts(log: seq<Entry>, kind: Kind, behaves: Behaviour)
    ensures var after := Call(log, kind, behaves);
      && (forall k :: Count(after, k) == Count(log, k) + (if k == kind then 1 else 0))
      && StopsReturned(after) == StopsReturned(log) + (if kind == StopNative && Returns(Last(after)) then 1 else 0)
      && after[|log|] == Entry(kind, Last(after))
  {
    var after := Call(log, kind, behaves);
    assert after[..|after| - 1] == log;
  }

  predicate EndsInCleanup(log: seq<Entry>) {
    |log| >= 2 && log[|log| - 2].kind == StopManaged && log[|log| - 1].kind == StopNative
  }

  predicate Inv(s: State) {
    && Count(s.log, StartRuntime) == (if s.bootAttempted then 1 else 0)
    && Count(s.log, StopManaged) == Count(s.log, StopNative)
    && (s.session != NoSession ==> s.bootAttempted)
    && (!s.bootAttempted ==> Count(s.log, StopNative) == 0 && StopsReturned(s.log) == 0)
    && (s.bootAttempted && s.session == NoSession ==> Count(s.log, StopNative) == 1 && EndsInCleanup(s.log))
    && (s.session == Live ==> StopsReturned(s.log) == 0)
    && (s.session == Stopped ==> StopsReturned(s.log) == 1)
  }

  lemma FreshInv()
    ensures Inv(FRESH)
  {
  }

  lemma AttemptInv(log: seq<Entry>, behaves: Behaviour, i: Interference)
    requires Inv(State(false, NoSession, log))
    ensures Inv(Attempt(log, behaves, i).0) && Attempt(log, behaves, i).0.bootAttempted
  {
    hide Count, StopsReturned, Call;
    var started := Call(log, StartRuntime, behaves);
    CallCounts(log, StartRuntime, behaves);
    var ready := Call(started, ServiceReady, behaves);
    CallCounts(started, ServiceReady, behaves);
    CleanupCounts(started, behaves);
    CleanupCounts(ready, behaves);
  }

  lemma CleanupCounts(log: seq<Entry>, behaves: Behaviour)
    ensures var after := CleanedUp(log, behaves);
      && EndsInCleanup(after)
      && (forall k :: Count(after, k) == Count(log, k) + (if k == StopManaged || k == StopNative then 1 else 0))
  {
    hide Count, StopsReturned;
    var managed := Call(log, StopManaged, behaves);
    CallCounts(log, StopManaged, behaves);
    CallCounts(managed, StopNative, behaves);
  }

  lemma StepInv(s: State, behaves: Behaviour, op: Op)
    requires Inv(s)
    ensures Inv(Step(s, behaves, op))
  {
    hide Count, StopsReturned, Call, Attempt;
    match op
    case OpenOp(i) =>
      if !s.bootAttempted {
        CallCounts(s.log, AbiVersion, behaves);
        AttemptInv(Call(s.log, AbiVersion, behaves), behaves, i);
      }
    case CloseOp =>
      var managed := Call(s.log, StopManaged, behaves);
      CallCounts(s.log, StopManaged, behaves);
      CallCounts(managed, StopNative, behaves);
  }

  lemma {:induction false} RunInv(s: State, behaves: Behaviour, ops: seq<Op>)
    requires Inv(s)
    ensures Inv(After(s, behaves, ops))
    decreases ops
  {
    hide Inv, Step;
    if ops != [] {
      StepInv(s, behaves, ops[0]);
      RunInv(Step(s, behaves, ops[0]), behaves, ops[1..]);
    }
  }

  /** Over any calls, whatever the port does: it is started at most once; a start attempt that gave no session was
      followed by one managed and one native stop, and nothing after them. */
  lemma PortDiscipline(behaves: Behaviour, ops: seq<Op>)
    ensures var s := After(FRESH, behaves, ops);
      && Count(s.log, StartRuntime) <= 1
      && (Count(s.log, StartRuntime) == 1 && s.session == NoSession ==>
            Count(s.log, StopManaged) == 1 && Count(s.log, StopNative) == 1 && EndsInCleanup(s.log))
  {
    FreshInv();
    RunInv(FRESH, behaves, ops);
  }

  /** A close that returns normally means that the native stop has returned exactly once, and it is never called
      again. */
  lemma CloseMeansStopped(behaves: Behaviour, ops: seq<Op>, later: seq<Op>)
    requires After(FRESH, behaves, ops).session != NoSession && Close(After(FRESH, behaves, ops), behaves).1
    ensures var s := Close(After(FRESH, behaves, ops), behaves).0;
      && StopsReturned(s.log) == 1
      && After(s, behaves, later) == s
  {
    hide Count, StopsReturned;
    FreshInv();
    RunInv(FRESH, behaves, ops);
    var before := After(FRESH, behaves, ops);
    StepInv(before, behaves, CloseOp);
    StoppedForever(Close(before, behaves).0, behaves, later);
  }

  lemma {:induction false} StoppedForever(s: State, behaves: Behaviour, ops: seq<Op>)
    requires s.session == Stopped && s.bootAttempted
    ensures After(s, behaves, ops) == s
    decreases ops
  {
    if ops != [] { StoppedForever(s, behaves, ops[1..]); }
  }

  /** The three answers that make a session, one after the other: the right version, a start, and readiness. */
  predicate ReadyAt(log: seq<Entry>, k: nat) {
    && k + 2 < |log| && log[k] == Entry(AbiVersion, Good)
    && log[k + 1] == Entry(StartRuntime, Good) && log[k + 2] == Entry(ServiceReady, Good)
  }

  ghost predicate WasReady(s: State) {
    s.session != NoSession ==> exists k :: ReadyAt(s.log, k)
  }

  lemma StepWasReady(s: State, behaves: Behaviour, op: Op)
    requires WasReady(s)
    ensures WasReady(Step(s, behaves, op))
  {
    var t := Step(s, behaves, op);
    LogGrows(s, behaves, op);
    if s.session != NoSession {
      var k :| ReadyAt(s.log, k);
      assert ReadyAt(t.log, k);
    } else if t.session != NoSession {
      assert ReadyAt(t.log, |s.log|);
    }
  }

  lemma LogGrows(s: State, behaves: Behaviour, op: Op)
    ensures s.log <= Step(s, behaves, op).log
  {
  }

  lemma {:induction false} RunWasReady(s: State, behaves: Behaviour, ops: seq<Op>)
    requires WasReady(s)
    ensures WasReady(After(s, behaves, ops))
    decreases ops
  {
    hide WasReady, Step;
    if ops != [] {
      StepWasReady(s, behaves, ops[0]);
      RunWasReady(Step(s, behaves, ops[0]), behaves, ops[1..]);
    }
  }

  /** Whenever there is a session, live or stopped, the port has answered its version, its start and the question
      whether it is ready with what was hoped for, in that order. */
  lemma SessionWasReady(behaves: Behaviour, ops: seq<Op>) returns (k: nat)
    requires After(FRESH, behaves, ops).session != NoSession
    ensures ReadyAt(After(FRESH, behaves, ops).log, k)
  {
    hide ReadyAt, After;
    RunWasReady(FRESH, behaves, ops);
    k :| ReadyAt(After(FRESH, behaves, ops).log, k);
  }

  // ---------------------------------------------------------------- the classes

  class NativePort {
    const behaves: Behaviour
    var log: seq<Entry>

    constructor (behaves: Behaviour)
      ensures this.behaves == behaves && log == []
    {
      this.behaves, log := behaves, [];
    }

    method Invoke(kind: Kind) returns (effect: Effect)
      modifies this
      ensures log == Call(old(log), kind, behaves) && effect == Last(log)
    {
      effect := behaves(|log|);
      log := log + [Entry(kind, effect)];
    }
  }

  /** The session that open returns. */
  class EclSession {
    const port: NativePort
    var stopped: bool

    constructor (port: NativePort)
      ensures this.port == port && !stopped
    {
      this.port, stopped := port, false;
    }

    ghost function Status(): SessionState
      reads this
    {
      if stopped then Stopped else Live
    }

    /** close; false stands for an exception. */
    method CloseSession(ghost bootAttempted: bool) returns (normal: bool)
      modifies this, port
      ensures (State(bootAttempted, Status(), port.log),
        normal) == Close(State(bootAttempted, old(Status()), old(port.log)), port.behaves)
      ensures old(stopped) ==> normal && stopped && port.log == old(port.log)
      ensures !old(stopped) ==> var n := |old(port.log)|;
        && (stopped <==> port.behaves(n + 1) == Good || port.behaves(n + 1) == Bad)
        && (normal <==> stopped && port.behaves(n) == Good)
        && port.log == old(port.log) + [Entry(StopManaged, port.behaves(n)), Entry(StopNative, port.behaves(n + 1))]
    {
      if stopped { return true; }
      var graceful := port.Invoke(StopManaged);
      var stop := port.Invoke(StopNative);
      if Returns(stop) { stopped := true; }
      normal := Returns(stop) && graceful == Good;
    }
  }

  class EclLifecycle {
    const port: NativePort
    var bootAttempted: bool

    constructor (port: NativePort)
      ensures this.port == port && !bootAttempted
    {
      this.port, bootAttempted := port, false;
    }

    /** open */
    method OpenSession(i: Interference) returns (result: OpenResult, session: EclSession?)
      modifies this, port
      ensures session != null <==> result == Opened
      ensures session != null ==> fresh(session) && session.port == port && !session.stopped
      ensures var s := Open(State(old(bootAttempted), NoSession, old(port.log)), port.behaves, i);
        result == s.1 && port.log == s.0.log && bootAttempted == s.0.bootAttempted
      ensures var n := |old(port.log)|;
        && (result == Opened <==>
              && !old(bootAttempted)
              && port.behaves(n) == Good && port.behaves(n + 1) == Good && port.behaves(n + 2) == Good
              && !i.cancelled && !i.installFails && !i.cancelledAfterInstall
              && !i.cancelledAfterStart && !i.cancelledAfterReady)
        && (result == Unavailable <==> !old(bootAttempted) && port.behaves(n) == Unlinked)
        && (bootAttempted <==>
              || old(bootAttempted)
              || (port.behaves(n) == Good && !i.cancelled && !i.installFails && !i.cancelledAfterInstall))
      ensures old(port.log) <= port.log && (old(bootAttempted) ==> port.log == old(port.log))
      ensures !old(bootAttempted) && bootAttempted && result != Opened ==> EndsInCleanup(port.log)
      ensures result == Opened ==> ReadyAt(port.log, |old(port.log)|) && |port.log| == |old(port.log)| + 3
    {
      session := null;
      if bootAttempted { return Failed, null; }
      var version := port.Invoke(AbiVersion);
      if version == Unlinked { return Unavailable, null; }
      if version != Good || i.cancelled || i.installFails || i.cancelledAfterInstall { return Failed, null; }
      bootAttempted := true;
      var failed := true;
      var started := port.Invoke(StartRuntime);
      if started == Good && !i.cancelledAfterStart {
        var ready := port.Invoke(ServiceReady);
        failed := ready != Good || i.cancelledAfterReady;
      }
      if failed {
        var managed := port.Invoke(StopManaged);
        var stop := port.Invoke(StopNative);
        return Failed, null;
      }
      session := new EclSession(port);
      result := Opened;
    }
  }
}
