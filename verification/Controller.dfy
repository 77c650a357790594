/** RuntimeController.java. Every synchronized method and every locked region of a worker job is one atomic step;
    what the worker does unlocked, the backend and the callers interleave freely.

    `System` is the whole: the controller's fields, the one-thread executor and the sessions the backend has handed out.
    Tokens and sessions are numbered in the order they are made. */
module Controller {
  import opened Options

  datatype State = Stopped | Starting | Running | Stopping | Unavailable | Failed

  datatype Reason = NoReason | UserStop | BackendMissing | StartFailed | StopFailed | ProcessRestartRequired
    | RuntimeExited

  datatype Snapshot = Snapshot(state: State, reason: Reason) {
    predicate Active() {
      state == Starting || state == Running || state == Stopping || (state == Failed && reason == StopFailed)
    }
  }

  datatype Job = OpenJob(token: nat) | DisposeJob(owned: Option<nat>, health: bool)

  /** Where the worker thread is. `Calling` is inside backend.open, `Disposing` and `Closing` inside Session.close. */
  datatype Worker =
    | Idle
    | Checking(token: nat)
    | Calling(token: nat)
    | Returned(token: nat, made: Option<nat>, failure: Reason)
    | Disposing(token: nat, made: Option<nat>, failure: Reason)
    | Disposed(token: nat, made: Option<nat>, failure: Reason, clean: bool)
    | Closing(owned: Option<nat>, health: bool)
    | Closed(owned: Option<nat>, health: bool, clean: bool)

  datatype System = System(
    snapshot: Snapshot,
    cancellation: Option<nat>,  // the current token
    session: Option<nat>,
    closed: bool,
    cancelled: set<nat>,        // tokens on which cancel() was called
    queue: seq<Job>,            // accepted by the executor, not started yet
    shutDown: bool,             // executor.shutdown() was called
    worker: Worker,
    live: set<nat>,             // sessions opened and not successfully closed
    tokens: nat,
    sessions: nat)

  const INITIAL := System(Snapshot(Stopped, NoReason), None, None, false, {}, [], false, Idle, {}, 0, 0)

  /** How backend.open ends: a session, null, Unavailable, or any other exception. */
  datatype Outcome = Returns | ReturnsNull | ThrowsUnavailable | Throws

  datatype Action =
    | Start(freshProcessRequired: bool)
    | Stop
    | CheckHealth(alive: bool)
    | Close
    | Take
    | Check
    | OpenReturns(outcome: Outcome)
    | Commit
    | DisposeReturns(ok: bool)
    | SettleOpen
    | SettleDispose

  predicate IsWorkerAction(a: Action) {
    !a.Start? && !a.Stop? && !a.CheckHealth? && !a.Close?
  }

  // ---------------------------------------------------------------- the steps

  function Started(s: System, spent: bool): System {
    if s.closed || s.snapshot.Active() then s
    else if spent then s.(snapshot := Snapshot(Unavailable, ProcessRestartRequired))
    else s.(cancellation := Some(s.tokens), tokens := s.tokens + 1, snapshot := Snapshot(Starting, NoReason),
            queue := s.queue + [OpenJob(s.tokens)])
  }

  predicate StartAccepted(s: System, spent: bool) {
    !s.closed && !s.snapshot.Active() && !spent
  }

  predicate StopAccepted(s: System) {
    s.snapshot.Active() && s.snapshot.state != Stopping
  }

  /** stop(). On an executor that is shut down, execute throws after the state has already changed. */
  function StopCalled(s: System): System {
    if !StopAccepted(s) then s
    else
      var t := s.(cancelled := s.cancelled + (if s.cancellation.Some? then {s.cancellation.value} else {}),
                  snapshot := Snapshot(Stopping, UserStop));
      if (s.snapshot.state == Running || s.snapshot.state == Failed) && !s.shutDown
      then t.(queue := s.queue + [DisposeJob(s.session, false)]) else t
  }

  function HealthChecked(s: System, alive: bool): System {
    if s.closed || s.snapshot.state != Running || alive then s
    else
      s.(cancelled := s.cancelled + (if s.cancellation.Some? then {s.cancellation.value} else {}),
         snapshot := Snapshot(Stopping, RuntimeExited),
         queue := if s.shutDown then s.queue else s.queue + [DisposeJob(s.session, true)])
  }

  function CloseCalled(s: System): System {
    if s.closed then s else StopCalled(s.(closed := true)).(shutDown := true)
  }

  /** The first locked region of open. */
  function Committed(s: System): System
    requires s.worker.Returned?
  {
    if s.worker.token !in s.cancelled && s.worker.failure == NoReason
    then s.(session := s.worker.made, snapshot := Snapshot(Running, NoReason), worker := Idle)
    else s.(worker := Disposing(s.worker.token, s.worker.made, s.worker.failure))
  }

  /** The second locked region of open. */
  function OpenSettled(s: System): System
    requires s.worker.Disposed?
  {
    var t := s.(worker := Idle);
    if !s.worker.clean then t.(session := s.worker.made, snapshot := Snapshot(Failed, StopFailed))
    else if s.worker.token in s.cancelled then t.(snapshot := Snapshot(Stopped, UserStop))
    else t.(snapshot := Snapshot(if s.worker.failure == BackendMissing then Unavailable else Failed, s.worker.failure))
  }

  /** The locked region of the jobs that stop and checkHealth submit. */
  function DisposeSettled(s: System): System
    requires s.worker.Closed?
  {
    var t := s.(worker := Idle, session := if s.worker.clean then None else s.session);
    if s.worker.health then t.(snapshot := Snapshot(Failed, if s.worker.clean then RuntimeExited else StopFailed))
    else t.(snapshot := if s.worker.clean then Snapshot(Stopped, UserStop) else Snapshot(Failed, StopFailed))
  }

  function Without(live: set<nat>, owned: Option<nat>, clean: bool): set<nat> {
    if clean && owned.Some? then live - {owned.value} else live
  }

  predicate Enabled(s: System, a: Action) {
    match a
    case Start(_) => true
    case Stop => true
    case CheckHealth(_) => true
    case Close => true
    case Take => s.worker.Idle? && s.queue != []
    case Check => s.worker.Checking?
    case OpenReturns(_) => s.worker.Calling?
    case Commit => s.worker.Returned?
    case DisposeReturns(ok) => // closing no session cannot fail
      || (s.worker.Disposing? && (s.worker.made.None? ==> ok))
      || (s.worker.Closing? && (s.worker.owned.None? ==> ok))
    case SettleOpen => s.worker.Disposed?
    case SettleDispose => s.worker.Closed?
  }

  function OpenEnded(s: System, outcome: Outcome): System
    requires s.worker.Calling?
  {
    match outcome
    case Returns => s.(worker := Returned(s.worker.token, Some(s.sessions), NoReason), live := s.live + {s.sessions},
      sessions := s.sessions + 1)
    case ReturnsNull => s.(worker := Returned(s.worker.token, None, StartFailed))
    case ThrowsUnavailable => s.(worker := Returned(s.worker.token, None, BackendMissing))
    case Throws => s.(worker := Returned(s.worker.token, None, StartFailed))
  }

  function Apply(s: System, a: Action): System
    requires Enabled(s, a)
  {
    match a
    case Start(spent) => Started(s, spent)
    case Stop => StopCalled(s)
    case CheckHealth(alive) => HealthChecked(s, alive)
    case Close => CloseCalled(s)
    case Take =>
      s.(queue := s.queue[1..],
         worker := match s.queue[0] case OpenJob(token) => Checking(token) case DisposeJob(owned, health) =>
           Closing(owned, health))
    case Check =>
      s.(worker := if s.worker.token in s.cancelled then Returned(s.worker.token, None,
        StartFailed) else Calling(s.worker.token))
    case OpenReturns(outcome) => OpenEnded(s, outcome)
    case Commit => Committed(s)
    case DisposeReturns(ok) =>
      if s.worker.Disposing?
      then s.(worker := Disposed(s.worker.token, s.worker.made, s.worker.failure, ok),
        live := Without(s.live, s.worker.made, ok))
      else s.(worker := Closed(s.worker.owned, s.worker.health, ok), live := Without(s.live, s.worker.owned, ok))
    case SettleOpen => OpenSettled(s)
    case SettleDispose => DisposeSettled(s)
  }

  // ---------------------------------------------------------------- the invariant

  function Held(s: Option<nat>): set<nat> {
    if s.Some? then {s.value} else {}
  }

  predicate NoJob(s: System) {
    s.queue == [] && s.worker.Idle?
  }

  /** The job in flight is a start with the current token, and owns whatever is live. */
  predicate OpenInFlight(s: System) {
    && s.session.None?
    && s.cancellation.Some?
    && var token := s.cancellation.value;
      || (s.queue == [OpenJob(token)] && s.worker.Idle? && s.live == {})
      || (s.queue == [] && s.worker == Checking(token) && s.live == {})
      || (s.queue == [] && s.worker == Calling(token) && s.live == {})
      || (s.queue == [] && s.worker.Returned? && s.worker.token == token && s.live == Held(s.worker.made)
          && (s.worker.made.Some? <==> s.worker.failure == NoReason) &&
            s.worker.failure in {NoReason, StartFailed, BackendMissing})
      || (s.queue == [] && s.worker.Disposing? && s.worker.token == token && s.live == Held(s.worker.made)
          && (s.worker.made.Some? <==> s.worker.failure == NoReason) &&
            s.worker.failure in {NoReason, StartFailed, BackendMissing}
          && (s.worker.failure == NoReason ==> token in s.cancelled))
      || (s.queue == [] && s.worker.Disposed? && s.worker.token == token
          && s.live == (if s.worker.clean then {} else Held(s.worker.made)) && (!s.worker.clean ==> s.worker.made.Some?)
          && (s.worker.made.Some? <==> s.worker.failure == NoReason) &&
            s.worker.failure in {NoReason, StartFailed, BackendMissing}
          && (s.worker.failure == NoReason ==> token in s.cancelled))
  }

  /** The job in flight disposes of the session the controller holds, for the reason the controller gives. */
  predicate DisposeInFlight(s: System) {
    var health := s.snapshot.reason == RuntimeExited;
    && s.session.Some?
    && (|| (s.queue == [DisposeJob(s.session, health)] && s.worker.Idle? && s.live == Held(s.session))
        || (s.queue == [] && s.worker == Closing(s.session, health) && s.live == Held(s.session))
        || (s.queue == [] && s.worker.Closed? && s.worker.owned == s.session && s.worker.health == health
            && s.live == if s.worker.clean then {} else Held(s.session)))
  }

  /** STOPPING with nobody left to do the stopping. */
  predicate Wedged(s: System) {
    && s.snapshot == Snapshot(Stopping, UserStop) && NoJob(s)
    && s.closed && s.session.Some? && s.live == Held(s.session)
  }

  predicate Inv(s: System) {
    && s.shutDown == s.closed
    && (s.cancellation.Some? ==> s.cancellation.value < s.tokens)
    && (forall t :: t in s.cancelled ==> t < s.tokens)
    && (forall x :: x in s.live ==> x < s.sessions)
    && (s.snapshot.Active() ==> s.cancellation.Some?)
    && match s.snapshot.state
      case Starting => OpenInFlight(s) && s.cancellation.value !in s.cancelled && !s.closed
      case Running => NoJob(s) && s.session.Some? && s.live == Held(s.session) &&
        s.cancellation.value !in s.cancelled && !s.closed
      case Stopping =>
        && (s.snapshot.reason == UserStop || s.snapshot.reason == RuntimeExited)
        && (|| Wedged(s)
            || DisposeInFlight(s)
            || (OpenInFlight(s) && s.cancellation.value in s.cancelled && s.snapshot.reason == UserStop))
      case Failed =>
        if s.snapshot.reason == StopFailed then NoJob(s) && s.session.Some? && s.live == Held(s.session)
        else NoJob(s) && s.session.None? && s.live == {}
      case Stopped => NoJob(s) && s.session.None? && s.live == {}
      case Unavailable => NoJob(s) && s.session.None? && s.live == {}
  }

  lemma InitialInv()
    ensures Inv(INITIAL)
  {
  }

  // The callers' regions.

  lemma StartKeepsInv(s: System, spent: bool)
    requires Inv(s)
    ensures Inv(Started(s, spent))
  {
  }

  lemma StopKeepsInv(s: System)
    requires Inv(s)
    ensures Inv(StopCalled(s))
  {
  }

  lemma HealthKeepsInv(s: System, alive: bool)
    requires Inv(s)
    ensures Inv(HealthChecked(s, alive))
  {
  }

  lemma CloseKeepsInv(s: System)
    requires Inv(s)
    ensures Inv(CloseCalled(s))
  {
  }

  // The worker's steps.

  lemma TakeKeepsInv(s: System)
    requires Inv(s) && Enabled(s, Take)
    ensures Inv(Apply(s, Take))
  {
  }

  lemma OpeningKeepsInv(s: System, a: Action)
    requires Inv(s) && Enabled(s, a) && (a.Check? || a.OpenReturns? || a.Commit? || a.SettleOpen?)
    ensures Inv(Apply(s, a))
  {
  }

  lemma DisposingKeepsInv(s: System, a: Action)
    requires Inv(s) && Enabled(s, a) && (a.DisposeReturns? || a.SettleDispose?)
    ensures Inv(Apply(s, a))
  {
  }

  lemma StepInv(s: System, a: Action)
    requires Inv(s) && Enabled(s, a)
    ensures Inv(Apply(s, a))
  {
    hide Inv, Started, StopCalled, HealthChecked, CloseCalled;
    match a
    case Start(spent) => StartKeepsInv(s, spent);
    case Stop => StopKeepsInv(s);
    case CheckHealth(alive) => HealthKeepsInv(s, alive);
    case Close => CloseKeepsInv(s);
    case Take => TakeKeepsInv(s);
    case Check => OpeningKeepsInv(s, a);
    case OpenReturns(_) => OpeningKeepsInv(s, a);
    case Commit => OpeningKeepsInv(s, a);
    case SettleOpen => OpeningKeepsInv(s, a);
    case DisposeReturns(_) => DisposingKeepsInv(s, a);
    case SettleDispose => DisposingKeepsInv(s, a);
  }

  // ---------------------------------------------------------------- runs

  /** Every action of the run is possible when its turn comes. */
  predicate Legal(s: System, run: seq<Action>)
    decreases run
  {
    run == [] || (Enabled(s, run[0]) && Legal(Apply(s, run[0]), run[1..]))
  }

  function After(s: System, run: seq<Action>): System
    requires Legal(s, run)
    decreases run
  {
    if run == [] then s else After(Apply(s, run[0]), run[1..])
  }

  lemma {:induction false} RunInv(s: System, run: seq<Action>)
    requires Inv(s) && Legal(s, run)
    ensures Inv(After(s, run))
    decreases run
  {
    hide Inv, Apply, Enabled;
    if run != [] {
      StepInv(s, run[0]);
      RunInv(Apply(s, run[0]), run[1..]);
    }
  }

  function JobCount(s: System): nat {
    |s.queue| + if s.worker.Idle? then 0 else 1
  }

  /** In every reachable state at most one session is open and at most one job exists; a controller that is not active
      holds, owns and does nothing; and the fields that start, stop and checkHealth dereference are there. */
  lemma SessionConservation(run: seq<Action>, spent: bool)
    requires Legal(INITIAL, run)
    ensures var s := After(INITIAL, run);
      && |s.live| <= 1 && JobCount(s) <= 1
      && (!s.snapshot.Active() ==> s.session.None? && s.live == {} && JobCount(s) == 0)
      && (StartAccepted(s, spent) ==> s.session.None? && s.live == {} && JobCount(s) == 0)
      && (s.snapshot.state == Running ==> s.session.Some? && s.live == {s.session.value})
      && (s.snapshot.Active() ==> s.cancellation.Some?)
  {
    InitialInv();
    RunInv(INITIAL, run);
  }

  // ---------------------------------------------------------------- stop beats commit

  predicate NoStartAccepted(s: System, run: seq<Action>)
    requires Legal(s, run)
    decreases run
  {
    run != [] ==>
      && (run[0].Start? ==> !StartAccepted(s, run[0].freshProcessRequired))
      && NoStartAccepted(Apply(s, run[0]), run[1..])
  }

  predicate Quiet(s: System) {
    s.snapshot.state != Starting && s.snapshot.state != Running
  }

  lemma QuietStep(s: System, a: Action)
    requires Inv(s) && Quiet(s) && Enabled(s, a)
    requires a.Start? ==> !StartAccepted(s, a.freshProcessRequired)
    ensures Quiet(Apply(s, a))
  {
  }

  lemma {:induction false} QuietRun(s: System, run: seq<Action>)
    requires Inv(s) && Quiet(s) && Legal(s, run) && NoStartAccepted(s, run)
    ensures Quiet(After(s, run))
    decreases run
  {
    hide Inv, Apply, Enabled, Quiet;
    if run != [] {
      QuietStep(s, run[0]);
      StepInv(s, run[0]);
      QuietRun(Apply(s, run[0]), run[1..]);
    }
  }

  /** After a stop that was accepted, the controller is not RUNNING again before a start is accepted,
      whatever an opening that was already under way comes back with. */
  lemma StopBeatsCommit(before: seq<Action>, after: seq<Action>)
    requires Legal(INITIAL, before)
    requires var s := After(INITIAL, before); s.snapshot.Active() && s.snapshot.state != Stopping
    requires Legal(Apply(After(INITIAL, before), Stop), after)
    requires NoStartAccepted(Apply(After(INITIAL, before), Stop), after)
    ensures After(Apply(After(INITIAL, before), Stop), after).snapshot.state != Running
  {
    InitialInv();
    RunInv(INITIAL, before);
    var s := After(INITIAL, before);
    StepInv(s, Stop);
    QuietRun(Apply(s, Stop), after);
  }

  // ---------------------------------------------------------------- stopping comes to an end

  /** Worker steps that are still needed to finish the job in flight. */
  function Rank(s: System): nat {
    if s.queue != [] then (if s.queue[0].OpenJob? then 6 else 3)
    else match s.worker
      case Idle => 0
      case Checking(_) => 5
      case Calling(_) => 4
      case Returned(_, _, _) => 3
      case Disposing(_, _, _) => 2
      case Disposed(_, _, _, _) => 1
      case Closing(_, _) => 2
      case Closed(_, _, _) => 1
  }

  /** The clean end of a stop: a user's stop ends in STOPPED, the disposal of a dead session in FAILED. */
  function CleanEnd(reason: Reason): Snapshot {
    if reason == UserStop then Snapshot(Stopped, UserStop) else Snapshot(Failed, RuntimeExited)
  }

  /** The ends of a stop that began for `reason` with the session `held`: nothing is held any more, or closing failed
      and the session is still the one that was held. */
  predicate Settled(t: System, reason: Reason, held: Option<nat>) {
    && NoJob(t)
    && (|| (t.snapshot == CleanEnd(reason) && t.session.None? && t.live == {})
        || (t.snapshot == Snapshot(Failed, StopFailed) && t.session.Some? && t.live == Held(t.session)
            && (held.Some? ==> t.session == held)))
  }

  /** While the controller is STOPPING and not wedged, the worker has something to do. */
  lemma WorkerCanMove(s: System) returns (a: Action)
    requires Inv(s) && s.snapshot.state == Stopping && !Wedged(s)
    ensures IsWorkerAction(a) && Enabled(s, a)
  {
    if s.queue != [] { a := Take; }
    else {
      match s.worker
      case Checking(_) => a := Check;
      case Calling(_) => a := OpenReturns(Throws);
      case Returned(_, _, _) => a := Commit;
      case Disposing(_, _, _) => a := DisposeReturns(true);
      case Disposed(_, _, _, _) => a := SettleOpen;
      case Closing(_, _) => a := DisposeReturns(true);
      case Closed(_, _, _) => a := SettleDispose;
    }
  }

  /** Nothing has ended yet, and only the worker changes the rank, downwards. */
  predicate StillStopping(s: System, t: System, a: Action) {
    && t.snapshot == s.snapshot && !Wedged(t) && t.session == s.session
    && (if IsWorkerAction(a) then Rank(t) < Rank(s) else Rank(t) == Rank(s))
  }

  /** One step of anybody: it stays STOPPING for the same reason, or it settles. */
  lemma StoppingStep(s: System, a: Action)
    requires Inv(s) && s.snapshot.state == Stopping && !Wedged(s) && Enabled(s, a)
    ensures Settled(Apply(s, a), s.snapshot.reason, s.session) || StillStopping(s, Apply(s, a), a)
    ensures Rank(s) > 0
  {
    if IsWorkerAction(a) { WorkerStopsOn(s, a); } else { CallersLeaveStopping(s, a); }
  }

  lemma CallersLeaveStopping(s: System, a: Action)
    requires s.snapshot.state == Stopping && !Wedged(s) && Enabled(s, a) && !IsWorkerAction(a)
    requires Inv(s)
    ensures StillStopping(s, Apply(s, a), a) && Rank(s) > 0
  {
  }

  lemma WorkerStopsOn(s: System, a: Action)
    requires Inv(s) && s.snapshot.state == Stopping && !Wedged(s) && Enabled(s, a) && IsWorkerAction(a)
    ensures Settled(Apply(s, a), s.snapshot.reason, s.session) || StillStopping(s, Apply(s, a), a)
    ensures Rank(s) > 0
  {
  }

  function WorkerSteps(run: seq<Action>): nat {
    if run == [] then 0 else (if IsWorkerAction(run[0]) then 1 else 0) + WorkerSteps(run[1..])
  }

  /** A stopping controller that is not wedged settles within Rank(s) worker steps, however callers interleave;
      at every moment before that it is still STOPPING, for the same reason. */
  lemma {:induction false} StoppingSettles(s: System, run: seq<Action>) returns (k: nat)
    requires Inv(s) && s.snapshot.state == Stopping && !Wedged(s)
    requires Legal(s, run) && WorkerSteps(run) >= Rank(s)
    ensures k <= |run| && Legal(s, run[..k]) && Settled(After(s, run[..k]), s.snapshot.reason, s.session)
    ensures forall j :: 0 <= j < k ==> Legal(s, run[..j]) && After(s, run[..j]).snapshot == s.snapshot
    decreases run
  {
    hide Inv, Apply, Enabled, Settled, Wedged, Rank;
    StoppingStep(s, run[0]) by { StoppingPositive(s); }
    var a, t := run[0], Apply(s, run[0]);
    StepInv(s, a);
    if Settled(t, s.snapshot.reason, s.session) {
      k := 1;
      assert run[..1] == [a] && [a][1..] == [];
      assert run[..0] == [];
      assert After(s, [a]) == After(t, []) == t;
    } else {
      var n := StoppingSettles(t, run[1..]);
      k := n + 1;
      assert run[..k][1..] == run[1..][..n];
      forall j | 0 <= j < k ensures Legal(s, run[..j]) && After(s, run[..j]).snapshot == s.snapshot {
        if j > 0 { assert run[..j][1..] == run[1..][..j - 1]; }
      }
    }
  }

  lemma StoppingPositive(s: System)
    requires Inv(s) && s.snapshot.state == Stopping && !Wedged(s)
    ensures Rank(s) > 0
  {
  }

  /** While a controller that was not closed is STOPPING, a job is there that will end it. */
  lemma OpenControllerHasJob(s: System)
    requires Inv(s) && !s.closed && s.snapshot.state == Stopping
    ensures !NoJob(s) && !Wedged(s)
  {
  }

  /** An accepted stop of a controller that was not closed ends in STOPPED, or in FAILED/STOP_FAILED with a session that
      could not be closed: the one that was held, if one was. */
  lemma StopSettles(before: seq<Action>, after: seq<Action>) returns (k: nat)
    requires Legal(INITIAL, before)
    requires var s := After(INITIAL, before); s.snapshot.Active() && s.snapshot.state != Stopping && !s.closed
    requires Legal(Apply(After(INITIAL, before), Stop), after) && WorkerSteps(after) >= 6
    ensures var s := After(INITIAL, before);
      var u := Apply(s, Stop);
      && u.snapshot == Snapshot(Stopping, UserStop)
      && s.cancellation.Some? && u.cancelled == s.cancelled + {s.cancellation.value}
      && k <= |after| && Legal(u, after[..k])
      && (forall j :: 0 <= j < k ==> Legal(u, after[..j]) && After(u, after[..j]).snapshot == u.snapshot)
      && var t := After(u, after[..k]);
      && NoJob(t)
      && (|| (t.snapshot == Snapshot(Stopped, UserStop) && t.session.None? && t.live == {})
          || (t.snapshot == Snapshot(Failed, StopFailed) && t.session.Some? && t.live == {t.session.value}
              && (s.session.Some? ==> t.session == s.session)))
  {
    hide Legal, After, Inv, Wedged;
    var s := After(INITIAL, before);
    InitialInv();
    RunInv(INITIAL, before);
    StopKeepsInv(s);
    StopIsStopping(s);
    var u := Apply(s, Stop);
    OpenControllerHasJob(u);
    hide StopCalled, Rank, Apply;
    k := StoppingSettles(u, after);
  }

  lemma StopIsStopping(s: System)
    requires Inv(s) && s.snapshot.Active() && s.snapshot.state != Stopping && !s.closed
    ensures var u := Apply(s, Stop);
      && u.snapshot == Snapshot(Stopping, UserStop) && !u.closed && Rank(u) <= 6 && u.session == s.session
      && s.cancellation.Some? && u.cancelled == s.cancelled + {s.cancellation.value}
  {
  }

  /** In every reachable state a check changes something exactly when it finds a RUNNING controller's session dead. */
  lemma LiveSessionIsLeft(run: seq<Action>, alive: bool)
    requires Legal(INITIAL, run)
    ensures var s := After(INITIAL, run);
      Apply(s, CheckHealth(alive)) == s <==> s.snapshot.state == Running ==> alive
  {
    hide Legal, After;
    InitialInv();
    RunInv(INITIAL, run);
  }

  /** A check of a RUNNING controller that finds its session dead makes it STOPPING with its token cancelled. Until it
      settles it stays so, and it settles in FAILED/RUNTIME_EXITED with nothing held, or in FAILED/STOP_FAILED with the
      session that could not be closed. */
  lemma HealthSettles(before: seq<Action>, after: seq<Action>) returns (k: nat)
    requires Legal(INITIAL, before) && After(INITIAL, before).snapshot.state == Running
    requires Legal(Apply(After(INITIAL, before), CheckHealth(false)), after) && WorkerSteps(after) >= 3
    ensures var s := After(INITIAL, before);
      var u := Apply(s, CheckHealth(false));
      && u.snapshot == Snapshot(Stopping, RuntimeExited)
      && s.cancellation.Some? && u.cancelled == s.cancelled + {s.cancellation.value}
      && k <= |after| && Legal(u, after[..k])
      && (forall j :: 0 <= j < k ==> Legal(u, after[..j]) && After(u, after[..j]).snapshot == u.snapshot)
      && var t := After(u, after[..k]);
      && NoJob(t)
      && (|| (t.snapshot == Snapshot(Failed, RuntimeExited) && t.session.None? && t.live == {})
          || (t.snapshot == Snapshot(Failed, StopFailed) && t.session == s.session && t.session.Some?
              && t.live == {t.session.value}))
  {
    hide Legal, After, Inv, Wedged;
    var s := After(INITIAL, before);
    InitialInv();
    RunInv(INITIAL, before);
    HealthKeepsInv(s, false);
    DeadSessionIsDisposed(s);
    var u := Apply(s, CheckHealth(false));
    OpenControllerHasJob(u);
    hide HealthChecked, Rank, Apply;
    k := StoppingSettles(u, after);
  }

  lemma DeadSessionIsDisposed(s: System)
    requires Inv(s) && s.snapshot.state == Running
    ensures var u := Apply(s, CheckHealth(false));
      && u.snapshot == Snapshot(Stopping, RuntimeExited) && !u.closed && Rank(u) == 3
      && s.cancellation.Some? && u.cancelled == s.cancelled + {s.cancellation.value}
      && s.session.Some? && u.session == s.session
  {
  }

  // ---------------------------------------------------------------- starting comes to an end

  predicate Undisturbed(run: seq<Action>) {
    Stop !in run && Close !in run
  }

  /** The end of a start whose backend.open ended with `outcome`. */
  predicate Opened(t: System, outcome: Outcome) {
    && NoJob(t)
    && match outcome
       case Returns => t.snapshot == Snapshot(Running, NoReason) && t.session.Some? && t.live == {t.session.value}
       case ThrowsUnavailable => t.snapshot == Snapshot(Unavailable, BackendMissing) && t.session.None? && t.live == {}
       case ReturnsNull => t.snapshot == Snapshot(Failed, StartFailed) && t.session.None? && t.live == {}
       case Throws => t.snapshot == Snapshot(Failed, StartFailed) && t.session.None? && t.live == {}
  }

  /** What the worker knows of the end of backend.open: nothing before it, and afterwards how it ended. */
  predicate Knows(s: System, known: Option<Outcome>) {
    if s.worker.Returned? || s.worker.Disposing? || s.worker.Disposed? then
      known.Some? && match known.value
        case Returns => s.worker.failure == NoReason
        case ThrowsUnavailable => s.worker.failure == BackendMissing
        case ReturnsNull => s.worker.failure == StartFailed
        case Throws => s.worker.failure == StartFailed
    else known.None?
  }

  /** One step of anybody while STARTING: the worker gets on, and nobody else changes anything. */
  lemma StartingStep(s: System, a: Action, known: Option<Outcome>) returns (next: Option<Outcome>)
    requires Inv(s) && s.snapshot.state == Starting && Enabled(s, a) && !a.Stop? && !a.Close? && Knows(s, known)
    ensures next == if a.OpenReturns? then Some(a.outcome) else known
    ensures var t := Apply(s, a);
      || (t.snapshot == s.snapshot && Knows(t, next) &&
            if IsWorkerAction(a) then Rank(t) < Rank(s) else Rank(t) == Rank(s))
      || (next.Some? && Opened(t, next.value))
    ensures a.OpenReturns? ==> known == None
    ensures Rank(s) > 0
  {
    next := if a.OpenReturns? then Some(a.outcome) else known;
  }

  lemma StartingPositive(s: System)
    requires Inv(s) && s.snapshot.state == Starting
    ensures Rank(s) > 0
  {
  }

  /** A start that is neither stopped nor closed ends as backend.open does, within Rank(s) worker steps. */
  lemma {:induction false} StartingSettles(s: System, run: seq<Action>, known: Option<Outcome>)
    returns (k: nat, outcome: Outcome)
    requires Inv(s) && s.snapshot.state == Starting && Knows(s, known)
    requires Legal(s, run) && Undisturbed(run) && WorkerSteps(run) >= Rank(s)
    ensures k <= |run| && Legal(s, run[..k]) && Opened(After(s, run[..k]), outcome)
    ensures if known.Some? then known.value == outcome else OpenReturns(outcome) in run[..k]
    ensures forall j :: 0 <= j < k ==> Legal(s, run[..j]) && After(s, run[..j]).snapshot == s.snapshot
    decreases run
  {
    hide Inv, Apply, Enabled, Opened, Knows, Rank;
    StartingPositive(s);
    var a, t := run[0], Apply(s, run[0]);
    assert a in run;
    var next := StartingStep(s, a, known);
    StepInv(s, a);
    if next.Some? && Opened(t, next.value) {
      k, outcome := 1, next.value;
      assert run[..1] == [a] && [a][1..] == [];
      assert run[..0] == [];
      assert After(s, [a]) == After(t, []) == t;
    } else {
      var n;
      n, outcome := StartingSettles(t, run[1..], next);
      k := n + 1;
      assert run[..k][1..] == run[1..][..n];
      assert run[..k] == [a] + run[1..][..n];
      forall j | 0 <= j < k ensures Legal(s, run[..j]) && After(s, run[..j]).snapshot == s.snapshot {
        if j > 0 { assert run[..j][1..] == run[1..][..j - 1]; }
      }
    }
  }

  /** A start of an open, inactive controller in a fresh process makes it STARTING, and without a stop or close it ends
      as backend.open does: RUNNING with the session, or UNAVAILABLE or FAILED with nothing held. */
  lemma StartSettles(before: seq<Action>, after: seq<Action>) returns (k: nat, outcome: Outcome)
    requires Legal(INITIAL, before)
    requires var s := After(INITIAL, before); !s.closed && !s.snapshot.Active()
    requires Legal(Apply(After(INITIAL, before), Start(false)), after) && Undisturbed(after) && WorkerSteps(after) >= 6
    ensures var u := Apply(After(INITIAL, before), Start(false));
      && u.snapshot == Snapshot(Starting, NoReason)
      && k <= |after| && Legal(u, after[..k]) && OpenReturns(outcome) in after[..k]
      && Opened(After(u, after[..k]), outcome)
      && (forall j :: 0 <= j < k ==> Legal(u, after[..j]) && After(u, after[..j]).snapshot == u.snapshot)
  {
    hide Legal, After, Inv, Opened;
    var s := After(INITIAL, before);
    InitialInv();
    RunInv(INITIAL, before);
    StartKeepsInv(s, false);
    var u := Apply(s, Start(false));
    StartIsQueued(s);
    hide Started, Rank, Apply, Knows;
    k, outcome := StartingSettles(u, after, None);
  }

  lemma StartIsQueued(s: System)
    requires Inv(s) && !s.closed && !s.snapshot.Active()
    ensures var u := Apply(s, Start(false));
      u.snapshot == Snapshot(Starting, NoReason) && Rank(u) == 6 && Knows(u, None)
  {
  }

  // ---------------------------------------------------------------- the one way to get stuck

  /** Exactly a stop on a closed controller whose cleanup failed before wedges it: the executor refuses the new job. */
  lemma WedgeExactly(s: System, a: Action)
    requires Inv(s) && Enabled(s, a) && !Wedged(s)
    ensures Wedged(Apply(s, a)) <==> a.Stop? && s.closed && s.snapshot == Snapshot(Failed, StopFailed)
  {
  }

  /** Nobody can change anything any more. */
  lemma {:induction false} WedgedForever(s: System, run: seq<Action>)
    requires Inv(s) && Wedged(s) && Legal(s, run)
    ensures After(s, run) == s
    decreases run
  {
    if run != [] {
      assert Apply(s, run[0]) == s;
      WedgedForever(s, run[1..]);
    }
  }

  /** A controller can get to RUNNING. */
  lemma RunningIsReachable() returns (run: seq<Action>)
    ensures Legal(INITIAL, run) && After(INITIAL, run).snapshot.state == Running
  {
    hide Legal, After, Inv;
    var s1 := Apply(INITIAL, Start(false));
    var s2 := Apply(s1, Take);
    var s3 := Apply(s2, Check);
    var s4 := Apply(s3, OpenReturns(Returns));
    run := EmptyRun(Apply(s4, Commit));
    run := Prepend(s4, Commit, run);
    run := Prepend(s3, OpenReturns(Returns), run);
    run := Prepend(s2, Check, run);
    run := Prepend(s1, Take, run);
    run := Prepend(INITIAL, Start(false), run);
  }

  /** And from there it can be wedged: close, have the cleanup fail, stop again. */
  lemma WedgeIsReachable(s: System) returns (run: seq<Action>)
    requires s.snapshot.state == Running && NoJob(s) && s.session.Some? && s.live == Held(s.session) && !s.closed &&
      !s.shutDown
    ensures Legal(s, run) && Wedged(After(s, run))
  {
    hide Legal, After, Inv;
    var s1 := Apply(s, Close);
    var s2 := Apply(s1, Take);
    var s3 := Apply(s2, DisposeReturns(false));
    var s4 := Apply(s3, SettleDispose);
    run := EmptyRun(Apply(s4, Stop));
    run := Prepend(s4, Stop, run);
    run := Prepend(s3, SettleDispose, run);
    run := Prepend(s2, DisposeReturns(false), run);
    run := Prepend(s1, Take, run);
    run := Prepend(s, Close, run);
  }

  lemma EmptyRun(s: System) returns (run: seq<Action>)
    ensures run == [] && Legal(s, run) && After(s, run) == s
  {
    run := [];
  }

  lemma Prepend(s: System, a: Action, tail: seq<Action>) returns (run: seq<Action>)
    requires Enabled(s, a) && Legal(Apply(s, a), tail)
    ensures Legal(s, run) && After(s, run) == After(Apply(s, a), tail)
  {
    run := [a] + tail;
    assert run[1..] == tail;
  }

  // ---------------------------------------------------------------- the class

  /** RuntimeController. `queue` and `shutDown` are its executor, `cancelled` the flags of the Cancellation objects;
      the ghost fields are the world around it. */
  class RuntimeController {
    var snapshot: Snapshot
    var cancellation: Option<nat>
    var session: Option<nat>
    var closed: bool
    var queue: seq<Job>
    var shutDown: bool
    var cancelled: set<nat>
    var tokens: nat
    ghost var worker: Worker
    ghost var live: set<nat>
    ghost var sessions: nat

    ghost function View(): System
      reads this
    {
      System(snapshot, cancellation, session, closed, cancelled, queue, shutDown, worker, live, tokens, sessions)
    }

    constructor ()
      ensures View() == INITIAL
    {
      snapshot, cancellation, session, closed := Snapshot(Stopped, NoReason), None, None, false;
      queue, shutDown, cancelled, tokens := [], false, {}, 0;
      worker, live, sessions := Idle, {}, 0;
    }

    method Transition(state: State, reason: Reason)
      modifies this`snapshot
      ensures snapshot == Snapshot(state, reason)
    {
      snapshot := Snapshot(state, reason);
    }

    /** worker.execute, false when it throws. */
    method Execute(job: Job) returns (accepted: bool)
      modifies this`queue
      ensures accepted == !shutDown && queue == if shutDown then old(queue) else old(queue) + [job]
    {
      accepted := !shutDown;
      if accepted { queue := queue + [job]; }
    }

    /** start */
    method Start(freshProcessRequired: bool) returns (accepted: bool)
      requires Inv(View())
      modifies this
      ensures Inv(View()) && View() == Started(old(View()), freshProcessRequired)
      ensures accepted <==> StartAccepted(old(View()), freshProcessRequired)
      ensures accepted <==>
        && !old(closed) && !freshProcessRequired
        && old(snapshot.state) !in {Starting, Running, Stopping} && old(snapshot) != Snapshot(Failed, StopFailed)
      ensures accepted ==> snapshot == Snapshot(Starting, NoReason) && cancellation == Some(old(tokens))
      ensures accepted ==> tokens == old(tokens) + 1 && queue == old(queue) + [OpenJob(old(tokens))]
      ensures !accepted ==> View() == if freshProcessRequired && !old(closed) && !old(snapshot).Active()
        then old(View()).(snapshot := Snapshot(Unavailable, ProcessRestartRequired)) else old(View())
      ensures session == old(session) && cancelled == old(cancelled) && closed == old(closed)
    {
      StepInv(View(), Action.Start(freshProcessRequired));
      if closed || snapshot.Active() { return false; }
      if freshProcessRequired {
        Transition(Unavailable, ProcessRestartRequired);
        return false;
      }
      var current := tokens;
      tokens := tokens + 1;
      cancellation := Some(current);
      Transition(Starting, NoReason);
      accepted := Execute(OpenJob(current));
    }

    /** The body of stop; `thrown` says that the executor refused the job, after the state had changed. */
    method StopOwned() returns (accepted: bool, thrown: bool)
      requires snapshot.Active() ==> cancellation.Some?
      modifies this
      ensures View() == StopCalled(old(View()))
      ensures accepted <==> StopAccepted(old(View())) && !thrown
      ensures thrown <==> StopAccepted(old(View())) && old(shutDown) && old(snapshot.state) != Starting
    {
      if !snapshot.Active() || snapshot.state == Stopping { return false, false; }
      cancelled := cancelled + {cancellation.value};
      var previous := snapshot.state;
      Transition(Stopping, UserStop);
      if previous == Running || previous == Failed {
        var owned := session;
        var submitted := Execute(DisposeJob(owned, false));
        if !submitted { return false, true; }
      }
      return true, false;
    }

    /** stop */
    method Stop() returns (accepted: bool, thrown: bool)
      requires Inv(View())
      modifies this
      ensures Inv(View()) && View() == StopCalled(old(View()))
      ensures accepted <==> StopAccepted(old(View())) && !thrown
      ensures thrown <==> old(closed) && old(snapshot) == Snapshot(Failed, StopFailed)
      ensures accepted || thrown <==>
        old(snapshot.state) in {Starting, Running} || old(snapshot) == Snapshot(Failed, StopFailed)
      ensures !accepted && !thrown ==> View() == old(View())
      ensures accepted || thrown ==>
        && snapshot == Snapshot(Stopping, UserStop)
        && old(cancellation).Some? && cancelled == old(cancelled) + {old(cancellation).value}
      ensures accepted && old(snapshot.state) != Starting ==> queue == old(queue) + [DisposeJob(old(session), false)]
      ensures !accepted || old(snapshot.state) == Starting ==> queue == old(queue)
      ensures session == old(session) && cancellation == old(cancellation) && closed == old(closed)
    {
      StepInv(View(), Action.Stop);
      accepted, thrown := StopOwned();
    }

    /** checkHealth; `alive` is what the session reports, which is only asked while RUNNING. */
    method CheckHealth(alive: bool)
      requires Inv(View())
      modifies this
      ensures Inv(View()) && View() == HealthChecked(old(View()), alive)
      ensures old(snapshot.state) != Running || alive ==> View() == old(View())
      ensures old(snapshot.state) == Running && !alive ==>
        && snapshot == Snapshot(Stopping, RuntimeExited)
        && old(cancellation).Some? && cancelled == old(cancelled) + {old(cancellation).value}
        && queue == old(queue) + [DisposeJob(old(session), true)]
      ensures session == old(session) && cancellation == old(cancellation) && closed == old(closed)
    {
      StepInv(View(), Action.CheckHealth(alive));
      if closed || snapshot.state != Running { return; }
      assert session.Some?;
      if alive { return; }
      cancelled := cancelled + {cancellation.value};
      var owned := session;
      Transition(Stopping, RuntimeExited);
      var submitted := Execute(DisposeJob(owned, true));
    }

    /** close */
    method Close()
      requires Inv(View())
      modifies this
      ensures Inv(View()) && View() == CloseCalled(old(View()))
      ensures closed && shutDown && (old(closed) ==> View() == old(View()))
      ensures !old(closed) && !old(snapshot).Active() ==> snapshot == old(snapshot) && queue == old(queue)
      ensures !old(closed) && old(snapshot.state) in {Starting, Running} ==> snapshot == Snapshot(Stopping, UserStop)
      ensures !old(closed) && old(snapshot) == Snapshot(Failed, StopFailed) ==> snapshot == Snapshot(Stopping, UserStop)
      ensures snapshot != old(snapshot) ==>
        && old(cancellation).Some? && cancelled == old(cancelled) + {old(cancellation).value}
      ensures !old(closed) && (old(snapshot.state) == Running || old(snapshot) == Snapshot(Failed, StopFailed)) ==>
        queue == old(queue) + [DisposeJob(old(session), false)]
      ensures session == old(session) && cancellation == old(cancellation)
    {
      StepInv(View(), Action.Close);
      if closed { return; }
      closed := true;
      var accepted, thrown := StopOwned();
      shutDown := true;
    }

    /** The first locked region of the job that opens a session. */
    method CommitOpen(current: nat, made: Option<nat>, failure: Reason) returns (running: bool)
      requires Inv(View()) && worker == Returned(current, made, failure)
      modifies this
      ensures Inv(View()) && View() == Committed(old(View()))
      ensures running <==> current !in cancelled && failure == NoReason
      ensures running ==> snapshot == Snapshot(Running, NoReason) && session == made && made.Some? && worker == Idle
      ensures !running ==>
        snapshot == old(snapshot) && session == old(session) && worker == Disposing(current, made, failure)
    {
      StepInv(View(), Commit);
      running := current !in cancelled && failure == NoReason;
      if running {
        session := made;
        Transition(Running, NoReason);
        worker := Idle;
      } else {
        worker := Disposing(current, made, failure);
      }
    }

    /** The second locked region of that job. */
    method SettleOpened(current: nat, made: Option<nat>, failure: Reason, clean: bool)
      requires Inv(View()) && worker == Disposed(current, made, failure, clean)
      modifies this
      ensures Inv(View()) && View() == OpenSettled(old(View()))
      ensures !clean ==> snapshot == Snapshot(Failed, StopFailed) && session == made && made.Some?
      ensures clean ==> session == old(session) == None
      ensures clean && current in cancelled ==> snapshot == Snapshot(Stopped, UserStop)
      ensures clean && current !in cancelled ==>
        || (failure == BackendMissing && snapshot == Snapshot(Unavailable, BackendMissing))
        || (failure == StartFailed && snapshot == Snapshot(Failed, StartFailed))
    {
      StepInv(View(), SettleOpen);
      if !clean {
        session := made;
        Transition(Failed, StopFailed);
      } else if current in cancelled {
        Transition(Stopped, UserStop);
      } else {
        Transition(if failure == BackendMissing then Unavailable else Failed, failure);
      }
      worker := Idle;
    }

    /** The locked region of the jobs that dispose of a session. */
    method SettleDisposed(owned: Option<nat>, health: bool, clean: bool)
      requires Inv(View()) && worker == Closed(owned, health, clean)
      modifies this
      ensures Inv(View()) && View() == DisposeSettled(old(View()))
      ensures clean && health ==> session == None && snapshot == Snapshot(Failed, RuntimeExited)
      ensures clean && !health ==> session == None && snapshot == Snapshot(Stopped, UserStop)
      ensures !clean ==> session == old(session) && session.Some? && snapshot == Snapshot(Failed, StopFailed)
    {
      StepInv(View(), SettleDispose);
      if clean { session := None; }
      if health {
        Transition(Failed, if clean then RuntimeExited else StopFailed);
      } else {
        Transition(if clean then Stopped else Failed, if clean then UserStop else StopFailed);
      }
      worker := Idle;
    }
  }
}
