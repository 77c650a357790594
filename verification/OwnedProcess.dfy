/** The state of one OwnedEclProcess and each region of its code that touches it, under the ownership lock or through an
    atomic or volatile field. Which thread enters which region when is the matter of module Protocol. */
module OwnedProcess {
  import opened Options
  import opened Utf8
  import opened Utf16
  import opened Response
  import opened Pipes
  import opened Framing
  import opened Runner
  import opened ClientText

  datatype Fields = Fields(
    admitted: bool, closed: bool, gracefulClosed: bool, hasChild: bool, launchFinished: bool,
    reaperStarted: bool, retirementConfirmed: bool, ioShutdown: bool)

  const FRESH := Fields(false, false, false, false, false, false, false, false)

  function Retired(f: Fields): Fields {
    f.(closed := true, reaperStarted := true)
  }

  function StoppedInOrder(f: Fields): Fields {
    f.(closed := true, gracefulClosed := true, retirementConfirmed := true)
  }

  /** The operating system process, of which the client sees whether it has exited, and how. */
  class Process {
    var exitCode: Option<int>

    constructor ()
      ensures exitCode.None?
    {
      exitCode := None;
    }
  }

  /** What isAlive answers. */
  predicate ReportsAlive(f: Fields, exited: bool) {
    !f.closed && f.hasChild && !exited
  }

  datatype Admission = Granted | Busy | Refused

  // ---------------------------------------------------------------- readFrame

  /** A response that readFrame accepts is at the front of `s`. */
  predicate ResponseHere(s: seq<byte>) {
    && |s| >= 4 && 0 < HeaderValue(s[..4]) <= MAX_RESPONSE_BYTES
    && |s| >= 4 + HeaderValue(s[..4]) && DecodeText(s[4..4 + HeaderValue(s[..4])]).Some?
  }

  function FrontText(s: seq<byte>): seq<uint16>
    requires ResponseHere(s)
  {
    DecodeText(s[4..4 + HeaderValue(s[..4])]).value
  }

  /** The loop of readFrame over the bytes of a response. */
  method HasNul(bytes: seq<byte>) returns (found: bool)
    ensures found <==> 0 in bytes
  {
    for i := 0 to |bytes|
      invariant 0 !in bytes[..i]
    {
      if bytes[i] == 0 { return true; }
      assert bytes[..i + 1] == bytes[..i] + [bytes[i]];
    }
    assert bytes[..|bytes|] == bytes;
    found := false;
  }

  /** readFrame. Nothing but a whole response is accepted, however the pipe cuts it. */
  method ReadFrame(source: Source) returns (text: Option<seq<uint16>>)
    modifies source
    ensures text.Some? ==>
      && ResponseHere(old(source.unread)) && text == Some(FrontText(old(source.unread)))
      && source.unread == old(source.unread)[4 + HeaderValue(old(source.unread)[..4])..]
    ensures Faultless(old(source.script)) ==>
      Faultless(source.script) && (ResponseHere(old(source.unread)) ==> text.Some?)
  {
    hide HeaderValue, DecodeText;
    ghost var s := source.unread;
    var header := new byte[4];
    var status := ReadExact(source, header, 4);
    if status != 1 { return None; }
    assert header[..] == header[..4] == s[..4];
    var length := HeaderValue(header[..]);
    if length == 0 || length > MAX_RESPONSE_BYTES { return None; }
    var buffer := new byte[length];
    status := ReadExact(source, buffer, length);
    if status != 1 { return None; }
    var bytes := buffer[..];
    assert bytes == buffer[..length] == s[4..4 + length];
    assert s[4..][length..] == s[4 + length..];
    var nul := HasNul(bytes);
    NulIsNotDecoded(bytes);
    text := if nul then None else DecodeText(bytes);
  }

  lemma NulIsNotDecoded(bytes: seq<byte>)
    ensures 0 in bytes ==> DecodeText(bytes).None?
  {
  }

  /** The job that request submits. */
  method SendRequest(sink: Sink, source: Source, bytes: seq<byte>) returns (text: Option<seq<uint16>>)
    requires |bytes| <= MAX_REQUEST
    modifies sink, source
    ensures text.Some? ==>
      && sink.written == old(sink.written) + Frame(bytes)
      && ResponseHere(old(source.unread)) && text == Some(FrontText(old(source.unread)))
    ensures Faultless(old(sink.script)) && Faultless(old(source.script)) && ResponseHere(old(source.unread)) ==>
      text.Some?
  {
    hide DecodeText, HeaderValue, Frame;
    var sent;
    ghost var done;
    sent, done := WriteFrame(sink, bytes);
    text := None;
    if sent { text := ReadFrame(source); }
  }

  /** The first half of the job that close submits: the stop and its acknowledgement. */
  method SendStop(sink: Sink, source: Source) returns (acknowledged: bool)
    modifies sink, source
    ensures acknowledged ==> sink.written == old(sink.written) + Frame([]) && StopHere(old(source.unread))
    ensures Faultless(old(sink.script)) && Faultless(old(source.script)) && StopHere(old(source.unread)) ==>
      acknowledged
  {
    hide HeaderValue, Frame;
    var sent;
    ghost var done;
    sent, done := WriteFrame(sink, []);
    if !sent { return false; }
    ghost var s := source.unread;
    var header := new byte[4];
    var status := ReadExact(source, header, 4);
    assert status == 1 ==> header[..] == header[..4] == s[..4];
    acknowledged := status == 1 && HeaderValue(header[..]) == 0;
  }

  /** How a call ends that no other thread disturbs. */
  datatype CallResult = Delivered(text: seq<uint16>) | ShutDown | NotAdmitted | NotEncodable | ExchangeFailed

  predicate MayBeSent(text: Option<seq<uint16>>) {
    EncodeText(text, MAX_REQUEST).Some? && EncodeText(text, MAX_REQUEST) != Some([])
  }

  class OwnedEclProcess {
    var admitted: bool
    var closed: bool
    var gracefulClosed: bool
    var child: Process?
    var launchFinished: bool
    var reaperStarted: bool
    var retirementConfirmed: bool
    var ioShutdown: bool

    ghost function View(): Fields
      reads this
    {
      Fields(admitted, closed, gracefulClosed, child != null, launchFinished, reaperStarted, retirementConfirmed,
        ioShutdown)
    }

    /** The constructor before it submits the launch; false when the calling thread was interrupted. */
    constructor (interrupted: bool)
      ensures View() == FRESH.(ioShutdown := interrupted)
    {
      admitted, closed, gracefulClosed, child := false, false, false, null;
      launchFinished, reaperStarted, retirementConfirmed, ioShutdown := false, false, false, interrupted;
    }

    /** admit: at most one caller holds the admission, and none gets it on a closed client. */
    method Admit() returns (admission: Admission)
      modifies this`admitted
      ensures admission == Busy <==> old(admitted)
      ensures admission == Granted <==> !old(admitted) && !closed
      ensures View() == if admission == Granted then old(View()).(admitted := true) else old(View())
    {
      if admitted { return Busy; }
      admitted := true;
      if closed {
        admitted := false;
        return Refused;
      }
      admission := Granted;
    }

    method Release()
      modifies this`admitted
      ensures !admitted && View() == old(View()).(admitted := false)
    {
      admitted := false;
    }

    /** Publication of a child, also of one that is late. */
    method Publish(created: Process)
      modifies this`child
      ensures child == created && View() == old(View()).(hasChild := true)
    {
      child := created;
    }

    method FinishLaunch()
      modifies this`launchFinished
      ensures View() == old(View()).(launchFinished := true)
    {
      launchFinished := true;
    }

    /** The locked part of retire: only the first to retire starts the reaper. */
    method Retire() returns (startsReaper: bool)
      modifies this`closed, this`reaperStarted
      ensures View() == Retired(old(View())) && closed && reaperStarted
      ensures startsReaper <==> !old(reaperStarted)
    {
      closed := true;
      if reaperStarted { return false; }
      reaperStarted := true;
      startsReaper := true;
    }

    method ConfirmRetirement()
      modifies this`retirementConfirmed
      ensures View() == old(View()).(retirementConfirmed := true)
    {
      retirementConfirmed := true;
    }

    /** The end of the stop exchange: false when the child's exit was not a zero exit. */
    method StopInOrder(exitCode: int) returns (ok: bool)
      modifies this`closed, this`gracefulClosed, this`retirementConfirmed
      ensures ok <==> exitCode == 0
      ensures View() == if ok then StoppedInOrder(old(View())) else old(View())
      ensures ok ==> closed && gracefulClosed && retirementConfirmed
    {
      if exitCode != 0 { return false; }
      closed, gracefulClosed, retirementConfirmed := true, true, true;
      ok := true;
    }

    method ShutdownIo()
      modifies this`ioShutdown
      ensures View() == old(View()).(ioShutdown := true)
    {
      ioShutdown := true;
    }

    method IsAlive() returns (alive: bool)
      ensures alive <==> ReportsAlive(View(), child != null && child.exitCode.Some?)
      ensures alive <==> !closed && child != null && child.exitCode.None?
    {
      alive := !closed && child != null && child.exitCode.None?;
    }

    /** The job of the constructor: `created` is what the launcher returns, None if it throws. Whatever happens, the
        launch counts as finished at the end, and every child that was created is published before that. */
    method Launch(created: Option<Process>, source: Source, late: bool) returns (ok: bool)
      requires child == null
      modifies this`child, this`launchFinished, source
      ensures View() == old(View()).(launchFinished := true, hasChild := child != null)
      ensures child == (if created.None? || closed || late then null else created.value)
      ensures ok ==> child != null && ResponseHere(old(source.unread))
      ensures ok ==> Some(FrontText(old(source.unread))) == DecodeText(HELLO)
      ensures Faultless(old(source.script)) && child != null && ResponseHere(old(source.unread)) ==>
        (ok <==> Some(FrontText(old(source.unread))) == DecodeText(HELLO))
    {
      hide DecodeText, ResponseHere, FrontText, HELLO, HeaderValue, Faultless;
      ok := false;
      if !closed && !late && created.Some? {
        Publish(created.value);
        var text := ReadFrame(source);
        ok := text.Some? && text == DecodeText(HELLO);
      }
      FinishLaunch();
    }

    /** The reaper, once it has nothing to wait for: the launch has ended without a child, or the child has exited. */
    method Reap()
      requires child == null ==> launchFinished
      requires child != null ==> child.exitCode.Some?
      modifies this`retirementConfirmed, this`ioShutdown
      ensures View() == old(View()).(retirementConfirmed := true, ioShutdown := true)
      ensures !ReportsAlive(View(), child != null && child.exitCode.Some?)
    {
      ConfirmRetirement();
      ShutdownIo();
    }

    /** The failure branch of exchange, and the release that follows. */
    method GiveUp()
      modifies this`admitted, this`closed, this`reaperStarted
      ensures !admitted && View() == Retired(old(View())).(admitted := false)
    {
      var startsReaper := Retire();
      Release();
    }

    /** exchange, for a request: whatever goes wrong retires the child. */
    method Exchange(bytes: seq<byte>, sink: Sink, source: Source, late: bool) returns (text: Option<seq<uint16>>)
      requires |bytes| <= MAX_REQUEST
      modifies this`closed, this`reaperStarted, sink, source
      ensures View() == if text.None? then Retired(old(View())) else old(View())
      ensures late ==> text.None? && sink.written == old(sink.written)
      ensures text.Some? ==>
        && sink.written == old(sink.written) + Frame(bytes)
        && ResponseHere(old(source.unread)) && text == Some(FrontText(old(source.unread)))
      ensures !late && Faultless(old(sink.script)) && Faultless(old(source.script)) ==>
        (ResponseHere(old(source.unread)) ==> text.Some?)
    {
      hide HeaderValue, Frame, ResponseHere, FrontText;
      text := None;
      if !late { text := SendRequest(sink, source, bytes); }
      if text.None? { var startsReaper := Retire(); }
    }

    /** The rest of request, once there is something to send. */
    method ExchangeAndRelease(bytes: seq<byte>, sink: Sink, source: Source, late: bool) returns (result: CallResult)
      requires |bytes| <= MAX_REQUEST
      modifies this`admitted, this`closed, this`reaperStarted, sink, source
      ensures result == ExchangeFailed || result.Delivered?
      ensures View() == (if result.Delivered? then old(View()) else Retired(old(View()))).(admitted := false)
      ensures late ==> result == ExchangeFailed && sink.written == old(sink.written)
      ensures result.Delivered? ==>
        && sink.written == old(sink.written) + Frame(bytes)
        && ResponseHere(old(source.unread)) && result.text == FrontText(old(source.unread))
      ensures !late && Faultless(old(sink.script)) && Faultless(old(source.script)) ==>
        (ResponseHere(old(source.unread)) ==> result.Delivered?)
    {
      hide Frame, ResponseHere, FrontText, OwnedEclProcess.View, Retired;
      var text := Exchange(bytes, sink, source, late);
      Release();
      result := if text.None? then ExchangeFailed else Delivered(text.value);
    }

    /** request; `late` says that the caller was interrupted or its deadline passed before its job began.
        Only a failed exchange retires the child. */
    method Request(request: Option<seq<uint16>>, sink: Sink, source: Source, late: bool) returns (result: CallResult)
      modifies this, sink, source
      ensures result == NotAdmitted <==> old(admitted || closed)
      ensures result == NotEncodable <==> !old(admitted || closed) && !MayBeSent(request)
      ensures result == NotAdmitted || result == NotEncodable ==>
        View() == old(View()) && sink.written == old(sink.written) && source.unread == old(source.unread)
      ensures result == ExchangeFailed ==>
        View() == Retired(old(View())) && (late ==> sink.written == old(sink.written))
      ensures result.Delivered? ==>
        && !late && View() == old(View())
        && sink.written == old(sink.written) + Frame(EncodeText(request, MAX_REQUEST).value)
        && ResponseHere(old(source.unread)) && result.text == FrontText(old(source.unread))
      ensures !old(admitted || closed) && MayBeSent(request) && !late ==>
        (Faultless(old(sink.script)) && Faultless(old(source.script)) && ResponseHere(old(source.unread)) ==>
          result.Delivered?)
      ensures result != ShutDown
    {
      hide EncodeText, DecodeText, HeaderValue, Frame, ResponseHere, FrontText, StopHere;
      ghost var before := View();
      var admission := Admit();
      if admission != Granted { return NotAdmitted; }
      AdmittedAndReleased(before);
      hide OwnedEclProcess.View, Retired;
      var bytes := EncodeText(request, MAX_REQUEST);
      if bytes.None? || bytes.value == [] {
        Release();
        return NotEncodable;
      }
      EncodedIsShort(request);
      result := ExchangeAndRelease(bytes.value, sink, source, late);
    }

    /** close; `exit` is what the child's exit code turns out to be, if it exits in time. */
    method Close(sink: Sink, source: Source, exit: Option<int>, late: bool) returns (result: CallResult)
      modifies this, sink, source
      ensures old(gracefulClosed) ==> result == ShutDown && View() == old(View()) && sink.written == old(sink.written)
      ensures !old(gracefulClosed) ==> (result == NotAdmitted <==> old(admitted || closed))
      ensures result == NotAdmitted ==> View() == old(View()) && sink.written == old(sink.written)
      ensures result == ShutDown && !old(gracefulClosed) ==>
        && View() == StoppedInOrder(old(View())).(ioShutdown := true)
        && sink.written == old(sink.written) + Frame([]) && StopHere(old(source.unread)) && exit == Some(0)
      ensures result == ExchangeFailed ==> View() == Retired(old(View()))
      ensures !old(gracefulClosed || admitted || closed) && !late && exit == Some(0) ==>
        (Faultless(old(sink.script)) && Faultless(old(source.script)) && StopHere(old(source.unread)) ==>
          result == ShutDown)
      ensures result == ShutDown || result == NotAdmitted || result == ExchangeFailed
    {
      hide Frame, StopHere, Header, HeaderValue, Faultless;
      if gracefulClosed { return ShutDown; }
      var admission := Admit();
      if admission != Granted { return NotAdmitted; }
      var stopped := false;
      if !late {
        stopped := SendStop(sink, source);
        if stopped { stopped := exit.Some?; }
        if stopped { stopped := StopInOrder(exit.value); }
      }
      if !stopped {
        GiveUp();
        return ExchangeFailed;
      }
      ShutdownIo();
      Release();
      result := ShutDown;
    }
  }

  /** What an admitted call leaves behind when it has given the admission back. */
  lemma AdmittedAndReleased(f: Fields)
    requires !f.admitted
    ensures f.(admitted := true).(admitted := false) == f &&
      Retired(f.(admitted := true)).(admitted := false) == Retired(f)
  {
  }

  lemma EncodedIsShort(request: Option<seq<uint16>>)
    ensures EncodeText(request, MAX_REQUEST).Some? ==> |EncodeText(request, MAX_REQUEST).value| <= MAX_REQUEST
  {
  }
}
