/** OwnedEclNativePort.java: the lifecycle's port on top of one OwnedEclProcess, by calls that no other thread
    disturbs. */
module OwnedPort {
  import opened Options
  import opened Framing
  import opened Pipes
  import opened OwnedProcess

  /** How OwnedEclProcess.start ends. */
  datatype Launch = Launched | LaunchFailed

  class OwnedEclNativePort {
    var process: OwnedEclProcess?
    var attempted: bool
    ghost var launches: nat

    constructor ()
      ensures process == null && !attempted && launches == 0
    {
      process, attempted, launches := null, false, 0;
    }

    /** One launch at most, whether it came to anything or not. */
    ghost predicate Valid()
      reads this
    {
      (process != null ==> attempted) && launches == if attempted then 1 else 0
    }

    /** start; false stands for an exception. */
    method Start(launch: Launch) returns (ok: bool)
      requires Valid()
      modifies this
      ensures Valid() && attempted && launches <= 1
      ensures ok <==> !old(attempted) && launch == Launched
      ensures old(attempted) ==> process == old(process)
      ensures !old(attempted) ==> (process != null <==> ok) && (ok ==> fresh(process) && process.View() == FRESH)
    {
      if attempted { return false; }
      attempted := true;
      launches := launches + 1;
      if launch == LaunchFailed { return false; }
      process := new OwnedEclProcess(false);
      ok := true;
    }

    /** stop; it returns normally only without a process or after an orderly stop, and a failed stop stays a failure
        even when the child has retired. */
    method Stop(sink: Sink, source: Source, exit: Option<int>, late: bool) returns (ok: bool)
      requires Valid()
      modifies process, sink, source
      ensures Valid() && process == old(process)
      ensures process == null ==> ok
      ensures process != null ==> (ok <==> process.gracefulClosed)
      ensures process != null && ok && !old(process.gracefulClosed) ==>
        sink.written == old(sink.written) + Frame([]) && StopHere(old(source.unread)) && exit == Some(0)
      ensures process != null && old(process.closed && !process.gracefulClosed) ==> !ok
    {
      hide Frame, StopHere;
      if process == null { return true; }
      ghost var before := process.View();
      var result := process.Close(sink, source, exit, late);
      assert process.View().gracefulClosed == process.gracefulClosed &&
        before.gracefulClosed == old(process.gracefulClosed);
      ok := result == ShutDown;
    }
  }
}
