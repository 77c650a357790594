/** The start / request / stop state of starintel_ecl_adapter.c. ECL itself is a parameter: whether it boots and loads,
    and a function from the calls made so far to the value the dispatcher returns. */
module Adapter {
  import opened Options
  import opened Utf8
  import opened Memory
  import opened EnvelopeGrammar
  import opened Envelope
  import opened Response

  const MAX_DIRECTORY_BYTES := 4096

  /** The arguments of the one fixed Lisp function; an absent field is NIL. */
  datatype Call = Call(op: seq<uint32>, payload: Option<seq<uint32>>, capability: Option<seq<uint32>>)

  function CallOf(fields: Fields): Call
    requires OP in fields
  {
    Call(fields[OP], Field(fields, PAYLOAD), Field(fields, CAPABILITY))
  }

  /** One call was added, and its three arguments are the three fields. */
  predicate CallCarries(calls: seq<Call>, before: seq<Call>, fields: Fields) {
    && |calls| == |before| + 1 && calls[..|before|] == before && OP in fields
    && var call := calls[|before|];
    && call.op == fields[OP]
    && call.payload == (if PAYLOAD in fields then Some(fields[PAYLOAD]) else None)
    && call.capability == (if CAPABILITY in fields then Some(fields[CAPABILITY]) else None)
  }

  /** What the world does during a start. */
  datatype World = World(directoryExists: bool, rootLength: nat, boots: bool, loads: bool, dispatcherFound: bool)

  /** Why a start is turned away before it touches ECL, in the order of the checks. */
  function Refusal(directory: Option<seq<byte>>, world: World, started: bool, bootedOnce: bool,
    managed: bool): Option<string> {
    if directory.None? || UntilNul(directory.value) == [] then Some("runtime-directory-required")
    else if |UntilNul(directory.value)| > MAX_DIRECTORY_BYTES || !WellFormed(UntilNul(directory.value)) then
      Some("invalid-runtime-directory")
    else if !world.directoryExists then Some("runtime-directory-missing")
    else if started then Some("already-started")
    else if bootedOnce then Some("process-restart-required")
    else if managed then Some("jvm-runtime-embedding-unverified")
    else None
  }

  predicate GoodDirectory(directory: Option<seq<byte>>) {
    directory.Some? && 0 < |UntilNul(directory.value)| <= MAX_DIRECTORY_BYTES && WellFormed(UntilNul(directory.value))
  }

  /** Each refusal with everything that leads to it; a start on a good, existing directory is refused for the state of
      the process alone. */
  lemma RefusalIs(directory: Option<seq<byte>>, world: World, started: bool, bootedOnce: bool, managed: bool)
    ensures var refusal := Refusal(directory, world, started, bootedOnce, managed);
      && (directory.None? || UntilNul(directory.value) == [] <==> refusal == Some("runtime-directory-required"))
      && (directory.Some? && UntilNul(directory.value) != [] && !GoodDirectory(directory) <==>
            refusal == Some("invalid-runtime-directory"))
      && (GoodDirectory(directory) && !world.directoryExists <==> refusal == Some("runtime-directory-missing"))
      && var usable := GoodDirectory(directory) && world.directoryExists;
      && (usable && started <==> refusal == Some("already-started"))
      && (usable && !started && bootedOnce <==> refusal == Some("process-restart-required"))
      && (usable && !started && !bootedOnce && managed <==> refusal == Some("jvm-runtime-embedding-unverified"))
      && (usable && !started && !bootedOnce && !managed <==> refusal == None)
  {
    hide WellFormed;
  }

  class Runtime {
    const heap: Heap
    const lisp: seq<Call> -> LispValue
    var locked: bool
    var started: bool
    var bootedOnce: bool
    var hasDispatcher: bool
    ghost var boots: nat
    ghost var shutdowns: nat
    var calls: seq<Call>  // everything the dispatcher has been asked

    constructor (heap: Heap, lisp: seq<Call> -> LispValue)
      requires forall history :: ValidValue(lisp(history))
      ensures Valid() && this.heap == heap && this.lisp == lisp
      ensures !started && !bootedOnce && calls == []
    {
      this.heap, this.lisp := heap, lisp;
      locked, started, bootedOnce, hasDispatcher := false, false, false, false;
      boots, shutdowns, calls := 0, 0, [];
    }

    /** Between any two calls the mutex is free, ECL has been booted at most once, every boot but
        that of a running ECL has been shut down, and the dispatcher is known exactly while started. */
    ghost predicate Valid()
      reads this
    {
      && !locked
      && (started <==> hasDispatcher) && (started ==> bootedOnce)
      && boots == (if bootedOnce then 1 else 0)
      && shutdowns + (if started then 1 else 0) == boots
      && forall history :: ValidValue(lisp(history))
    }

    method Lock()
      requires !locked
      modifies this`locked
      ensures locked
    {
      locked := true;
    }

    method Unlock()
      requires locked
      modifies this`locked
      ensures !locked
    {
      locked := false;
    }

    /** starintel_error */
    method Message(reason: string) returns (error: array?<byte>)
      modifies heap
      ensures old(heap.calls) <= heap.calls
      ensures error == null ==> heap.live == old(heap.live)
      ensures error != null ==>
        fresh(error) && heap.live == old(heap.live) + {error} && error[..] == Ascii(reason) + [0]
    {
      var text := Ascii(reason) + [0];
      error := heap.MallocBytes(|text|);
      if error == null { return; }
      forall k | 0 <= k < |text| { error[k] := text[k]; }
    }

    /** A scratch path: allocated, used and freed. */
    method Scratch(n: nat) returns (ok: bool)
      modifies heap
      ensures heap.live == old(heap.live) && heap.calls == old(heap.calls) + 1
      ensures ok <==> !heap.fails(old(heap.calls))
    {
      var path := heap.MallocBytes(n);
      ok := path != null;
      heap.Free(path);
    }

    /** starintel_ecl_start_impl from the check of the directory to the check of the embedding. */
    method Check(directory: Option<seq<byte>>, world: World, managed: bool) returns (refusal: Option<string>)
      requires Valid() && (directory.Some? ==> 0 in directory.value)
      modifies this`locked
      ensures refusal == Refusal(directory, world, started, bootedOnce, managed)
      ensures locked <==> refusal.None?
    {
      if directory.None? || directory.value[0] == 0 { return Some("runtime-directory-required"); }
      var length := BoundedStrlen(directory.value, MAX_DIRECTORY_BYTES + 1);
      if length > MAX_DIRECTORY_BYTES { return Some("invalid-runtime-directory"); }
      assert directory.value[..length] == UntilNul(directory.value);
      var valid, count := Count(directory.value[..length], 0);
      if !valid { return Some("invalid-runtime-directory"); }
      if !world.directoryExists { return Some("runtime-directory-missing"); }
      Lock();
      if started { Unlock(); return Some("already-started"); }
      if bootedOnce { Unlock(); return Some("process-restart-required"); }
      if managed { Unlock(); return Some("jvm-runtime-embedding-unverified"); }
      refusal := None;
    }

    /** cl_boot, loading and looking up the dispatcher. A failure on any path shuts ECL down again. */
    method Boot(world: World) returns (failure: Option<string>)
      requires locked && !started && !bootedOnce && !hasDispatcher && boots == shutdowns == 0
      modifies this, heap
      ensures locked && calls == old(calls)
      ensures heap.live == old(heap.live) && heap.calls == old(heap.calls) + (if world.boots then 1 else 0)
      ensures failure.None? <==>
        world.boots && !heap.fails(old(heap.calls)) && world.loads && world.dispatcherFound
      ensures failure in {None, Some("allocation-failed"), Some("runtime-assets-unavailable")}
      ensures failure == Some("allocation-failed") <==> world.boots && heap.fails(old(heap.calls))
      ensures bootedOnce && boots == 1 && (started <==> failure.None?) && (hasDispatcher <==> started)
      ensures shutdowns == if started then 0 else 1
    {
      bootedOnce, boots := true, boots + 1;
      var failed := !world.boots;
      if !failed {
        var ok := Scratch(world.rootLength + 19);
        if !ok {
          shutdowns := shutdowns + 1;
          return Some("allocation-failed");
        }
        failed := !world.loads;
      }
      if !failed { hasDispatcher := world.dispatcherFound; }
      if !hasDispatcher { failed := true; }
      if failed {
        shutdowns := shutdowns + 1;
        return Some("runtime-assets-unavailable");
      }
      started := true;
      failure := None;
    }

    /** starintel_ecl_start and, when `managed`, starintel_ecl_start_managed. */
    method Start(directory: Option<seq<byte>>, world: World, managed: bool)
      returns (status: int, error: array?<byte>, ghost reason: Option<string>)
      requires Valid() && (directory.Some? ==> 0 in directory.value)
      modifies this, heap
      ensures Valid() && calls == old(calls) && old(heap.calls) <= heap.calls
      ensures status == if reason.None? then 0 else -1
      ensures var refusal := Refusal(directory, world, old(started), old(bootedOnce), managed);
        && (refusal.Some? ==> reason == refusal && started == old(started) && bootedOnce == old(bootedOnce))
        && (refusal.None? ==> (started <==> reason.None?))
        && (refusal.None? && (forall k :: old(heap.calls) <= k < heap.calls ==> !heap.fails(k)) ==>
              (reason.None? <==> world.boots && world.loads && world.dispatcherFound))
      ensures GoodDirectory(directory) && world.directoryExists && old(started) ==> reason == Some("already-started")
      ensures GoodDirectory(directory) && world.directoryExists && !old(started) && old(bootedOnce) ==>
        reason == Some("process-restart-required")
      ensures started != old(started) ==> started && !old(bootedOnce) && reason == None
      ensures bootedOnce != old(bootedOnce) ==>
        reason in {None, Some("allocation-failed"), Some("runtime-assets-unavailable")}
      ensures bootedOnce != old(bootedOnce) && (forall k :: old(heap.calls) <= k < heap.calls ==> !heap.fails(k)) ==>
        reason != Some("allocation-failed")
      ensures error != null ==> reason.Some? && fresh(error) && error[..] == Ascii(reason.value) + [0]
      ensures heap.live == old(heap.live) + (if error == null then {} else {error})
    {
      error := null;
      var refusal := Check(directory, world, managed);
      if refusal.Some? {
        error := Message(refusal.value);
        return -1, error, refusal;
      }
      var ok := Scratch(world.rootLength + 6);
      if ok { ok := Scratch(world.rootLength + 5); }
      if !ok {
        Unlock();
        error := Message("allocation-failed");
        return -1, error, Some("allocation-failed");
      }
      var failure := Boot(world);
      Unlock();
      if failure.Some? {
        error := Message(failure.value);
        return -1, error, failure;
      }
      status, reason := 0, None;
    }

    /** starintel_ecl_stop */
    method Stop()
      requires Valid()
      modifies this
      ensures Valid() && !started && bootedOnce == old(bootedOnce) && calls == old(calls)
      ensures shutdowns == old(shutdowns) + (if old(started) then 1 else 0) && boots == old(boots)
    {
      Lock();
      if started {
        started := false;
        hasDispatcher := false;
        shutdowns := shutdowns + 1;
      }
      Unlock();
    }
  
    /** Is `request` a C string that starintel_ecl_request hands to the dispatcher, memory permitting? */
    ghost predicate Dispatchable(request: Option<seq<byte>>)
      reads this
    {
      started && request.Some? && Acceptable(UntilNul(request.value))
    }

    /** One field as a Lisp value: its characters, or NIL when the slot is empty. */
    method LispArgument(data: array?<byte>, len: nat, ghost fields: Fields, ghost name: Text)
      returns (ok: bool, value: Option<seq<uint32>>)
      requires Slot(data, len, fields, name)
      ensures ok && value == Field(fields, name)
    {
      if data == null { return true, None; }
      EncodeThenDecode(fields[name]);
      var chars;
      ok, chars := LispStringFromUtf8(data[..len]);
      value := Some(chars);
    }

    /** The dispatch step: arguments out of the envelope, the Lisp call, and its answer as a C string. */
    method Dispatch(env: EnvelopeData, ghost fields: Fields) returns (out: array?<byte>, ghost text: seq<byte>)
      requires env.Represents(fields) && OP in fields
      requires forall history :: ValidValue(lisp(history))
      modifies this`calls, heap
      ensures calls == old(calls) + [CallOf(fields)]
      ensures CallCarries(calls, old(calls), fields)
      ensures old(heap.calls) <= heap.calls
      ensures out == null ==> heap.live == old(heap.live) && !AllAllocated(heap, old(heap.calls), heap.calls)
      ensures out != null ==> fresh(out) && heap.live == old(heap.live) + {out}
      ensures out != null ==> |text| < out.Length && out[..|text|] == text && out[|text|] == 0
      ensures text == Reply(lisp(calls)) ||
        (text == ErrorText(NO_MEMORY) && !AllAllocated(heap, old(heap.calls), heap.calls))
    {
      var okOp, op := LispArgument(env.op, env.opLen, fields, OP);
      var okPayload, payload := LispArgument(env.payload, env.payloadLen, fields, PAYLOAD);
      var okCapability, capability := LispArgument(env.capability, env.capabilityLen, fields, CAPABILITY);
      assert okOp && okPayload && okCapability;  // parsed text is well formed, so no argument can be missing
      calls := calls + [Call(op.value, payload, capability)];
      out, text := Utf8Response(heap, lisp(calls));
    }
  
    /** Parse, dispatch, release the envelope. */
    method Serve(json: seq<byte>) returns (out: array?<byte>, ghost text: seq<byte>)
      requires forall history :: ValidValue(lisp(history))
      modifies this`calls, heap
      ensures old(heap.calls) <= heap.calls
      ensures out == null ==> heap.live == old(heap.live) && !AllAllocated(heap, old(heap.calls), heap.calls)
      ensures out != null ==> fresh(out) && heap.live == old(heap.live) + {out}
      ensures out != null ==> |text| < out.Length && out[..|text|] == text && out[|text|] == 0
      ensures calls == old(calls) ||
        (Acceptable(json) && OP in Parse(json).value && calls == old(calls) + [CallOf(Parse(json).value)])
      ensures calls != old(calls) ==> CallCarries(calls, old(calls), Parse(json).value)
      ensures Acceptable(json) && AllAllocated(heap, old(heap.calls), heap.calls) ==>
        calls != old(calls) && text == Reply(lisp(calls))
      ensures calls == old(calls) ==> text == ErrorText("malformed-request")
      ensures calls != old(calls) ==> text == Reply(lisp(calls)) || text == ErrorText(NO_MEMORY)
    {
      hide Acceptable, EnvelopeData.Represents, EnvelopeData.Blocks, Reply, ErrorText, CallOf, Parse;
      var env := new EnvelopeData();
      var ok, rounds := ParseEnvelope(heap, json, env);
      if !ok {
        text := ErrorText("malformed-request");
        out := ErrorJson(heap, "malformed-request");
        return;
      }
      AcceptableHasOp(json);
      ghost var fields := Parse(json).value;
      out, text := Dispatch(env, fields);
      env.Free(heap, fields);
    }

    /** starintel_ecl_request. Everything it allocates except the returned block is freed again. */
    method Request(request: Option<seq<byte>>) returns (out: array?<byte>, ghost text: seq<byte>)
      requires Valid() && (request.Some? ==> 0 in request.value || MAX_REQUEST_BYTES < |request.value|)
      modifies this, heap
      ensures Valid() && started == old(started) && bootedOnce == old(bootedOnce)
      ensures old(heap.calls) <= heap.calls
      ensures out == null ==> heap.live == old(heap.live) && !AllAllocated(heap, old(heap.calls), heap.calls)
      ensures out != null ==> fresh(out) && heap.live == old(heap.live) + {out}
      ensures out != null ==> |text| < out.Length && out[..|text|] == text && out[|text|] == 0
      ensures calls == old(calls) ||
        (Dispatchable(request) && OP in Parse(UntilNul(request.value)).value &&
         calls == old(calls) + [CallOf(Parse(UntilNul(request.value)).value)])
      ensures calls != old(calls) ==> CallCarries(calls, old(calls), Parse(UntilNul(request.value)).value)
      ensures Dispatchable(request) && AllAllocated(heap, old(heap.calls), heap.calls) ==>
        calls != old(calls) && text == Reply(lisp(calls))
      ensures request.None? ==> calls == old(calls) && text == ErrorText("request-required")
      ensures request.Some? && !old(started) ==> calls == old(calls) && text == ErrorText("not-started")
      ensures request.Some? && old(started) && !(0 < |UntilNul(request.value)| <= MAX_REQUEST_BYTES) ==>
        calls == old(calls) && text == ErrorText("request-too-large")
      ensures request.Some? && old(started) && 0 < |UntilNul(request.value)| <= MAX_REQUEST_BYTES ==>
        (calls == old(calls) ==> text == ErrorText("malformed-request"))
      ensures calls == old(calls) ==> IsErrorText(text)
      ensures calls != old(calls) ==> text == Reply(lisp(calls)) || text == ErrorText(NO_MEMORY)
    {
      hide Acceptable, Reply, ErrorText, CallOf;
      Lock();
      if request.None? {
        text := ErrorText("request-required");
        out := ErrorJson(heap, "request-required");
      } else if !started {
        text := ErrorText("not-started");
        out := ErrorJson(heap, "not-started");
      } else {
        var len := BoundedStrlen(request.value, MAX_REQUEST_BYTES + 1);
        if len == 0 || len > MAX_REQUEST_BYTES {
          UnboundedIsUnacceptable(UntilNul(request.value));
          text := ErrorText("request-too-large");
          out := ErrorJson(heap, "request-too-large");
        } else {
          assert request.value[..len] == UntilNul(request.value);
          out, text := Serve(request.value[..len]);
        }
      }
      Unlock();
    }
  }

  ghost predicate IsErrorText(text: seq<byte>) {
    || text == ErrorText("request-required") || text == ErrorText("not-started")
    || text == ErrorText("request-too-large") || text == ErrorText("malformed-request")
  }

  lemma UnboundedIsUnacceptable(json: seq<byte>)
    requires |json| == 0 || |json| > MAX_REQUEST_BYTES
    ensures !Acceptable(json)
  {
  }

  lemma AcceptableHasOp(json: seq<byte>)
    requires Acceptable(json)
    ensures Parse(json).Some? && OP in Parse(json).value
  {
    hide Skip, ReadMembers;
  }
}
