/** parse_envelope and free_envelope of starintel_ecl_envelope.h, with the ownership of every block they touch. */
module Envelope {
  import opened Options
  import opened Utf8
  import opened Memory
  import opened JsonString
  import opened EnvelopeGrammar

  const MAX_REQUEST_BYTES := MAX_STRING_BYTES

  ghost predicate Holds(data: array?<byte>, len: nat, text: Text)
    reads if data == null then {} else {data}
  {
    data != null && len < data.Length && data[..len] == EncodeAll(text) && data[len] == 0
  }

  /** A slot of the struct: null exactly when the field is absent. */
  ghost predicate Slot(data: array?<byte>, len: nat, fields: Fields, name: Text)
    reads if data == null then {} else {data}
  {
    if name in fields then Holds(data, len, fields[name]) else data == null
  }

  class EnvelopeData {
    var op: array?<byte>
    var opLen: nat
    var payload: array?<byte>
    var payloadLen: nat
    var capability: array?<byte>
    var capabilityLen: nat

    constructor ()
      ensures Cleared()
    {
      op, opLen, payload, payloadLen, capability, capabilityLen := null, 0, null, 0, null, 0;
    }

    ghost predicate Represents(fields: Fields)
      reads this, Blocks()
    {
      && fields.Keys <= NAMES
      && Slot(op, opLen, fields, OP) && Slot(payload, payloadLen, fields, PAYLOAD) &&
        Slot(capability, capabilityLen, fields, CAPABILITY)
      && (op == null || (op != payload && op != capability)) && (payload == null || payload != capability)
    }

    ghost function Blocks(): set<array<byte>>
      reads this
    {
      (if op == null then {} else {op}) + (if payload == null then {} else {payload})
      + (if capability == null then {} else {capability})
    }

    predicate Cleared()
      reads this
    {
      && op == null && payload == null && capability == null
      && opLen == 0 && payloadLen == 0 && capabilityLen == 0
    }

    // The three assignments of a value to its field.

    method TakeOp(value: array<byte>, len: nat, ghost seen: Fields, ghost text: Text)
      requires Represents(seen) && op == null && Holds(value, len, text) && value !in Blocks()
      modifies this`op, this`opLen
      ensures Represents(seen[OP := text]) && Blocks() == old(Blocks()) + {value}
    {
      hide EncodeAll;
      op, opLen := value, len;
    }

    method TakePayload(value: array<byte>, len: nat, ghost seen: Fields, ghost text: Text)
      requires Represents(seen) && payload == null && Holds(value, len, text) && value !in Blocks()
      modifies this`payload, this`payloadLen
      ensures Represents(seen[PAYLOAD := text]) && Blocks() == old(Blocks()) + {value}
    {
      hide EncodeAll;
      payload, payloadLen := value, len;
    }

    method TakeCapability(value: array<byte>, len: nat, ghost seen: Fields, ghost text: Text)
      requires Represents(seen) && capability == null && Holds(value, len, text) && value !in Blocks()
      modifies this`capability, this`capabilityLen
      ensures Represents(seen[CAPABILITY := text]) && Blocks() == old(Blocks()) + {value}
    {
      hide EncodeAll;
      capability, capabilityLen := value, len;
    }

    /** free_envelope */
    method Free(heap: Heap, ghost fields: Fields)
      requires Represents(fields) && Blocks() <= heap.live
      modifies this, heap`live
      ensures Cleared() && heap.live == old(heap.live) - old(Blocks())
    {
      heap.Free(op);
      heap.Free(payload);
      heap.Free(capability);
      op, opLen, payload, payloadLen, capability, capabilityLen := null, 0, null, 0, null, 0;
    }
  }

  /** No call of malloc numbered from `from` up to `to` failed. */
  ghost predicate AllAllocated(heap: Heap, from: nat, to: nat) {
    forall k :: from <= k < to ==> !heap.fails(k)
  }

  lemma AllocatedInParts(heap: Heap, first: nat, middle: nat, last: nat)
    requires first <= middle <= last
    ensures AllAllocated(heap, first, last) <==> AllAllocated(heap, first, middle) && AllAllocated(heap, middle, last)
    ensures AllAllocated(heap, first, first)
  {
  }

  /** skip_ws */
  method SkipBlank(json: seq<byte>, start: nat) returns (p: nat)
    requires start <= |json|
    ensures start <= p <= |json| && json[p..] == Skip(json[start..])
  {
    p := start;
    while p < |json| && (json[p] == 0x20 || json[p] == 0x09 || json[p] == 0x0A || json[p] == 0x0D)
      invariant start <= p <= |json| && Skip(json[p..]) == Skip(json[start..])
    {
      assert json[p..][1..] == json[p + 1..];
      assert json[p..][Blanks(json[p..])..] == json[p + 1..][Blanks(json[p + 1..])..];
      p := p + 1;
    }
    assert Blanks(json[p..]) == 0;
  }

  /** One string token: the cursor ends where the grammar says. */
  method ReadString(heap: Heap, json: seq<byte>, start: nat) returns (data: array?<byte>, len: nat, p: nat)
    requires start <= |json| <= MAX_REQUEST_BYTES
    modifies heap
    ensures old(heap.calls) <= heap.calls && start <= p <= |json|
    ensures data != null <==> StringHere(json[start..]) && AllAllocated(heap, old(heap.calls), heap.calls)
    ensures data == null ==> heap.live == old(heap.live)
    ensures data != null ==>
      && heap.live == old(heap.live) + {data} && fresh(data)
      && json[p..] == AfterString(json[start..]) && Holds(data, len, StringText(json[start..]))
  {
    hide Body, BodyText, BodyLength;
    assert start < |json| ==> json[start..][1..] == json[start + 1..];
    data, len, p := ParseString(heap, json, start);
    if data != null {
      assert json[start..][BodyLength(json[start + 1..]) + 2..] == json[p..];
    }
  }

  /** A member up to the end of its value. A null key leaves no block behind. */
  method ParseMember(heap: Heap, json: seq<byte>, start: nat)
    returns (key: array?<byte>, klen: nat, value: array?<byte>, vlen: nat, p: nat)
    requires start <= |json| <= MAX_REQUEST_BYTES
    modifies heap
    ensures old(heap.calls) <= heap.calls && start <= p <= |json|
    ensures key != null <==> ReadMember(json[start..]).Some? && AllAllocated(heap, old(heap.calls), heap.calls)
    ensures key == null ==> heap.live == old(heap.live)
    ensures key != null ==> var r := ReadMember(json[start..]).value;
      && Holds(key, klen, r.key) && Holds(value, vlen, r.value) && Skip(json[p..]) == r.rest
      && key != value && fresh(key) && fresh(value) && heap.live == old(heap.live) + {key, value}
  {
    hide StringHere, StringText, AfterString, Skip;
    value, vlen := null, 0;
    p := SkipBlank(json, start);
    key, klen, p := ReadString(heap, json, p);
    if key == null { return; }
    p := SkipBlank(json, p);
    if p >= |json| || json[p] != COLON {
      heap.Free(key);
      key := null;
      return;
    }
    assert json[p..][1..] == json[p + 1..];
    p := SkipBlank(json, p + 1);
    value, vlen, p := ReadString(heap, json, p);
    if value == null {
      heap.Free(key);
      key := null;
    }
  }

  lemma NamesAreAscii()
    ensures EncodeAll(OP) == OP && EncodeAll(PAYLOAD) == PAYLOAD && EncodeAll(CAPABILITY) == CAPABILITY
  {
    AsciiEncodesItself(OP);
    AsciiEncodesItself(PAYLOAD);
    AsciiEncodesItself(CAPABILITY);
  }

  /** The three comparisons of a name: its length, and its bytes. */
  lemma NameIsRead(key: array<byte>, klen: nat, name: Text)
    requires Holds(key, klen, name)
    ensures klen == 2 && key[..klen] == OP <==> name == OP
    ensures klen == 7 && key[..klen] == PAYLOAD <==> name == PAYLOAD
    ensures klen == 10 && key[..klen] == CAPABILITY <==> name == CAPABILITY
  {
    NamesAreAscii();
    hide EncodeAll;
    SameBytesSameText(name, OP);
    SameBytesSameText(name, PAYLOAD);
    SameBytesSameText(name, CAPABILITY);
  }

  lemma AbsentIsNull(env: EnvelopeData, fields: Fields)
    requires env.Represents(fields)
    ensures (env.op == null <==> OP !in fields) && (env.payload == null <==> PAYLOAD !in fields)
    ensures env.capability == null <==> CAPABILITY !in fields
  {
  }

  lemma SameBytesSameText(a: Text, b: Text)
    ensures EncodeAll(a) == EncodeAll(b) <==> a == b
  {
    EncodeThenDecode(a);
    EncodeThenDecode(b);
  }

  /** The assignment of a value to the field of its name, if that is known and free. */
  method Assign(env: EnvelopeData, key: array<byte>, klen: nat, value: array<byte>, vlen: nat,
                seenOp: bool, ghost seen: Fields, ghost name: Text, ghost text: Text) returns (ok: bool)
    requires env.Represents(seen) && (seenOp <==> OP in seen)
    requires Holds(key, klen, name) && Holds(value, vlen, text) && value !in env.Blocks()
    modifies env
    ensures ok <==> Store(seen, name, text).Some?
    ensures ok ==> env.Represents(seen[name := text]) && env.Blocks() == old(env.Blocks()) + {value}
    ensures !ok ==> env.op == old(env.op) && env.Represents(seen) && env.Blocks() == old(env.Blocks())
  {
    NameIsRead(key, klen, name);
    AbsentIsNull(env, seen);
    hide EncodeAll, Holds, Slot, EnvelopeData.Represents, EnvelopeData.Blocks;
    ok := true;
    if klen == 2 && key[..klen] == OP && !seenOp {
      env.TakeOp(value, vlen, seen, text);
    } else if klen == 7 && key[..klen] == PAYLOAD && env.payload == null {
      env.TakePayload(value, vlen, seen, text);
    } else if klen == 10 && key[..klen] == CAPABILITY && env.capability == null {
      env.TakeCapability(value, vlen, seen, text);
    } else {
      ok := false;
    }
  }

  /** Moves a value into its slot, or frees it. The key is freed either way. */
  method StoreMember(heap: Heap, env: EnvelopeData, key: array<byte>, klen: nat, value: array<byte>, vlen: nat,
                     seenOp: bool, ghost seen: Fields, ghost name: Text, ghost text: Text) returns (ok: bool)
    requires env.Represents(seen) && (seenOp <==> OP in seen)
    requires Holds(key, klen, name) && Holds(value, vlen, text)
    requires key != value && {key, value} !! env.Blocks() && {key as object, value as object} <= heap.live
    modifies env, heap`live
    ensures ok <==> Store(seen, name, text).Some?
    ensures ok ==> env.Represents(seen[name := text]) && (env.op != null <==> OP in seen[name := text])
    ensures ok ==> env.Blocks() == old(env.Blocks()) + {value} && heap.live == old(heap.live) - {key}
    ensures !ok ==> env.op == old(env.op) && env.Represents(seen) && env.Blocks() == old(env.Blocks())
    ensures !ok ==> heap.live == old(heap.live) - {key, value}
  {
    hide EncodeAll, Holds, Slot, Store, EnvelopeData.Blocks;
    ok := Assign(env, key, klen, value, vlen, seenOp, seen, name, text);
    if ok { AbsentIsNull(env, seen[name := text]); } else { heap.Free(value); }
    heap.Free(key);
  }

  /** What an accepted request is: a document of the grammar within the size bound. */
  ghost predicate Acceptable(json: seq<byte>) {
    0 < |json| <= MAX_REQUEST_BYTES && Parse(json).Some?
  }

  /** parse_envelope. The blocks it may leave behind are exactly those of the accepted fields; `rounds` counts its
      member loop. */
  method ParseEnvelope(heap: Heap, json: seq<byte>, env: EnvelopeData) returns (ok: bool, ghost rounds: nat)
    modifies heap, env
    ensures old(heap.calls) <= heap.calls
    ensures ok <==> Acceptable(json) && AllAllocated(heap, old(heap.calls), heap.calls)
    ensures ok ==> env.Represents(Parse(json).value)
    ensures ok ==> fresh(env.Blocks()) && heap.live == old(heap.live) + env.Blocks()
    ensures !ok ==> env.Cleared() && heap.live == old(heap.live)
    ensures rounds <= 4
  {
    hide Skip, ReadMembers, Store, EncodeAll;
    rounds := 0;
    env.op, env.opLen, env.payload, env.payloadLen, env.capability, env.capabilityLen := null, 0, null, 0, null, 0;
    if |json| == 0 || |json| > MAX_REQUEST_BYTES { return false, rounds; }
    assert json[0..] == json;
    var p := SkipBlank(json, 0);
    if p >= |json| || json[p] != OPEN { return false, rounds; }
    assert Skip(json)[1..] == json[p + 1..];
    p := SkipBlank(json, p + 1);
    if p < |json| && json[p] == CLOSE {
      NoMemberAtClose(json[p..]);
      return false, rounds;
    }
    ghost var fields;
    ok, p, fields, rounds := ParseMembers(heap, json, p, env);
    if !ok { return; }
    if p == |json| && env.op != null && env.opLen > 0 {
      assert HasOp(fields) by { EmptyIsEmpty(fields[OP]); }
      return;
    }
    assert OP in fields ==> (env.opLen > 0 <==> fields[OP] != []) by { if OP in fields { EmptyIsEmpty(fields[OP]); } }
    env.Free(heap, fields);
    ok := false;
  }

  lemma EmptyIsEmpty(text: Text)
    ensures EncodeAll(text) == [] <==> text == []
  {
  }

  lemma NoMemberAtClose(s: seq<byte>)
    requires StartsWith(s, CLOSE)
    ensures ReadMembers(s, map[]).None?
  {
    hide StringText, AfterString, Store, Skip;
    assert s[0] != QUOTE;
    NothingToSkip(s);
    NoStringNoMember(s);
    NoMemberNoMembers(s);
  }

  lemma NothingToSkip(s: seq<byte>)
    requires s == [] || !IsBlank(s[0])
    ensures Skip(s) == s
  {
  }

  lemma NoStringNoMember(s: seq<byte>)
    requires Skip(s) == [] || Skip(s)[0] != QUOTE
    ensures ReadMember(s).None?
  {
    hide Skip, Body, StringText, AfterString;
  }

  lemma NoMemberNoMembers(s: seq<byte>)
    requires ReadMember(s).None?
    ensures ReadMembers(s, map[]).None?
  {
    hide ReadMember;
  }

  /** Reads and stores one member. */
  method ReadAndStore(heap: Heap, json: seq<byte>, start: nat, env: EnvelopeData, seenOp: bool, ghost fields: Fields)
    returns (ok: bool, p: nat, ghost next: Fields)
    requires start <= |json| <= MAX_REQUEST_BYTES
    requires env.Represents(fields) && fields.Keys <= NAMES && (seenOp <==> env.op != null) &&
      (seenOp <==> OP in fields) && env.Blocks() <= heap.live
    modifies heap, env
    ensures old(heap.calls) <= heap.calls && start <= p <= |json|
    ensures ok <==>
      && ReadMember(json[start..]).Some?
      && Store(fields, ReadMember(json[start..]).value.key, ReadMember(json[start..]).value.value).Some?
      && AllAllocated(heap, old(heap.calls), heap.calls)
    ensures ok ==> var r := ReadMember(json[start..]).value;
      && Store(fields, r.key, r.value) == Some(next) && |next.Keys| == |fields.Keys| + 1
      && Skip(json[p..]) == r.rest && start < |json|
    ensures env.Represents(next) && next.Keys <= NAMES && (env.op != null <==> OP in next)
    ensures !ok ==> next == fields
    ensures old(env.Blocks()) <= env.Blocks() && fresh(env.Blocks() - old(env.Blocks()))
    ensures heap.live == old(heap.live) + env.Blocks()
  {
    hide ReadMember, Skip, EncodeAll, EnvelopeData.Blocks, EnvelopeData.Represents;
    next := fields;
    var key, klen, value, vlen;
    key, klen, value, vlen, p := ParseMember(heap, json, start);
    if key == null { return false, p, next; }
    ghost var r := ReadMember(json[start..]).value;
    ok := StoreMember(heap, env, key, klen, value, vlen, seenOp, fields, r.key, r.value);
    if ok { next := fields[r.key := r.value]; }
    assert |json[start..]| > 0;
  }

  lemma ClearedIsEmpty(env: EnvelopeData)
    requires env.Cleared()
    ensures env.Represents(map[]) && env.Blocks() == {}
  {
  }

  datatype Step = Continue | Finished | Rejected

  /** One round of the member loop, with the comma or closing brace that follows the member. */
  method ParseRound(heap: Heap, json: seq<byte>, start: nat, env: EnvelopeData, seenOp: bool, ghost fields: Fields)
    returns (step: Step, p: nat, ghost next: Fields)
    requires start <= |json| <= MAX_REQUEST_BYTES
    requires env.Represents(fields) && fields.Keys <= NAMES && (seenOp <==> env.op != null) &&
      (seenOp <==> OP in fields) && env.Blocks() <= heap.live
    modifies heap, env
    ensures old(heap.calls) <= heap.calls && start <= p <= |json|
    ensures env.Represents(next) && next.Keys <= NAMES && (env.op != null <==> OP in next)
    ensures old(env.Blocks()) <= env.Blocks() && fresh(env.Blocks() - old(env.Blocks()))
    ensures heap.live == old(heap.live) + env.Blocks()
    ensures !step.Rejected? ==>
      AllAllocated(heap, old(heap.calls), heap.calls) && |next.Keys| == |fields.Keys| + 1 && start < p
    ensures step.Continue? ==> ReadMembers(json[start..], fields) == ReadMembers(json[p..], next)
    ensures step.Finished? ==> ReadMembers(json[start..], fields) == Some((next, json[p..]))
    ensures step.Rejected? ==>
      ReadMembers(json[start..], fields).None? || !AllAllocated(heap, old(heap.calls), heap.calls)
  {
    hide ReadMember, Skip, EncodeAll, Store, EnvelopeData.Blocks, EnvelopeData.Represents;
    var ok;
    ok, p, next := ReadAndStore(heap, json, start, env, seenOp, fields);
    if !ok { return Rejected, p, next; }
    p := SkipBlank(json, p);
    assert p < |json| ==> json[p..][1..] == json[p + 1..];
    if p < |json| && json[p] == COMMA {
      step, p := Continue, p + 1;
    } else if p < |json| && json[p] == CLOSE {
      step := Finished;
      p := SkipBlank(json, p + 1);
    } else {
      step := Rejected;
    }
  }

  /** The member loop: at most three members can be stored, so a fourth round can only fail. */
  method ParseMembers(heap: Heap, json: seq<byte>, start: nat, env: EnvelopeData)
    returns (ok: bool, p: nat, ghost fields: Fields, ghost rounds: nat)
    requires start <= |json| <= MAX_REQUEST_BYTES && env.Cleared()
    modifies heap, env
    ensures old(heap.calls) <= heap.calls
    ensures ok <==> ReadMembers(json[start..], map[]).Some? && AllAllocated(heap, old(heap.calls), heap.calls)
    ensures ok ==>
      && p <= |json| && ReadMembers(json[start..], map[]) == Some((fields, json[p..]))
      && env.Represents(fields) && fresh(env.Blocks()) && heap.live == old(heap.live) + env.Blocks()
    ensures !ok ==> env.Cleared() && heap.live == old(heap.live)
    ensures rounds <= 4
  {
    hide ReadMembers, EnvelopeData.Blocks, EnvelopeData.Represents, AllAllocated;
    ClearedIsEmpty(env);
    ghost var first := heap.calls;
    AllocatedInParts(heap, first, first, first);
    var seenOp, step := false, Continue;
    p, fields, rounds := start, map[], 0;
    while step.Continue?
      invariant start <= p <= |json| && old(heap.calls) <= heap.calls
      invariant fields.Keys <= NAMES && (if step.Rejected? then rounds <= 4 else rounds == |fields.Keys|)
      invariant env.Represents(fields) && (seenOp <==> env.op != null) && (seenOp <==> OP in fields)
      invariant fresh(env.Blocks()) && heap.live == old(heap.live) + env.Blocks()
      invariant !step.Rejected? ==> AllAllocated(heap, old(heap.calls), heap.calls)
      invariant step.Continue? ==> ReadMembers(json[p..], fields) == ReadMembers(json[start..], map[])
      invariant step.Finished? ==> ReadMembers(json[start..], map[]) == Some((fields, json[p..]))
      invariant step.Rejected? ==>
        ReadMembers(json[start..], map[]).None? || !AllAllocated(heap, old(heap.calls), heap.calls)
      decreases |json| - p, if step.Continue? then 1 else 0
    {
      KnownNames(fields);
      ghost var middle := heap.calls;
      step, p, fields := ParseRound(heap, json, p, env, seenOp, fields);
      AllocatedInParts(heap, first, middle, heap.calls);
      seenOp, rounds := env.op != null, rounds + 1;
    }
    ok := step.Finished?;
    if !ok { env.Free(heap, fields); }
    KnownNames(fields);
  }

  lemma KnownNames(fields: Fields)
    requires fields.Keys <= NAMES
    ensures |fields.Keys| <= 3
  {
    SubsetSize(fields.Keys, NAMES);
  }

  lemma {:induction false} SubsetSize<T>(a: set<T>, b: set<T>)
    requires a <= b
    ensures |a| <= |b|
  {
    if a != {} {
      var x :| x in a;
      SubsetSize(a - {x}, b - {x});
    }
  }
}
