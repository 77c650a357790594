/** The C heap seen by the native code: which blocks are live, and an arbitrary pattern of malloc failures. */
module Memory {
  import opened Utf8
  import opened Utf16

  class Heap {
    const fails: nat -> bool  // does the k-th call of malloc return NULL?
    var calls: nat
    ghost var live: set<object>  // blocks handed out and not freed yet

    constructor (fails: nat -> bool)
      ensures this.fails == fails && calls == 0 && live == {}
    {
      this.fails, calls, live := fails, 0, {};
    }

    /** malloc for char; contents are arbitrary. */
    method MallocBytes(n: nat) returns (p: array?<byte>)
      modifies this
      ensures calls == old(calls) + 1
      ensures p == null <==> fails(old(calls))
      ensures p == null ==> live == old(live)
      ensures p != null ==> fresh(p) && p.Length == n && live == old(live) + {p}
    {
      calls := calls + 1;
      if fails(calls - 1) { return null; }
      p := new byte[n];
      live := live + {p};
    }

    /** malloc for jchar. */
    method MallocUnits(n: nat) returns (p: array?<uint16>)
      modifies this
      ensures calls == old(calls) + 1
      ensures p == null <==> fails(old(calls))
      ensures p == null ==> live == old(live)
      ensures p != null ==> fresh(p) && p.Length == n && live == old(live) + {p}
    {
      calls := calls + 1;
      if fails(calls - 1) { return null; }
      p := new uint16[n];
      live := live + {p};
    }

    /** free: NULL is allowed, anything else must be a live block. */
    method Free(p: object?)
      requires p != null ==> p in live
      modifies this`live
      ensures live == if p == null then old(live) else old(live) - {p}
    {
      live := if p == null then live else live - {p};
    }
  }
}
