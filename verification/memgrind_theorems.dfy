/** What every run under the allocator wrapper guarantees. */
module MemgrindTheorems {
  import opened Machine
  import opened Memgrind
  import opened MemgrindRuns

  lemma StepOf(check: CallocCheck, limits: Limits, states: seq<State>, labels: seq<Label>, i: nat)
    requires Execution(check, limits, states, labels) && i < |labels|
    ensures Step(check, states[i], labels[i], states[i + 1])
    ensures labels[..i + 1] == labels[..i] + [labels[i]]
    ensures !states[i].overrun && (states[i + 1].overrun <==> labels[i].Overrun?)
  {
    assert StepAt(check, states, labels, i);
  }

  // ----- headers

  /**
    In every heap reached without an overrun each live pointer has an intact header just before
    it, whose block size is the size last requested for it as `size_t` holds it; and no other
    wrapped block exists.
   */
  lemma {:induction false} HeadersAlwaysIntact(check: CallocCheck, limits: Limits,
                                               states: seq<State>, labels: seq<Label>, i: nat)
    requires Execution(check, limits, states, labels) && i < |states| && !states[i].overrun
    ensures HeadersIntact(states[i].lib.heap, Ledger(labels[..i]))
    ensures states[i].lib.limits == limits
  {
    if i > 0 {
      StepOf(check, limits, states, labels, i - 1);
      HeadersAlwaysIntact(check, limits, states, labels, i - 1);
      Extend(labels[..i - 1], labels[i - 1]);
      StepKeepsHeaders(check, states[i - 1], labels[i - 1], states[i], Ledger(labels[..i - 1]));
      StepKeepsLimits(check, states[i - 1], labels[i - 1], states[i]);
    }
  }

  // ----- is there room?

  /** The real allocator gave the call a block, with room for the header or without. */
  predicate Grants(l: Label)
  {
    (l.Serve? || l.Overrun?) && l.reply.Granted?
  }

  /**
    In every run, a granted block has room for the header and the bytes the caller asked for
    if and only if request + 16 is below 2^64. It has no room even for the header, which ends
    the run, if and only if adding the header to the computed size wraps.
   */
  lemma GrantHasRoomExactly(check: CallocCheck, limits: Limits, states: seq<State>, labels: seq<Label>, i: nat)
    requires Execution(check, limits, states, labels) && i < |labels| && Grants(labels[i])
    ensures !labels[i].call.Free?
    ensures HEADER + Request(labels[i].call) <= |labels[i].reply.bytes|
            <==> Request(labels[i].call) + HEADER < SIZE_MODULUS
    ensures labels[i].Overrun? <==> Wrapped(Request(labels[i].call)) + HEADER >= SIZE_MODULUS
  {
    hide Body;
    StepOf(check, limits, states, labels, i);
  }

  /** An overrun is the last thing that happens in a run. */
  lemma OverrunEndsRun(check: CallocCheck, limits: Limits, states: seq<State>, labels: seq<Label>, i: nat)
    requires Execution(check, limits, states, labels) && i < |labels| && labels[i].Overrun?
    ensures i + 1 == |labels|
  {
    hide Step;
    StepOf(check, limits, states, labels, i);
    if i + 1 < |labels| { StepOf(check, limits, states, labels, i + 1); }
  }

  /** The block behind `ptr` has `n` payload bytes, and its header says so. */
  ghost predicate Holds(heap: map<nat, Block>, ptr: nat, n: nat)
  {
    && Live(heap, ptr)
    && var bytes := heap[ptr - HEADER].bytes;
       |bytes| == HEADER + n && BlockSize(bytes) == n
  }

  /**
    Is the caller's request honoured? In every heap reached without an overrun a live block has
    as many payload bytes as were last requested for it, and a header that says so, if and only
    if that request and the header together are below 2^64.
   */
  lemma RequestHonouredExactly(check: CallocCheck, limits: Limits,
                               states: seq<State>, labels: seq<Label>, i: nat, ptr: nat)
    requires Execution(check, limits, states, labels) && i < |states| && !states[i].overrun
    requires ptr in Ledger(labels[..i])
    ensures Holds(states[i].lib.heap, ptr, Ledger(labels[..i])[ptr])
            <==> Ledger(labels[..i])[ptr] + HEADER < SIZE_MODULUS
  {
    HeadersAlwaysIntact(check, limits, states, labels, i);
    BookedIsIntact(states[i].lib.heap, Ledger(labels[..i]), ptr);
    hide HeadersIntact, Ledger;
  }

  /**
    A granted calloc leaves a block of num * size payload bytes behind its pointer if and only
    if num * size + 16 is below 2^64: otherwise the product or the sum has wrapped.
   */
  lemma CallocHonouredExactly(check: CallocCheck, limits: Limits, states: seq<State>, labels: seq<Label>, i: nat)
    requires Execution(check, limits, states, labels) && i < |labels|
    requires Grants(labels[i]) && labels[i].call.Calloc?
    ensures var call := labels[i].call;
            labels[i].Serve? && Holds(states[i + 1].lib.heap, labels[i].result, call.num * call.size)
            <==> call.num * call.size + HEADER < SIZE_MODULUS
  {
    hide Holds, Step;
    StepOf(check, limits, states, labels, i);
    GrantHasRoomExactly(check, limits, states, labels, i);
    if labels[i].Serve? {
      GrantedIsNotNull(check, states[i], labels[i], states[i + 1]);
      Extend(labels[..i], labels[i]);
      RequestHonouredExactly(check, limits, states, labels, i + 1, labels[i].result);
    }
  }

  lemma GrantedIsNotNull(check: CallocCheck, s: State, l: Label, s': State)
    requires Step(check, s, l, s') && l.Serve? && l.call.Calloc? && l.reply.Granted?
    ensures l.result != NULL
  {
    hide Initialise, Plus;
  }

  const TWO_32: nat := 0x1_0000_0000

  /** The code asks for 2^32 * 2^32 = 0 bytes and a header. */
  lemma WrappedCall(limits: Limits)
    requires limits.allocMax >= TWO_32 && limits.memMax >= TWO_32 && limits.allocCount >= 1
    ensures var lib, call, reply := Initial(limits).lib, Calloc(TWO_32, TWO_32), Granted(4096, Zeros(HEADER));
            && ProperCall(lib, call) && Served(OnSize, lib, call, reply)
            && Body(OnSize, lib, call, reply).1 == 4096 + HEADER
  {
    hide Initialise;
    assert TWO_32 * TWO_32 == SIZE_MODULUS;
    assert Wrapped(TWO_32 * TWO_32) == 0;
  }

  /** ... and it happens: a run in which a calloc of 2^64 bytes is granted a block without payload. */
  lemma CallocUnderallocates(limits: Limits) returns (states: seq<State>, labels: seq<Label>)
    requires limits.allocMax >= TWO_32 && limits.memMax >= TWO_32 && limits.allocCount >= 1
    ensures Execution(OnSize, limits, states, labels)
    ensures var ptr := 4096 + HEADER;
            && Ledger(labels) == map[ptr := SIZE_MODULUS]
            && Holds(states[|labels|].lib.heap, ptr, 0)
  {
    hide Body, Served, Initialise;
    WrappedCall(limits);
    var call, reply := Calloc(TWO_32, TWO_32), Granted(4096, Zeros(HEADER));
    states, labels := RunOfOneCall(OnSize, limits, call, reply);
    assert TWO_32 * TWO_32 == SIZE_MODULUS;
    assert Ledger(labels) == map[4096 + HEADER := SIZE_MODULUS];
    HeadersAlwaysIntact(OnSize, limits, states, labels, |labels|);
    assert labels[..|labels|] == labels;
    BookedIsIntact(states[|labels|].lib.heap, Ledger(labels), 4096 + HEADER);
    hide HeadersIntact, Ledger;
    assert Wrapped(SIZE_MODULUS) == 0;
  }

  /**
    The header wraps too: whenever the first call passes the limits and its computed size plus
    16 wraps, it can be granted a block shorter than its header.
   */
  lemma HeaderOverruns(limits: Limits, call: Call) returns (states: seq<State>, labels: seq<Label>)
    requires InSize(call) && !call.Free? && !call.Realloc? && Asks(OnSize, Initial(limits).lib, call)
    requires Wrapped(Request(call)) + HEADER >= SIZE_MODULUS
    ensures Execution(OnSize, limits, states, labels) && |labels| == 3
    ensures labels[2].Overrun? && labels[2].call == call && labels[2].reply.Granted? && |labels[2].reply.bytes| < HEADER
  {
    hide CanAlloc;
    var s0 := Initial(limits);
    var reply := Granted(4096, Zeros(Plus(Wrapped(Request(call)), HEADER)));
    states := [s0, s0.(guard := false), s0.(pending := Some(call)), s0.(overrun := true)];
    labels := [Leave, Begin(call), Overrun(call, reply)];
    assert StepAt(OnSize, states, labels, 0);
    assert StepAt(OnSize, states, labels, 1);
    assert StepAt(OnSize, states, labels, 2);
  }

  /** ... for example, without limits, a malloc of 2^64 - 8 bytes, which is granted 8. */
  lemma MallocOverruns() returns (states: seq<State>, labels: seq<Label>)
    ensures Execution(OnSize, NO_LIMITS, states, labels) && labels != []
    ensures var l := labels[|labels| - 1];
            l.Overrun? && l.call == Malloc(SIZE_MODULUS - 8) && l.reply.Granted? && |l.reply.bytes| == 8
  {
    states, labels := HeaderOverruns(NO_LIMITS, Malloc(SIZE_MODULUS - 8));
    StepOf(OnSize, NO_LIMITS, states, labels, 2);
  }

  /** The limits of an empty environment, utils.c lines 77-80. */
  const NO_LIMITS: Limits := Limits(SIZE_MODULUS - 1, SIZE_MODULUS - 1, SIZE_MODULUS - 1)

  /** The run that lowers the guard after library_init and makes one call. */
  lemma RunOfOneCall(check: CallocCheck, limits: Limits, call: Call, reply: Reply)
    returns (states: seq<State>, labels: seq<Label>)
    requires ProperCall(Initial(limits).lib, call) && Served(check, Initial(limits).lib, call, reply)
    ensures Execution(check, limits, states, labels) && |labels| == 3
    ensures reply.Granted? ==> |reply.bytes| >= HEADER
    ensures var (lib, p) := Body(check, Initial(limits).lib, call, reply);
            && states[1].lib == states[2].lib == Initial(limits).lib
            && labels == [Leave, Begin(call), Serve(call, reply, p)]
            && states[|labels|].lib == lib && !states[|labels|].overrun
            && Ledger(labels) == Book(map[], Serve(call, reply, p))
  {
    hide Body;
    assert reply.Granted? ==> |reply.bytes| >= HEADER;
    var s0 := Initial(limits);
    var (lib, p) := Body(check, s0.lib, call, reply);
    states := [s0, s0.(guard := false), s0.(pending := Some(call)), State(lib, true, None, false)];
    labels := [Leave, Begin(call), Serve(call, reply, p)];
    assert StepAt(check, states, labels, 0);
    assert StepAt(check, states, labels, 1);
    assert StepAt(check, states, labels, 2);
    LedgerOfOneCall(call, reply, p);
  }

  lemma LedgerOfOneCall(call: Call, reply: Reply, p: nat)
    ensures Ledger([Leave, Begin(call), Serve(call, reply, p)]) == Book(map[], Serve(call, reply, p))
  {
    Extend([], Leave);
    Extend([Leave], Begin(call));
    Extend([Leave, Begin(call)], Serve(call, reply, p));
    assert [] + [Leave] == [Leave] && [Leave] + [Begin(call)] == [Leave, Begin(call)];
    assert [Leave, Begin(call)] + [Serve(call, reply, p)] == [Leave, Begin(call), Serve(call, reply, p)];
  }

  lemma StepKeepsLimits(check: CallocCheck, s: State, l: Label, s': State)
    requires Step(check, s, l, s') && !s'.overrun
    ensures s'.lib.limits == s.lib.limits
  {
  }

  // ----- payloads

  /** The first `m` payload bytes behind `p` in `heap'` are those behind `ptr` in `heap`. */
  ghost predicate SamePayload(heap: map<nat, Block>, ptr: nat, heap': map<nat, Block>, p: nat, m: nat)
  {
    && Live(heap, ptr) && Live(heap', p)
    && var bytes, bytes' := heap[ptr - HEADER].bytes, heap'[p - HEADER].bytes;
    && HEADER + m <= |bytes| && HEADER + m <= |bytes'|
    && bytes[HEADER..HEADER + m] == bytes'[HEADER..HEADER + m]
  }

  lemma SamePayloadChain(a: map<nat, Block>, x: nat, b: map<nat, Block>, y: nat, c: map<nat, Block>, z: nat,
                         m: nat, n: nat)
    requires SamePayload(a, x, b, y, m) && SamePayload(b, y, c, z, n) && n <= m
    ensures SamePayload(a, x, c, z, n)
  {
    ShorterSlice(a[x - HEADER].bytes, m, n);
    ShorterSlice(b[y - HEADER].bytes, m, n);
  }

  lemma ShorterSlice(s: seq<byte>, m: nat, n: nat)
    requires n <= m && HEADER + m <= |s|
    ensures s[HEADER..HEADER + n] == s[HEADER..HEADER + m][..n]
  {
  }

  /** Does this label hand the block behind `ptr` a new pointer or a new size? */
  predicate Moves(l: Label, ptr: nat)
  {
    l.Serve? && l.call.Realloc? && l.call.ptr == ptr && ptr != NULL && l.result != NULL
  }

  /** The pointer to the block after a label, and after a sequence of labels. */
  function Follow(l: Label, ptr: nat): (p: nat)
  {
    if Moves(l, ptr) then l.result else ptr
  }

  function FollowAll(labels: seq<Label>, ptr: nat): (p: nat)
  {
    if labels == [] then ptr
    else Follow(labels[|labels| - 1], FollowAll(labels[..|labels| - 1], ptr))
  }

  /** The smallest size the block has had along the way. */
  function LeastSize(labels: seq<Label>, ptr: nat, size: nat): (n: nat)
  {
    if labels == [] then size
    else
      var before, l := labels[..|labels| - 1], labels[|labels| - 1];
      var n := LeastSize(before, ptr, size);
      if Moves(l, FollowAll(before, ptr)) && l.call.size < n then l.call.size else n
  }

  /** The label neither frees the block behind `ptr` nor writes into it. */
  predicate Spares(l: Label, ptr: nat)
  {
    && !(l.Serve? && l.call == Free(ptr))
    && !(l.Write? && l.ptr == ptr)
  }

  lemma ReallocCopies(s: Lib, ptr: nat, before: nat, size: nat, reply: Reply, m: nat)
    requires Intact(s.heap, ptr, before) && m <= before && m <= size
    requires ResizedBlock(s, ptr - HEADER, reply, size + HEADER)
    ensures var (s', p) := ReallocBody(s, ptr, size, reply);
            p != NULL ==> SamePayload(s.heap, ptr, s'.heap, p, m)
  {
    hide ReallocBody, Resize, BlockSize, CheckWord;
    ReallocHeap(s, ptr, size, reply);
    if reply.Granted? {
      ResizeCopies(s.heap[ptr - HEADER].bytes, reply.bytes, size, m);
    }
  }

  lemma ResizeCopies(before: seq<byte>, after: seq<byte>, size: nat, m: nat)
    requires HEADER + m <= |before| && HEADER + m <= |after|
    requires var kept := if |after| < |before| then |after| else |before|;
             after[..kept] == before[..kept]
    ensures Resize(after, size)[HEADER..HEADER + m] == before[HEADER..HEADER + m]
  {
    var kept := if |after| < |before| then |after| else |before|;
    assert after[HEADER..HEADER + m] == after[..kept][HEADER..HEADER + m];
    assert before[HEADER..HEADER + m] == before[..kept][HEADER..HEADER + m];
    assert Resize(after, size)[HEADER..HEADER + m] == after[HEADER..HEADER + m];
  }

  /** A call about another block leaves this block alone. */
  lemma OthersUntouched(check: CallocCheck, s: Lib, call: Call, reply: Reply, ptr: nat)
    requires Live(s.heap, ptr) && ProperCall(s, call) && Served(check, s, call, reply)
    requires call != Free(ptr) && !(call.Realloc? && call.ptr == ptr && Body(check, s, call, reply).1 != NULL)
    ensures var s' := Body(check, s, call, reply).0;
            Live(s'.heap, ptr) && s'.heap[ptr - HEADER] == s.heap[ptr - HEADER]
  {
    if call.Realloc? && call.ptr != NULL { ReallocHeap(s, call.ptr, call.size, reply); }
  }

  lemma NestedUntouched(s: Lib, call: Call, reply: Reply, s': Lib, result: nat, ptr: nat)
    requires Live(s.heap, ptr) && NestedStep(s, call, reply, s', result) && NULL !in s.heap
    ensures Live(s'.heap, ptr) && s'.heap[ptr - HEADER] == s.heap[ptr - HEADER]
  {
  }

  lemma ServeKeepsPayload(check: CallocCheck, s: State, l: Label, s': State, ptr: nat, size: nat, m: nat)
    requires l.Serve? && Step(check, s, l, s') && Intact(s.lib.heap, ptr, size) && Spares(l, ptr)
    requires m <= size && (Moves(l, ptr) ==> m <= l.call.size)
    ensures SamePayload(s.lib.heap, ptr, s'.lib.heap, Follow(l, ptr), m)
  {
    hide MallocBody, CallocBody, ReallocBody, FreeBody;
    if Moves(l, ptr) {
      ReallocCopies(s.lib, ptr, size, l.call.size, l.reply, m);
    } else {
      OthersUntouched(check, s.lib, l.call, l.reply, ptr);
    }
  }

  lemma StepKeepsPayload(check: CallocCheck, s: State, l: Label, s': State, ptr: nat, size: nat, m: nat)
    requires Step(check, s, l, s') && !s'.overrun && Intact(s.lib.heap, ptr, size) && Spares(l, ptr)
    requires NULL !in s.lib.heap
    requires m <= size && (Moves(l, ptr) ==> m <= l.call.size)
    ensures SamePayload(s.lib.heap, ptr, s'.lib.heap, Follow(l, ptr), m)
  {
    hide Body;
    match l
    case Serve(_, _, _) => ServeKeepsPayload(check, s, l, s', ptr, size, m);
    case Nested(call, reply, result) => NestedUntouched(s.lib, call, reply, s'.lib, result, ptr);
    case _ =>
  }

  /** The block behind `ptr` is still booked after the label, under the pointer that follows it. */
  lemma StepKeepsBooked(check: CallocCheck, s: State, l: Label, s': State, before: seq<Label>, ptr: nat, m: nat)
    requires Step(check, s, l, s') && !s'.overrun && Spares(l, ptr)
    requires HeadersIntact(s.lib.heap, Ledger(before)) && HeadersIntact(s'.lib.heap, Ledger(before + [l]))
    requires ptr in Ledger(before) && m <= Wrapped(Ledger(before)[ptr]) && (Moves(l, ptr) ==> m <= l.call.size)
    ensures var p := Follow(l, ptr);
            && p in Ledger(before + [l]) && m <= Wrapped(Ledger(before + [l])[p])
            && SamePayload(s.lib.heap, ptr, s'.lib.heap, p, m)
  {
    var p := Follow(l, ptr);
    BookedIsIntact(s.lib.heap, Ledger(before), ptr);
    StepKeepsPayload(check, s, l, s', ptr, Wrapped(Ledger(before)[ptr]), m);
    hide Step, HeadersIntact;
    LiveIsBooked(s'.lib.heap, Ledger(before + [l]), p);
    BookedIsIntact(s'.lib.heap, Ledger(before + [l]), p);
  }

  /** Label `k` spares the block that `ptr` pointed to before label `i`. */
  predicate SparesAt(labels: seq<Label>, i: nat, k: nat, ptr: nat)
    requires i <= k < |labels|
  {
    Spares(labels[k], FollowAll(labels[i..k], ptr))
  }

  /** What PayloadSurvivesReallocs claims of the steps from `i` to `j`. */
  ghost predicate Carried(states: seq<State>, labels: seq<Label>, i: nat, j: nat, ptr: nat)
    requires i <= j < |states| && j <= |labels|
  {
    ptr in Ledger(labels[..i])
    && var p := FollowAll(labels[i..j], ptr);
    var m := LeastSize(labels[i..j], ptr, Wrapped(Ledger(labels[..i])[ptr]));
    && p in Ledger(labels[..j]) && m <= Wrapped(Ledger(labels[..j])[p])
    && SamePayload(states[i].lib.heap, ptr, states[j].lib.heap, p, m)
  }

  lemma CarriedNow(states: seq<State>, labels: seq<Label>, i: nat, ptr: nat)
    requires i <= |labels| && i < |states| && ptr in Ledger(labels[..i])
    requires HeadersIntact(states[i].lib.heap, Ledger(labels[..i]))
    ensures Carried(states, labels, i, i, ptr)
  {
    BookedIsIntact(states[i].lib.heap, Ledger(labels[..i]), ptr);
    hide HeadersIntact;
    assert labels[i..i] == [];
  }

  lemma CarriedOneStep(check: CallocCheck, states: seq<State>, labels: seq<Label>, i: nat, j: nat, ptr: nat)
    requires i <= j < |labels| < |states|
    requires Carried(states, labels, i, j, ptr)
    requires Step(check, states[j], labels[j], states[j + 1]) && !states[j + 1].overrun
    requires HeadersIntact(states[j].lib.heap, Ledger(labels[..j]))
    requires HeadersIntact(states[j + 1].lib.heap, Ledger(labels[..j + 1]))
    requires SparesAt(labels, i, j, ptr)
    ensures Carried(states, labels, i, j + 1, ptr)
  {
    hide HeadersIntact, SamePayload, Step, Spares;
    var l, size := labels[j], Wrapped(Ledger(labels[..i])[ptr]);
    var p := FollowAll(labels[i..j], ptr);
    var m, n := LeastSize(labels[i..j], ptr, size), LeastSize(labels[i..j + 1], ptr, size);
    assert labels[i..j + 1][..j - i] == labels[i..j] && labels[i..j + 1][j - i] == l;
    assert labels[..j + 1] == labels[..j] + [l];
    StepKeepsBooked(check, states[j], l, states[j + 1], labels[..j], p, n);
    SamePayloadChain(states[i].lib.heap, ptr, states[j].lib.heap, p, states[j + 1].lib.heap, Follow(l, p), m, n);
  }

  /**
    Any chain of reallocs, moving or in place, keeps the payload: between two points of a run
    that neither frees the block nor writes into it, whatever else happens, the block is still
    live under the pointer that follows the reallocs, and the bytes below the smallest size it
    had on the way are unchanged at their user offsets.
   */
  lemma {:induction false} PayloadSurvivesReallocs(check: CallocCheck, limits: Limits, states: seq<State>,
                                                   labels: seq<Label>, i: nat, j: nat, ptr: nat)
    requires Execution(check, limits, states, labels) && i <= j < |states| && !states[j].overrun
    requires ptr in Ledger(labels[..i])
    requires forall k :: i <= k < j ==> SparesAt(labels, i, k, ptr)
    ensures Carried(states, labels, i, j, ptr)
    decreases j - i
  {
    hide HeadersIntact, Carried, Step, SparesAt;
    HeadersAlwaysIntact(check, limits, states, labels, j);
    if i == j {
      CarriedNow(states, labels, i, ptr);
    } else {
      StepOf(check, limits, states, labels, j - 1);
      PayloadSurvivesReallocs(check, limits, states, labels, i, j - 1, ptr);
      HeadersAlwaysIntact(check, limits, states, labels, j - 1);
      CarriedOneStep(check, states, labels, i, j - 1, ptr);
    }
  }
}
