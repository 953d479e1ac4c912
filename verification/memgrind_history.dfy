/** The library of hw03 as a function of its history: what calls return, and every counter. */
module MemgrindHistory {
  import opened Machine
  import opened Memgrind
  import opened MemgrindRuns
  import opened MemgrindTheorems

  // ----- what a call hands out

  /** The bytes behind the header. */
  function Payload(b: Block): (p: seq<byte>)
    requires |b.bytes| >= HEADER
  {
    b.bytes[HEADER..]
  }

  /** What the program sees of a served call, in terms of the real allocator's answer. */
  ghost predicate HandsOut(s: Lib, l: Label, s': Lib)
    requires l.Serve?
  {
    if l.reply.Granted? then
      && l.result == l.reply.addr + HEADER
      && l.reply.addr in s'.heap && !s'.heap[l.reply.addr].nested
      && |s'.heap[l.reply.addr].bytes| == |l.reply.bytes| >= HEADER
      && Payload(s'.heap[l.reply.addr]) == l.reply.bytes[HEADER..]
    else
      && l.result == NULL
      && s'.heap == if l.call.Free? then s.heap - {l.call.ptr - HEADER} else s.heap
  }

  lemma AllocateHandsOut(s: Lib, size: nat, reply: Reply, l: Label)
    requires l.Serve? && l.reply == reply && !l.call.Free?
    requires reply.Granted? ==> |reply.bytes| >= HEADER
    requires l.result == Allocate(s, size, reply).1
    ensures HandsOut(s, l, Allocate(s, size, reply).0)
  {
    hide Encode;
  }

  lemma ReallocHandsOut(s: Lib, ptr: nat, size: nat, reply: Reply, l: Label)
    requires l.Serve? && l.reply == reply && !l.call.Free?
    requires reply.Granted? ==> |reply.bytes| >= HEADER
    requires HasHeader(s, ptr) && (reply.Granted? ==> CanAlloc(s, size))
    requires l.result == ReallocBody(s, ptr, size, reply).1
    ensures HandsOut(s, l, ReallocBody(s, ptr, size, reply).0)
  {
    hide Encode, CanAlloc;
  }

  lemma ServeHandsOut(check: CallocCheck, s: Lib, l: Label, ledger: map<nat, nat>)
    requires l.Serve? && HeadersIntact(s.heap, ledger) && ProperCall(s, l.call) && Served(check, s, l.call, l.reply)
    requires l.result == Body(check, s, l.call, l.reply).1
    ensures HandsOut(s, l, Body(check, s, l.call, l.reply).0)
    ensures l.call.Calloc? && l.reply.Granted? ==> forall k :: HEADER <= k < |l.reply.bytes| ==> l.reply.bytes[k] == 0
  {
    hide HeadersIntact, ReallocBody, Allocate, CanAlloc;
    match l.call
    case Malloc(size) =>
      if !l.reply.NotAsked? { AllocateHandsOut(s, size, l.reply, l); }
    case Calloc(num, size) =>
      if !l.reply.NotAsked? { AllocateHandsOut(s, Product(num, size), l.reply, l); }
    case Realloc(ptr, size) =>
      if ptr == NULL {
        if !l.reply.NotAsked? { AllocateHandsOut(s, size, l.reply, l); }
      } else {
        LiveIsBooked(s.heap, ledger, ptr);
        BookedIsIntact(s.heap, ledger, ptr);
        ReallocHandsOut(s, ptr, size, l.reply, l);
      }
    case Free(ptr) =>
      if ptr == NULL {
        assert s.heap - {NULL - HEADER} == s.heap;
      } else {
        LiveIsBooked(s.heap, ledger, ptr);
        BookedIsIntact(s.heap, ledger, ptr);
      }
  }

  /**
    In every run, a call returns the address just behind the header of the block that the real
    allocator gave it, with the payload bytes exactly as given, and null without touching any
    block if there is none. The payload of a calloc is all zero.
   */
  lemma CallsHandOut(check: CallocCheck, limits: Limits, states: seq<State>, labels: seq<Label>, i: nat)
    requires Execution(check, limits, states, labels) && i < |labels| && labels[i].Serve?
    ensures HandsOut(states[i].lib, labels[i], states[i + 1].lib)
    ensures labels[i].call.Calloc? && labels[i].result != NULL ==>
              && Live(states[i + 1].lib.heap, labels[i].result)
              && var bytes := states[i + 1].lib.heap[labels[i].result - HEADER].bytes;
                 forall k :: HEADER <= k < |bytes| ==> bytes[k] == 0
  {
    hide Body, HeadersIntact;
    StepOf(check, limits, states, labels, i);
    HeadersAlwaysIntact(check, limits, states, labels, i);
    ServeHandsOut(check, states[i].lib, labels[i], Ledger(labels[..i]));
    hide Step;
    if labels[i].call.Calloc? && labels[i].result != NULL {
      var b := states[i + 1].lib.heap[labels[i].reply.addr];
      assert forall k :: HEADER <= k < |b.bytes| ==> b.bytes[k] == Payload(b)[k - HEADER];
    }
  }

  /**
    A call behind the guard returns the very address the real allocator gave, with its bytes,
    and changes no other block, no statistic and no limit.
   */
  lemma NestedPassesThrough(check: CallocCheck, s: State, l: Label, s': State)
    requires Step(check, s, l, s') && l.Nested?
    ensures s'.lib.stats == s.lib.stats && s'.lib.limits == s.lib.limits && s'.guard && s'.pending == s.pending
    ensures var given := !l.call.Free? && l.reply.Granted?;
            var gone := if l.call.Free? || (l.call.Realloc? && given) then {l.call.ptr} else {};
            && l.result == (if given then l.reply.addr else NULL)
            && (given ==> l.result in s'.lib.heap && s'.lib.heap[l.result] == Block(l.reply.bytes, true))
            && forall a: nat :: a !in gone && !(given && a == l.reply.addr) && a != NULL ==>
                 (a in s'.lib.heap <==> a in s.lib.heap) && (a in s.lib.heap ==> s'.lib.heap[a] == s.lib.heap[a])
  {
  }

  /** While the guard is up, a call may come in at any time, and is handed on to the real allocator. */
  lemma NestedCanHappen(check: CallocCheck, s: State, call: Call, reply: Reply) returns (l: Label, s': State)
    requires s.guard && !s.overrun
    requires match call
      case Malloc(size) => FreshBlock(s.lib, reply, size)
      case Calloc(num, size) => FreshBlock(s.lib, reply, num * size)
      case Realloc(ptr, size) =>
        if ptr == NULL then FreshBlock(s.lib, reply, size)
        else ptr in s.lib.heap && s.lib.heap[ptr].nested && ResizedBlock(s.lib, ptr, reply, size)
      case Free(ptr) => ptr == NULL || (ptr in s.lib.heap && s.lib.heap[ptr].nested)
    ensures Step(check, s, l, s') && l.Nested? && l.call == call && l.reply == reply
  {
    match call
    case Free(ptr) =>
      l, s' := Nested(call, reply, NULL), s.(lib := s.lib.(heap := s.lib.heap - {ptr}));
    case Malloc(_) =>
      l, s' := HandedOn(s, call, NULL, reply);
    case Calloc(_, _) =>
      l, s' := HandedOn(s, call, NULL, reply);
    case Realloc(ptr, _) =>
      l, s' := HandedOn(s, call, ptr, reply);
  }

  lemma HandedOn(s: State, call: Call, ptr: nat, reply: Reply) returns (l: Label, s': State)
    ensures var (lib, p) := Passed(s.lib, ptr, reply); l == Nested(call, reply, p) && s' == s.(lib := lib)
  {
    var (lib, p) := Passed(s.lib, ptr, reply);
    l, s' := Nested(call, reply, p), s.(lib := lib);
  }

  /** The program may write any byte of its blocks, and a write changes that byte and nothing else. */
  lemma WriteCanHappen(check: CallocCheck, s: State, ptr: nat, offset: nat, value: byte) returns (s': State)
    requires !s.guard && !s.overrun && Live(s.lib.heap, ptr) && HEADER + offset < |s.lib.heap[ptr - HEADER].bytes|
    ensures Step(check, s, Write(ptr, offset, value), s')
    ensures s'.lib.stats == s.lib.stats && s'.lib.heap.Keys == s.lib.heap.Keys
    ensures s'.lib.heap[ptr - HEADER].bytes == s.lib.heap[ptr - HEADER].bytes[HEADER + offset := value]
    ensures forall a :: a in s.lib.heap && a != ptr - HEADER ==> s'.lib.heap[a] == s.lib.heap[a]
  {
    s' := s.(lib := Written(s.lib, ptr - HEADER, HEADER + offset, value));
  }

  /** A pointer without an intact header in front of it is refused and counted as an error. */
  lemma HeaderlessRefused(s: Lib, ptr: nat, size: nat, reply: Reply)
    requires ptr != NULL && !HasHeader(s, ptr) && (reply.Granted? ==> |reply.bytes| >= HEADER)
    ensures var t := s.stats.(errors := (s.stats.errors + 1) % SIZE_MODULUS);
            && FreeBody(s, ptr) == s.(stats := t)
            && (CanAlloc(s, size) ==> ReallocBody(s, ptr, size, reply) == (s.(stats := t), NULL))
  {
  }

  // ----- the counters

  /** What a run so far adds up to, without wrap-around. */
  datatype Tally = Tally(used: nat, freed: nat, allocations: nat, deallocations: nat)

  const NOTHING: Tally := Tally(0, 0, 0, 0)

  /** The size a pointer was last given, as the header states it. */
  function SizeOf(ledger: map<nat, nat>, ptr: nat): (n: nat)
  {
    if ptr in ledger then Wrapped(ledger[ptr]) else 0
  }

  /**
    What one label adds. A first allocation that the real allocator was asked for is charged,
    granted or not. A realloc in place adds the growth to what was used or the shrinkage to what
    was freed; one that moved the block adds the new size to the one, the old to the other.
   */
  function Adds(ledger: map<nat, nat>, l: Label): (t: Tally)
  {
    if !l.Serve? then NOTHING
    else
      match l.call
      case Free(ptr) => if ptr == NULL then NOTHING else Tally(0, SizeOf(ledger, ptr), 0, 1)
      case Realloc(ptr, size) =>
        if ptr == NULL then if l.reply.NotAsked? then NOTHING else Tally(size, 0, 1, 0)
        else if !l.reply.Granted? then NOTHING
        else if l.reply.addr + HEADER != ptr then Tally(size, SizeOf(ledger, ptr), 1, 1)
        else if size >= SizeOf(ledger, ptr) then Tally(size - SizeOf(ledger, ptr), 0, 0, 0)
        else Tally(0, SizeOf(ledger, ptr) - size, 0, 0)
      case _ => if l.reply.NotAsked? then NOTHING else Tally(Wrapped(Request(l.call)), 0, 1, 0)
  }

  function Totals(labels: seq<Label>): (t: Tally)
  {
    if labels == [] then NOTHING
    else
      var before, l := labels[..|labels| - 1], labels[|labels| - 1];
      Both(Totals(before), Adds(Ledger(before), l))
  }

  function Both(t: Tally, a: Tally): (b: Tally)
  {
    Tally(t.used + a.used, t.freed + a.freed, t.allocations + a.allocations, t.deallocations + a.deallocations)
  }

  /** The four counters hold these totals as `size_t` does. */
  predicate Shows(s: Stats, t: Tally)
  {
    && s.totalUsed == t.used % SIZE_MODULUS
    && s.totalFreed == t.freed % SIZE_MODULUS
    && s.allocations == t.allocations % SIZE_MODULUS
    && s.deallocations == t.deallocations % SIZE_MODULUS
  }

  /** Each counter of `t'` is that of `t` plus what was added. */
  predicate Moved(t: Stats, t': Stats, a: Tally)
  {
    && t'.totalUsed == Plus(t.totalUsed, a.used)
    && t'.totalFreed == Plus(t.totalFreed, a.freed)
    && t'.allocations == Plus(t.allocations, a.allocations)
    && t'.deallocations == Plus(t.deallocations, a.deallocations)
  }

  predicate InWord(t: Stats)
  {
    && t.totalUsed < SIZE_MODULUS && t.totalFreed < SIZE_MODULUS
    && t.allocations < SIZE_MODULUS && t.deallocations < SIZE_MODULUS
  }

  lemma AllocateMoves(s: Lib, size: nat, reply: Reply)
    requires InWord(s.stats) && (reply.Granted? ==> |reply.bytes| >= HEADER)
    ensures Moved(s.stats, Allocate(s, size, reply).0.stats, Tally(size, 0, 1, 0))
  {
    hide Initialise;
  }

  lemma ReallocMoves(s: Lib, ptr: nat, size: nat, reply: Reply, before: nat)
    requires InWord(s.stats) && reply.Granted? && |reply.bytes| >= HEADER
    requires CanAlloc(s, size) && HasHeader(s, ptr) && BlockSize(s.heap[ptr - HEADER].bytes) == before
    ensures Moved(s.stats, ReallocBody(s, ptr, size, reply).0.stats,
                  if reply.addr + HEADER != ptr then Tally(size, before, 1, 1)
                  else if size >= before then Tally(size - before, 0, 0, 0)
                  else Tally(0, before - size, 0, 0))
  {
    hide Resize, CanAlloc, BlockSize;
  }

  lemma QuietMoves(t: Stats, t': Stats)
    requires InWord(t) && t'.totalUsed == t.totalUsed && t'.totalFreed == t.totalFreed
    requires t'.allocations == t.allocations && t'.deallocations == t.deallocations
    ensures Moved(t, t', NOTHING)
  {
  }

  lemma FreeMoves(s: Lib, ptr: nat, before: nat)
    requires InWord(s.stats) && HasHeader(s, ptr) && ptr != NULL && BlockSize(s.heap[ptr - HEADER].bytes) == before
    ensures Moved(s.stats, FreeBody(s, ptr).stats, Tally(0, before, 0, 1))
  {
    hide BlockSize;
  }

  lemma ReallocRefused(s: Lib, ptr: nat, size: nat, reply: Reply)
    requires !reply.Granted?
    ensures var s' := ReallocBody(s, ptr, size, reply).0;
            s'.stats == Decline(s).stats || s'.stats == Error(s).stats
  {
  }

  lemma ServeMoves(check: CallocCheck, s: Lib, l: Label, ledger: map<nat, nat>)
    requires l.Serve? && HeadersIntact(s.heap, ledger) && ProperCall(s, l.call) && Served(check, s, l.call, l.reply)
    requires InWord(s.stats)
    ensures Moved(s.stats, Body(check, s, l.call, l.reply).0.stats, Adds(ledger, l))
  {
    hide HeadersIntact, ReallocBody, FreeBody, Allocate, CanAlloc, Moved, Plus, BlockSize;
    var s' := Body(check, s, l.call, l.reply).0;
    match l.call
    case Malloc(size) =>
      if l.reply.NotAsked? { QuietMoves(s.stats, s'.stats); } else { AllocateMoves(s, size, l.reply); }
    case Calloc(num, size) =>
      if l.reply.NotAsked? { QuietMoves(s.stats, s'.stats); } else { AllocateMoves(s, Product(num, size), l.reply); }
    case Realloc(ptr, size) =>
      if ptr == NULL {
        if l.reply.NotAsked? { QuietMoves(s.stats, s'.stats); } else { AllocateMoves(s, size, l.reply); }
      } else {
        LiveIsBooked(s.heap, ledger, ptr);
        BookedIsIntact(s.heap, ledger, ptr);
        if l.reply.Granted? {
          ReallocMoves(s, ptr, size, l.reply, SizeOf(ledger, ptr));
        } else {
          ReallocRefused(s, ptr, size, l.reply);
          QuietMoves(s.stats, s'.stats);
        }
      }
    case Free(ptr) =>
      if ptr == NULL {
        FreeNull(s);
        QuietMoves(s.stats, s'.stats);
      } else {
        LiveIsBooked(s.heap, ledger, ptr);
        BookedIsIntact(s.heap, ledger, ptr);
        FreeMoves(s, ptr, SizeOf(ledger, ptr));
      }
  }

  lemma FreeNull(s: Lib)
    ensures FreeBody(s, NULL) == s
  {
  }

  lemma StepMoves(check: CallocCheck, s: State, l: Label, s': State, ledger: map<nat, nat>)
    requires Step(check, s, l, s') && !s'.overrun && HeadersIntact(s.lib.heap, ledger) && InWord(s.lib.stats)
    ensures Moved(s.lib.stats, s'.lib.stats, Adds(ledger, l))
  {
    hide HeadersIntact, Body, Moved;
    if l.Serve? {
      ServeMoves(check, s.lib, l, ledger);
    } else {
      QuietMoves(s.lib.stats, s'.lib.stats);
    }
  }

  lemma MovedShows(s: Stats, t: Tally, s': Stats, a: Tally)
    requires Shows(s, t) && Moved(s, s', a)
    ensures Shows(s', Both(t, a)) && InWord(s')
  {
    ModAdd(t.used, a.used, SIZE_MODULUS);
    ModAdd(t.freed, a.freed, SIZE_MODULUS);
    ModAdd(t.allocations, a.allocations, SIZE_MODULUS);
    ModAdd(t.deallocations, a.deallocations, SIZE_MODULUS);
  }

  lemma TotalsSnoc(labels: seq<Label>, l: Label)
    ensures Totals(labels + [l]) == Both(Totals(labels), Adds(Ledger(labels), l))
  {
    hide Adds, Both;
    assert (labels + [l])[..|labels|] == labels;
  }

  /**
    In every reachable state each of the four counters is, modulo 2^64, the total that the
    calls, the answers and the sizes last requested add up to.
   */
  lemma {:induction false} CountersExactly(check: CallocCheck, limits: Limits,
                                           states: seq<State>, labels: seq<Label>, i: nat)
    requires Execution(check, limits, states, labels) && i < |states| && !states[i].overrun
    ensures Shows(states[i].lib.stats, Totals(labels[..i])) && InWord(states[i].lib.stats)
  {
    if i == 0 {
      assert labels[..0] == [] && states[0] == Initial(limits);
    } else {
      hide Step, StepAt, Totals, Shows, InWord;
      StepOf(check, limits, states, labels, i - 1);
      CountersExactly(check, limits, states, labels, i - 1);
      HeadersAlwaysIntact(check, limits, states, labels, i - 1);
      StepShows(check, states[i - 1], labels[i - 1], states[i], labels[..i - 1]);
    }
  }

  lemma StepShows(check: CallocCheck, s: State, l: Label, s': State, labels: seq<Label>)
    requires Step(check, s, l, s') && !s'.overrun && HeadersIntact(s.lib.heap, Ledger(labels))
    requires Shows(s.lib.stats, Totals(labels)) && InWord(s.lib.stats)
    ensures Shows(s'.lib.stats, Totals(labels + [l])) && InWord(s'.lib.stats)
  {
    hide HeadersIntact, Step, Adds, Moved, Totals, Shows, InWord, Ledger;
    StepMoves(check, s, l, s', Ledger(labels));
    MovedShows(s.lib.stats, Totals(labels), s'.lib.stats, Adds(Ledger(labels), l));
    TotalsSnoc(labels, l);
  }

  // ----- when a call is declined

  /** The size whose limits are checked. */
  function Checked(check: CallocCheck, call: Call): (n: nat)
    requires !call.Free?
  {
    if call.Calloc? then if check.OnSize? then call.size else call.num * call.size % SIZE_MODULUS
    else call.size
  }

  /**
    Declined, exactly, from the history alone. A call for memory goes no further than the limits
    if and only if its size is over the block limit, or the total used so far and its size, or
    the number of allocations so far and one, are over theirs, in `size_t` arithmetic.
   */
  lemma DeclinedExactly(check: CallocCheck, limits: Limits, states: seq<State>, labels: seq<Label>, i: nat)
    requires Execution(check, limits, states, labels) && i < |labels|
    requires (labels[i].Serve? || labels[i].Overrun?) && !labels[i].call.Free?
    ensures var t, n := Totals(labels[..i]), Checked(check, labels[i].call);
            labels[i].reply.NotAsked?
            <==> || n > limits.allocMax
                 || (t.used + n) % SIZE_MODULUS > limits.memMax
                 || (t.allocations + 1) % SIZE_MODULUS > limits.allocCount
  {
    hide Body, HeadersIntact, Totals;
    StepOf(check, limits, states, labels, i);
    HeadersAlwaysIntact(check, limits, states, labels, i);
    CountersExactly(check, limits, states, labels, i);
    var s, call, t := states[i].lib, labels[i].call, Totals(labels[..i]);
    if call.Realloc? && call.ptr != NULL {
      LiveIsBooked(s.heap, Ledger(labels[..i]), call.ptr);
      BookedIsIntact(s.heap, Ledger(labels[..i]), call.ptr);
    }
    AskedIfAllowed(check, s, labels[i]);
    ModAdd(t.used, Checked(check, call), SIZE_MODULUS);
    ModAdd(t.allocations, 1, SIZE_MODULUS);
  }

  lemma AskedIfAllowed(check: CallocCheck, s: Lib, l: Label)
    requires (l.Serve? || l.Overrun?) && !l.call.Free? && Answers(check, s, l.call, l.reply)
    requires l.call.Realloc? && l.call.ptr != NULL ==> HasHeader(s, l.call.ptr)
    ensures l.reply.NotAsked? <==> !CanAlloc(s, Checked(check, l.call))
  {
    hide CanAlloc, HasHeader;
  }
}
