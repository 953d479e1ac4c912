/** The statistics of hw03: conservation, the leak report, and the limits. */
module MemgrindAccounting {
  import opened Machine
  import opened Memgrind
  import opened MemgrindRuns
  import opened MemgrindTheorems

  // ----- conservation, modulo the width of size_t

  /** The counters agree with a ledger and with what was charged for nothing. */
  ghost predicate Balanced(t: Stats, ledger: map<nat, nat>, lostBytes: nat, lostBlocks: nat)
  {
    && (t.totalUsed - t.totalFreed) % SIZE_MODULUS == (Sum(ledger) + lostBytes) % SIZE_MODULUS
    && (t.allocations - t.deallocations) % SIZE_MODULUS == (|ledger| + lostBlocks) % SIZE_MODULUS
  }

  /** The statistics changed by `d` bytes and `k` blocks net. */
  ghost predicate Shifts(t: Stats, t': Stats, d: int, k: int)
  {
    && (t'.totalUsed - t'.totalFreed) % SIZE_MODULUS == (t.totalUsed - t.totalFreed + d) % SIZE_MODULUS
    && (t'.allocations - t'.deallocations) % SIZE_MODULUS == (t.allocations - t.deallocations + k) % SIZE_MODULUS
  }

  lemma BalancedAfter(t: Stats, t': Stats, ledger: map<nat, nat>, ledger': map<nat, nat>,
                      bytes: nat, bytes': nat, blocks: nat, blocks': nat, d: int, k: int)
    requires Balanced(t, ledger, bytes, blocks) && Shifts(t, t', d, k)
    requires Sum(ledger') + bytes' == Sum(ledger) + bytes + d
    requires |ledger'| + blocks' == |ledger| + blocks + k
    ensures Balanced(t', ledger', bytes', blocks')
  {
    hide Sum;
    ModShift(t.totalUsed - t.totalFreed, Sum(ledger) + bytes, d, SIZE_MODULUS);
    ModShift(t.allocations - t.deallocations, |ledger| + blocks, k, SIZE_MODULUS);
  }

  /** Wrapping additions on both counters shift their difference by the exact amounts. */
  lemma WrappedDifference(a: nat, b: nat, d: nat, e: nat)
    ensures (Plus(a, d) - Plus(b, e)) % SIZE_MODULUS == (a - b + (d - e)) % SIZE_MODULUS
    ensures (Plus(a, d) - b) % SIZE_MODULUS == (a - b + d) % SIZE_MODULUS
    ensures (a - Plus(b, e)) % SIZE_MODULUS == (a - b - e) % SIZE_MODULUS
  {
    ModAdd(a + d, 0 - Plus(b, e), SIZE_MODULUS);
    ModSubtract(a + d, b + e, SIZE_MODULUS);
    ModAdd(a + d, 0 - b, SIZE_MODULUS);
    ModSubtract(a, b + e, SIZE_MODULUS);
  }

  /** Amounts count modulo 2^64 only. */
  lemma ShiftsModulo(t: Stats, t': Stats, d: int, e: int, k: int)
    requires Shifts(t, t', d, k) && d % SIZE_MODULUS == e % SIZE_MODULUS
    ensures Shifts(t, t', e, k)
  {
    ModShift(d, e, t.totalUsed - t.totalFreed, SIZE_MODULUS);
  }

  lemma WrappedModulo(n: nat, d: int)
    ensures (d + Wrapped(n)) % SIZE_MODULUS == (d + n) % SIZE_MODULUS
    ensures (d - Wrapped(n)) % SIZE_MODULUS == (d - n) % SIZE_MODULUS
  {
    ModAdd(n, d, SIZE_MODULUS);
    ModSubtract(d, n, SIZE_MODULUS);
  }

  lemma ChargeShifts(t: Stats, t': Stats, size: nat)
    requires t'.totalUsed == Plus(t.totalUsed, size) && t'.allocations == Plus(t.allocations, 1)
    requires t'.totalFreed == t.totalFreed && t'.deallocations == t.deallocations
    ensures Shifts(t, t', size, 1)
  {
    hide Plus;
    WrappedDifference(t.totalUsed, t.totalFreed, size, 0);
    WrappedDifference(t.allocations, t.deallocations, 1, 0);
  }

  lemma RecountShifts(t: Stats, inPlace: bool, before: nat, after: nat)
    ensures Shifts(t, Recount(t, inPlace, before, after), after - before, 0)
  {
    hide Plus;
    if inPlace {
      if after >= before {
        WrappedDifference(t.totalUsed, t.totalFreed, after - before, 0);
      } else {
        WrappedDifference(t.totalUsed, t.totalFreed, 0, before - after);
      }
    } else {
      WrappedDifference(t.totalUsed, t.totalFreed, after, before);
      WrappedDifference(t.allocations, t.deallocations, 1, 1);
    }
  }

  lemma ReleaseShifts(t: Stats, t': Stats, size: nat)
    requires t'.totalUsed == t.totalUsed && t'.allocations == t.allocations
    requires t'.totalFreed == Plus(t.totalFreed, size) && t'.deallocations == Plus(t.deallocations, 1)
    ensures Shifts(t, t', 0 - size, -1)
  {
    hide Plus;
    WrappedDifference(t.totalUsed, t.totalFreed, 0, size);
    WrappedDifference(t.allocations, t.deallocations, 0, 1);
  }

  /** What a replacement of one booked block by another does to the sums. */
  lemma Rebooked(ledger: map<nat, nat>, ptr: nat, p: nat, size: nat)
    requires ptr in ledger && (p == ptr || p !in ledger)
    ensures var after := (ledger - {ptr})[p := size];
            Sum(after) == Sum(ledger) - ledger[ptr] + size && |after| == |ledger|
  {
    SumWithout(ledger, ptr);
    SmallerMap(ledger, ptr);
    SumWith(ledger - {ptr}, p, size);
  }

  /** A new address is not booked. */
  lemma FreshIsNotBooked(heap: map<nat, Block>, ledger: map<nat, nat>, addr: nat)
    requires HeadersIntact(heap, ledger) && addr !in heap
    ensures addr + HEADER !in ledger
  {
    assert addr + HEADER in ledger ==> Intact(heap, addr + HEADER, Wrapped(ledger[addr + HEADER]));
  }

  lemma AllocateBalances(s: Lib, request: nat, reply: Reply, ledger: map<nat, nat>, bytes: nat, blocks: nat)
    requires HeadersIntact(s.heap, ledger) && Balanced(s.stats, ledger, bytes, blocks)
    requires FreshBlock(s, reply, Wrapped(request) + HEADER)
    ensures var (s', p) := Allocate(s, Wrapped(request), reply);
            if p == NULL then Balanced(s'.stats, ledger, bytes + Wrapped(request), blocks + 1)
            else Balanced(s'.stats, ledger[p := request], bytes, blocks)
  {
    hide Balanced, Shifts, HeadersIntact, Plus, Initialise, Sum, Wrapped;
    var size := Wrapped(request);
    var (s', p) := Allocate(s, size, reply);
    ChargeShifts(s.stats, s'.stats, size);
    if p == NULL {
      BalancedAfter(s.stats, s'.stats, ledger, ledger, bytes, bytes + size, blocks, blocks + 1, size, 1);
    } else {
      FreshIsNotBooked(s.heap, ledger, reply.addr);
      SumWith(ledger, p, request);
      WrappedModulo(request, 0);
      ShiftsModulo(s.stats, s'.stats, size, request, 1);
      BalancedAfter(s.stats, s'.stats, ledger, ledger[p := request], bytes, bytes, blocks, blocks, request, 1);
    }
  }

  /** What a realloc does to the statistics, whatever it does to the heap. */
  lemma ReallocStats(s: Lib, ptr: nat, size: nat, reply: Reply)
    requires reply.Granted? ==> |reply.bytes| >= HEADER
    ensures var (s', p) := ReallocBody(s, ptr, size, reply);
            if p == NULL then s'.stats == Decline(s).stats || s'.stats == Error(s).stats
            else
              && reply.Granted? && p == reply.addr + HEADER && HasHeader(s, ptr)
              && s'.stats == Recount(s.stats, reply.addr == ptr - HEADER, BlockSize(s.heap[ptr - HEADER].bytes), size)
  {
    hide Resize, Recount, Plus;
  }

  lemma ReallocBalances(s: Lib, ptr: nat, size: nat, reply: Reply, ledger: map<nat, nat>, bytes: nat, blocks: nat)
    requires HeadersIntact(s.heap, ledger) && Balanced(s.stats, ledger, bytes, blocks)
    requires ptr in ledger && ResizedBlock(s, ptr - HEADER, reply, size + HEADER)
    ensures var (s', p) := ReallocBody(s, ptr, size, reply);
            Balanced(s'.stats, if p == NULL then ledger else (ledger - {ptr})[p := size], bytes, blocks)
  {
    hide Balanced, Shifts, HeadersIntact, Recount, Plus, ReallocBody, Sum, Wrapped;
    BookedIsIntact(s.heap, ledger, ptr);
    ReallocStats(s, ptr, size, reply);
    var (s', p) := ReallocBody(s, ptr, size, reply);
    if p == NULL {
      BalancedSame(s, ledger, bytes, blocks);
    } else {
      if reply.addr != ptr - HEADER { FreshIsNotBooked(s.heap, ledger, reply.addr); }
      RecountShifts(s.stats, reply.addr == ptr - HEADER, Wrapped(ledger[ptr]), size);
      WrappedModulo(ledger[ptr], size);
      ShiftsModulo(s.stats, s'.stats, size - Wrapped(ledger[ptr]), size - ledger[ptr], 0);
      Rebooked(ledger, ptr, p, size);
      BalancedAfter(s.stats, s'.stats, ledger, (ledger - {ptr})[p := size], bytes, bytes, blocks, blocks,
                    size - ledger[ptr], 0);
    }
  }

  lemma FreeBalances(s: Lib, ptr: nat, ledger: map<nat, nat>, bytes: nat, blocks: nat)
    requires HeadersIntact(s.heap, ledger) && Balanced(s.stats, ledger, bytes, blocks)
    requires ptr == NULL || ptr in ledger
    ensures Balanced(FreeBody(s, ptr).stats, ledger - {ptr}, bytes, blocks)
  {
    hide Balanced, Shifts, HeadersIntact, Plus, Sum, Wrapped;
    if ptr == NULL {
      NullIsNotBooked(s.heap, ledger);
      assert ledger - {ptr} == ledger;
    } else {
      BookedIsIntact(s.heap, ledger, ptr);
      var size: int := ledger[ptr];
      ReleaseShifts(s.stats, FreeBody(s, ptr).stats, Wrapped(ledger[ptr]));
      WrappedModulo(ledger[ptr], 0);
      ShiftsModulo(s.stats, FreeBody(s, ptr).stats, 0 - Wrapped(ledger[ptr]), 0 - size, -1);
      SumWithout(ledger, ptr);
      SmallerMap(ledger, ptr);
      BalancedAfter(s.stats, FreeBody(s, ptr).stats, ledger, ledger - {ptr}, bytes, bytes, blocks, blocks,
                    0 - size, -1);
    }
  }

  lemma ServeBalances(check: CallocCheck, s: Lib, call: Call, reply: Reply,
                      ledger: map<nat, nat>, bytes: nat, blocks: nat)
    requires HeadersIntact(s.heap, ledger) && Balanced(s.stats, ledger, bytes, blocks)
    requires ProperCall(s, call) && Served(check, s, call, reply)
    ensures var (s', result) := Body(check, s, call, reply);
            var l := Serve(call, reply, result);
            Balanced(s'.stats, Book(ledger, l), bytes + (if ChargedForNothing(l) then Wrapped(Request(call)) else 0),
                     blocks + (if ChargedForNothing(l) then 1 else 0))
  {
    hide Balanced, HeadersIntact, ReallocBody, FreeBody, Sum, Allocate, CanAlloc, Decline, Plus;
    match call
    case Malloc(size) =>
      BalancedSame(s, ledger, bytes, blocks);
      RefusedIsNull(s, size, reply);
      AllocateBalances(s, size, reply, ledger, bytes, blocks);
    case Calloc(num, size) =>
      BalancedSame(s, ledger, bytes, blocks);
      RefusedIsNull(s, Product(num, size), reply);
      AllocateBalances(s, num * size, reply, ledger, bytes, blocks);
    case Realloc(ptr, size) =>
      if ptr == NULL {
        BalancedSame(s, ledger, bytes, blocks);
        NullIsNotBooked(s.heap, ledger);
        assert ledger - {NULL} == ledger;
        RefusedIsNull(s, size, reply);
        AllocateBalances(s, size, reply, ledger, bytes, blocks);
      } else {
        LiveIsBooked(s.heap, ledger, ptr);
        ReallocBalances(s, ptr, size, reply, ledger, bytes, blocks);
      }
    case Free(ptr) =>
      if ptr != NULL { LiveIsBooked(s.heap, ledger, ptr); }
      FreeBalances(s, ptr, ledger, bytes, blocks);
  }

  lemma BalancedSame(s: Lib, ledger: map<nat, nat>, bytes: nat, blocks: nat)
    ensures Balanced(s.stats, ledger, bytes, blocks) ==>
              Balanced(Decline(s).stats, ledger, bytes, blocks) && Balanced(Error(s).stats, ledger, bytes, blocks)
  {
    hide Plus, Sum;
  }

  /** Only a served call touches the statistics. */
  lemma ServeOrQuiet(check: CallocCheck, s: State, l: Label, s': State)
    requires Step(check, s, l, s') && !s'.overrun
    ensures l.Serve? ==>
              && ProperCall(s.lib, l.call) && Served(check, s.lib, l.call, l.reply)
              && (s'.lib, l.result) == Body(check, s.lib, l.call, l.reply)
    ensures !l.Serve? ==> s'.lib.stats == s.lib.stats
  {
    hide Body;
  }

  lemma StepBalances(check: CallocCheck, s: State, l: Label, s': State, before: seq<Label>)
    requires Step(check, s, l, s') && !s'.overrun && HeadersIntact(s.lib.heap, Ledger(before))
    requires Balanced(s.lib.stats, Ledger(before), LostBytes(before), LostBlocks(before))
    ensures Balanced(s'.lib.stats, Ledger(before + [l]), LostBytes(before + [l]), LostBlocks(before + [l]))
  {
    hide Balanced, HeadersIntact, Body, Step, Ledger, Served;
    Extend(before, l);
    ServeOrQuiet(check, s, l, s');
    if l.Serve? {
      ServeBalances(check, s.lib, l.call, l.reply, Ledger(before), LostBytes(before), LostBlocks(before));
    }
  }

  /**
    Conservation. Over every run, total_used - total_freed is the sum of the live block sizes
    plus the sizes charged to refused malloc and calloc calls, and allocations minus
    deallocations is the number of live blocks plus those refusals, both in `size_t`
    arithmetic. Nested calls behind the guard appear nowhere in the balance.
   */
  lemma {:induction false} Conservation(check: CallocCheck, limits: Limits,
                                        states: seq<State>, labels: seq<Label>, i: nat)
    requires Execution(check, limits, states, labels) && i < |states| && !states[i].overrun
    ensures Balanced(states[i].lib.stats, Ledger(labels[..i]), LostBytes(labels[..i]), LostBlocks(labels[..i]))
  {
    if i > 0 {
      hide Balanced, HeadersIntact, Step;
      StepOf(check, limits, states, labels, i - 1);
      Conservation(check, limits, states, labels, i - 1);
      HeadersAlwaysIntact(check, limits, states, labels, i - 1);
      StepBalances(check, states[i - 1], labels[i - 1], states[i], labels[..i - 1]);
    }
  }

  // ----- the leak report

  /** print_final, utils.c lines 106-110: the leak line, if it is printed. */
  function LeakLine(t: Stats): (r: Option<(nat, nat)>)
  {
    if t.allocations > t.deallocations then
      Some(((t.totalUsed - t.totalFreed) % SIZE_MODULUS, t.allocations - t.deallocations))
    else None
  }

  /** With fewer than 2^64 labels behind it, the block counters have not wrapped. */
  ghost predicate CountsExact(t: Stats, ledger: map<nat, nat>, lost: nat, n: nat)
  {
    && t.allocations <= n && t.deallocations <= n
    && t.allocations - t.deallocations == |ledger| + lost
  }

  lemma AllocateCounts(s: Lib, request: nat, reply: Reply, ledger: map<nat, nat>, lost: nat, n: nat)
    requires HeadersIntact(s.heap, ledger) && CountsExact(s.stats, ledger, lost, n) && n + 1 < SIZE_MODULUS
    requires FreshBlock(s, reply, Wrapped(request) + HEADER)
    ensures var (s', p) := Allocate(s, Wrapped(request), reply);
            if p == NULL then CountsExact(s'.stats, ledger, lost + 1, n + 1)
            else CountsExact(s'.stats, ledger[p := request], lost, n + 1)
  {
    hide HeadersIntact, Initialise, Sum, Wrapped;
    if reply.Granted? {
      FreshIsNotBooked(s.heap, ledger, reply.addr);
      SumWith(ledger, reply.addr + HEADER, request);
    }
  }

  lemma ReallocCounts(s: Lib, ptr: nat, size: nat, reply: Reply, ledger: map<nat, nat>, lost: nat, n: nat)
    requires HeadersIntact(s.heap, ledger) && CountsExact(s.stats, ledger, lost, n) && n + 1 < SIZE_MODULUS
    requires ptr in ledger && ptr >= HEADER && ResizedBlock(s, ptr - HEADER, reply, size + HEADER)
    ensures var (s', p) := ReallocBody(s, ptr, size, reply);
            CountsExact(s'.stats, if p == NULL then ledger else (ledger - {ptr})[p := size], lost, n + 1)
  {
    hide HeadersIntact, ReallocBody, Sum, HasHeader;
    ReallocStats(s, ptr, size, reply);
    if reply.Granted? {
      if reply.addr != ptr - HEADER { FreshIsNotBooked(s.heap, ledger, reply.addr); }
      Rebooked(ledger, ptr, reply.addr + HEADER, size);
    }
  }

  lemma FreeCounts(s: Lib, ptr: nat, ledger: map<nat, nat>, lost: nat, n: nat)
    requires HeadersIntact(s.heap, ledger) && CountsExact(s.stats, ledger, lost, n) && n + 1 < SIZE_MODULUS
    requires ptr == NULL || ptr in ledger
    ensures CountsExact(FreeBody(s, ptr).stats, ledger - {ptr}, lost, n + 1)
  {
    hide HeadersIntact;
    if ptr == NULL {
      NullIsNotBooked(s.heap, ledger);
      assert ledger - {ptr} == ledger;
    } else {
      BookedIsIntact(s.heap, ledger, ptr);
      SmallerMap(ledger, ptr);
    }
  }

  lemma CountsSame(s: Lib, ledger: map<nat, nat>, lost: nat, n: nat)
    requires CountsExact(s.stats, ledger, lost, n)
    ensures CountsExact(Decline(s).stats, ledger, lost, n + 1)
  {
  }

  lemma ServeCounts(check: CallocCheck, s: Lib, call: Call, reply: Reply,
                    ledger: map<nat, nat>, lost: nat, n: nat)
    requires HeadersIntact(s.heap, ledger) && CountsExact(s.stats, ledger, lost, n) && n + 1 < SIZE_MODULUS
    requires ProperCall(s, call) && Served(check, s, call, reply)
    ensures var (s', result) := Body(check, s, call, reply);
            var l := Serve(call, reply, result);
            CountsExact(s'.stats, Book(ledger, l), lost + (if ChargedForNothing(l) then 1 else 0), n + 1)
  {
    hide HeadersIntact, CountsExact, ReallocBody, FreeBody, Plus, Allocate, CanAlloc, Decline;
    CountsSame(s, ledger, lost, n);
    match call
    case Malloc(size) =>
      RefusedIsNull(s, size, reply);
      AllocateCounts(s, size, reply, ledger, lost, n);
    case Calloc(num, size) =>
      RefusedIsNull(s, Product(num, size), reply);
      AllocateCounts(s, num * size, reply, ledger, lost, n);
    case Realloc(ptr, size) =>
      if ptr == NULL {
        NullIsNotBooked(s.heap, ledger);
        assert ledger - {NULL} == ledger;
        RefusedIsNull(s, size, reply);
        AllocateCounts(s, size, reply, ledger, lost, n);
      } else {
        LiveIsBooked(s.heap, ledger, ptr);
        ReallocCounts(s, ptr, size, reply, ledger, lost, n);
      }
    case Free(ptr) =>
      if ptr != NULL { LiveIsBooked(s.heap, ledger, ptr); }
      FreeCounts(s, ptr, ledger, lost, n);
  }

  lemma StepCounts(check: CallocCheck, s: State, l: Label, s': State, before: seq<Label>, n: nat)
    requires Step(check, s, l, s') && !s'.overrun && HeadersIntact(s.lib.heap, Ledger(before)) && n + 1 < SIZE_MODULUS
    requires CountsExact(s.lib.stats, Ledger(before), LostBlocks(before), n)
    ensures CountsExact(s'.lib.stats, Ledger(before + [l]), LostBlocks(before + [l]), n + 1)
  {
    hide HeadersIntact, Body, Step, Ledger, Served;
    Extend(before, l);
    ServeOrQuiet(check, s, l, s');
    if l.Serve? {
      ServeCounts(check, s.lib, l.call, l.reply, Ledger(before), LostBlocks(before), n);
    }
  }

  lemma {:induction false} CountsStayExact(check: CallocCheck, limits: Limits,
                                           states: seq<State>, labels: seq<Label>, i: nat)
    requires Execution(check, limits, states, labels) && i < |states| && i < SIZE_MODULUS && !states[i].overrun
    ensures CountsExact(states[i].lib.stats, Ledger(labels[..i]), LostBlocks(labels[..i]), i)
  {
    if i == 0 {
      assert labels[..i] == [] && states[0] == Initial(limits);
    }
    if i > 0 {
      hide HeadersIntact, CountsExact, Step;
      StepOf(check, limits, states, labels, i - 1);
      CountsStayExact(check, limits, states, labels, i - 1);
      HeadersAlwaysIntact(check, limits, states, labels, i - 1);
      StepCounts(check, states[i - 1], labels[i - 1], states[i], labels[..i - 1], i - 1);
    }
  }

  /** The leak line that the caller's books call for. */
  ghost function TrueLeak(ledger: map<nat, nat>): (r: Option<(nat, nat)>)
  {
    if |ledger| == 0 then None else Some((Sum(ledger), |ledger|))
  }

  /**
    The leak report, exactly. It is printed exactly when some block is live, with the number of
    live blocks and the sum of their sizes, if and only if no malloc or calloc was charged and
    then refused, and that sum fits `size_t`.
   */
  lemma LeakReportExact(check: CallocCheck, limits: Limits, states: seq<State>, labels: seq<Label>)
    requires Execution(check, limits, states, labels) && |labels| < SIZE_MODULUS && !states[|labels|].overrun
    ensures LeakLine(states[|labels|].lib.stats) == TrueLeak(Ledger(labels))
            <==> (forall k :: 0 <= k < |labels| ==> !ChargedForNothing(labels[k])) && Sum(Ledger(labels)) < SIZE_MODULUS
  {
    hide Sum, StepAt, Ledger, Balanced, LeakLine, TrueLeak;
    assert labels[..|labels|] == labels;
    Conservation(check, limits, states, labels, |labels|);
    CountsStayExact(check, limits, states, labels, |labels|);
    LostExactly(labels);
    Reported(states[|labels|].lib.stats, Ledger(labels), LostBytes(labels), LostBlocks(labels));
  }

  lemma Reported(t: Stats, ledger: map<nat, nat>, bytes: nat, blocks: nat)
    requires Balanced(t, ledger, bytes, blocks) && (blocks == 0 ==> bytes == 0)
    requires t.allocations - t.deallocations == |ledger| + blocks
    ensures LeakLine(t) == TrueLeak(ledger) <==> blocks == 0 && Sum(ledger) < SIZE_MODULUS
  {
    if |ledger| == 0 { assert ledger == map[] && Sum(ledger) == 0; }
    hide Sum;
    var shown: nat := (t.totalUsed - t.totalFreed) % SIZE_MODULUS;
    assert blocks == 0 ==> shown == Wrapped(Sum(ledger));
    hide Balanced;
    assert LeakLine(t) == if |ledger| + blocks > 0 then Some((shown, |ledger| + blocks)) else None;
  }

  lemma {:induction false} LostExactly(labels: seq<Label>)
    ensures LostBlocks(labels) == 0 <==> forall k :: 0 <= k < |labels| ==> !ChargedForNothing(labels[k])
    ensures LostBlocks(labels) == 0 ==> LostBytes(labels) == 0
  {
    if labels != [] {
      var n := |labels| - 1;
      LostExactly(labels[..n]);
      assert forall k :: 0 <= k < n ==> labels[..n][k] == labels[k];
    }
  }

  /** A single malloc that is refused is reported as a leaked block. */
  lemma RefusedMallocReported(size: nat) returns (states: seq<State>, labels: seq<Label>)
    requires size < SIZE_MODULUS
    ensures Execution(OnSize, NO_LIMITS, states, labels)
    ensures |labels| == 3 && labels[2] == Serve(Malloc(size), Refused, NULL)
    ensures Ledger(labels) == map[]
    ensures LeakLine(states[3].lib.stats) == Some((size, 1))
  {
    states, labels := RunOfOneCall(OnSize, NO_LIMITS, Malloc(size), Refused);
  }

  // ----- the two refusal counters

  /** The limits turned the call away before the real allocator was asked. */
  predicate TurnedAway(l: Label)
  {
    l.Serve? && !l.call.Free? && l.reply.NotAsked?
  }

  /** The real allocator was asked and refused. */
  predicate OutOfMemory(l: Label)
  {
    l.Serve? && l.reply.Refused?
  }

  ghost predicate Tallied(t: Stats, t': Stats, l: Label)
  {
    && t'.declined % SIZE_MODULUS == (t.declined + if TurnedAway(l) then 1 else 0) % SIZE_MODULUS
    && t'.errors % SIZE_MODULUS == (t.errors + if OutOfMemory(l) then 1 else 0) % SIZE_MODULUS
  }

  lemma AllocateTallies(s: Lib, size: nat, reply: Reply, l: Label)
    requires l.Serve? && !l.call.Free? && l.reply == reply && !reply.NotAsked?
    requires reply.Granted? ==> |reply.bytes| >= HEADER
    ensures Tallied(s.stats, Allocate(s, size, reply).0.stats, l)
  {
    hide Initialise;
  }

  lemma DeclineTallies(s: Lib, l: Label)
    requires TurnedAway(l)
    ensures Tallied(s.stats, Decline(s).stats, l)
  {
  }

  lemma ReallocTallies(s: Lib, ptr: nat, size: nat, reply: Reply, l: Label)
    requires l.Serve? && !l.call.Free? && l.reply == reply && HasHeader(s, ptr)
    requires reply.NotAsked? <==> !CanAlloc(s, size)
    requires reply.Granted? ==> |reply.bytes| >= HEADER
    ensures Tallied(s.stats, ReallocBody(s, ptr, size, reply).0.stats, l)
  {
    hide Resize, BlockSize, CanAlloc;
  }

  lemma ServeTallies(check: CallocCheck, s: Lib, l: Label, ledger: map<nat, nat>)
    requires l.Serve? && HeadersIntact(s.heap, ledger) && ProperCall(s, l.call) && Served(check, s, l.call, l.reply)
    ensures Tallied(s.stats, Body(check, s, l.call, l.reply).0.stats, l)
  {
    hide HeadersIntact, CanAlloc, ReallocBody, Allocate, Tallied, Decline;
    if TurnedAway(l) { DeclineTallies(s, l); }
    match l.call
    case Malloc(size) =>
      if CanAlloc(s, size) { AllocateTallies(s, size, l.reply, l); }
    case Calloc(num, size) =>
      if !l.reply.NotAsked? { AllocateTallies(s, Product(num, size), l.reply, l); }
    case Realloc(ptr, size) =>
      if ptr != NULL {
        LiveIsBooked(s.heap, ledger, ptr);
        BookedIsIntact(s.heap, ledger, ptr);
        ReallocTallies(s, ptr, size, l.reply, l);
      } else if CanAlloc(s, size) {
        AllocateTallies(s, size, l.reply, l);
      }
    case Free(ptr) =>
      if ptr != NULL {
        LiveIsBooked(s.heap, ledger, ptr);
        BookedIsIntact(s.heap, ledger, ptr);
      }
      FreeTallies(s, ptr, l);
  }

  lemma FreeTallies(s: Lib, ptr: nat, l: Label)
    requires !TurnedAway(l) && !OutOfMemory(l) && (ptr == NULL || HasHeader(s, ptr))
    ensures Tallied(s.stats, FreeBody(s, ptr).stats, l)
  {
    hide BlockSize;
  }

  lemma StepTallies(check: CallocCheck, s: State, l: Label, s': State, ledger: map<nat, nat>)
    requires Step(check, s, l, s') && !s'.overrun && HeadersIntact(s.lib.heap, ledger)
    ensures Tallied(s.lib.stats, s'.lib.stats, l)
  {
    hide HeadersIntact, Body;
    if l.Serve? { ServeTallies(check, s.lib, l, ledger); }
  }

  lemma CountOn(a: nat, a': nat, labels: seq<Label>, l: Label, f: Label -> bool)
    requires a' % SIZE_MODULUS == (a + if f(l) then 1 else 0) % SIZE_MODULUS
    requires a % SIZE_MODULUS == Count(labels, f) % SIZE_MODULUS
    ensures a' % SIZE_MODULUS == Count(labels + [l], f) % SIZE_MODULUS
  {
    var more := labels + [l];
    assert more[..|more| - 1] == labels && more[|more| - 1] == l;
    ModShift(a, Count(labels, f), if f(l) then 1 else 0, SIZE_MODULUS);
  }

  lemma TallyOn(t: Stats, t': Stats, labels: seq<Label>, l: Label)
    requires Tallied(t, t', l)
    requires t.declined % SIZE_MODULUS == Count(labels, TurnedAway) % SIZE_MODULUS
    requires t.errors % SIZE_MODULUS == Count(labels, OutOfMemory) % SIZE_MODULUS
    ensures t'.declined % SIZE_MODULUS == Count(labels + [l], TurnedAway) % SIZE_MODULUS
    ensures t'.errors % SIZE_MODULUS == Count(labels + [l], OutOfMemory) % SIZE_MODULUS
  {
    hide Count, TurnedAway, OutOfMemory;
    CountOn(t.declined, t'.declined, labels, l, TurnedAway);
    CountOn(t.errors, t'.errors, labels, l, OutOfMemory);
  }

  /**
    The refusal counters. On valid pointers the header test never fails, so in every reachable
    state `declined` counts exactly the calls the limits turned away and `errors` exactly those
    the real allocator refused, in `size_t` arithmetic.
   */
  lemma {:induction false} RefusalsCounted(check: CallocCheck, limits: Limits,
                                           states: seq<State>, labels: seq<Label>, i: nat)
    requires Execution(check, limits, states, labels) && i < |states| && !states[i].overrun
    ensures states[i].lib.stats.declined % SIZE_MODULUS == Count(labels[..i], TurnedAway) % SIZE_MODULUS
    ensures states[i].lib.stats.errors % SIZE_MODULUS == Count(labels[..i], OutOfMemory) % SIZE_MODULUS
  {
    if i == 0 {
      assert labels[..0] == [] && states[0] == Initial(limits);
    } else {
      hide HeadersIntact, Tallied, Step;
      StepOf(check, limits, states, labels, i - 1);
      RefusalsCounted(check, limits, states, labels, i - 1);
      HeadersAlwaysIntact(check, limits, states, labels, i - 1);
      StepTallies(check, states[i - 1], labels[i - 1], states[i], Ledger(labels[..i - 1]));
      TallyOn(states[i - 1].lib.stats, states[i].lib.stats, labels[..i - 1], labels[i - 1]);
    }
  }

  // ----- limits

  ghost predicate WithinLimits(s: Lib, ledger: map<nat, nat>)
  {
    && s.stats.totalUsed <= s.limits.memMax
    && s.stats.allocations <= s.limits.allocCount
    && forall p :: p in ledger ==> ledger[p] <= s.limits.allocMax
  }

  /** No `size_t` sum of this call wraps. */
  predicate NoWrap(s: Lib, l: Label)
  {
    l.Serve? && !l.call.Free? ==>
      && s.stats.totalUsed + Request(l.call) < SIZE_MODULUS
      && s.stats.allocations + 1 < SIZE_MODULUS
      && (l.call.Calloc? ==> s.stats.totalUsed + l.call.size < SIZE_MODULUS)
  }

  /** The limit check covers the whole request: always except for calloc of several items as written. */
  predicate CheckCovers(check: CallocCheck, l: Label)
  {
    check.OnSize? && l.Serve? && l.call.Calloc? ==> l.call.num <= 1
  }

  /** A calloc that the real allocator is asked about fits the total, and its block the block limit. */
  predicate Covered(s: Lib, l: Label)
  {
    l.Serve? && l.call.Calloc? && !l.reply.NotAsked? ==>
      && s.stats.totalUsed + l.call.num * l.call.size <= s.limits.memMax
      && (l.reply.Granted? ==> l.call.num * l.call.size <= s.limits.allocMax)
  }

  /**
    One charged allocation, granted or refused: the total counts it either way, the block limit
    concerns a block only if there is one.
   */
  lemma AllocateWithinLimitsExactly(s: Lib, n: nat, reply: Reply, ledger: map<nat, nat>)
    requires WithinLimits(s, ledger) && Plus(s.stats.allocations, 1) <= s.limits.allocCount
    requires s.stats.totalUsed + n < SIZE_MODULUS
    requires reply.Granted? ==> |reply.bytes| >= HEADER
    ensures var (s', p) := Allocate(s, n, reply);
            WithinLimits(s', if p == NULL then ledger else ledger[p := n])
            <==> s.stats.totalUsed + n <= s.limits.memMax && (reply.Granted? ==> n <= s.limits.allocMax)
  {
    hide Initialise;
    var (s', p) := Allocate(s, n, reply);
    if reply.Granted? {
      var after := ledger[p := n];
      assert after[p] == n;
      assert n <= s.limits.allocMax ==> forall q :: q in after ==> after[q] <= s.limits.allocMax;
    }
  }

  lemma ReallocWithinLimits(s: Lib, ptr: nat, size: nat, reply: Reply, ledger: map<nat, nat>)
    requires WithinLimits(s, ledger)
    requires s.stats.totalUsed + size < SIZE_MODULUS && s.stats.allocations + 1 < SIZE_MODULUS
    requires reply.Granted? ==> |reply.bytes| >= HEADER
    ensures var (s', p) := ReallocBody(s, ptr, size, reply);
            WithinLimits(s', if p == NULL then ledger else (ledger - {ptr})[p := size])
  {
  }

  lemma ServeWithinLimitsExactly(check: CallocCheck, s: Lib, l: Label, ledger: map<nat, nat>)
    requires l.Serve? && ProperCall(s, l.call) && Served(check, s, l.call, l.reply)
    requires WithinLimits(s, ledger) && NULL !in ledger && NoWrap(s, l)
    requires l.result == Body(check, s, l.call, l.reply).1
    ensures WithinLimits(Body(check, s, l.call, l.reply).0, Book(ledger, l)) <==> Covered(s, l)
  {
    hide ReallocBody, Allocate;
    match l.call
    case Malloc(size) =>
      if CanAlloc(s, size) { AllocateWithinLimitsExactly(s, size, l.reply, ledger); }
    case Calloc(num, size) =>
      if !l.reply.NotAsked? { AllocateWithinLimitsExactly(s, num * size, l.reply, ledger); }
    case Realloc(ptr, size) =>
      if ptr == NULL {
        assert ledger - {NULL} == ledger;
        if CanAlloc(s, size) { AllocateWithinLimitsExactly(s, size, l.reply, ledger); }
      } else {
        ReallocWithinLimits(s, ptr, size, l.reply, ledger);
      }
    case Free(_) =>
  }

  lemma StepWithinLimitsExactly(check: CallocCheck, s: State, l: Label, s': State, ledger: map<nat, nat>)
    requires Step(check, s, l, s') && !s'.overrun && WithinLimits(s.lib, ledger) && HeadersIntact(s.lib.heap, ledger)
    requires NoWrap(s.lib, l)
    ensures WithinLimits(s'.lib, Book(ledger, l)) <==> Covered(s.lib, l)
  {
    hide HeadersIntact, Body;
    if l.Serve? {
      NullIsNotBooked(s.lib.heap, ledger);
      ServeWithinLimitsExactly(check, s.lib, l, ledger);
    }
  }

  ghost predicate LimitsAt(states: seq<State>, labels: seq<Label>, j: nat)
    requires j <= |labels| && j < |states|
  {
    WithinLimits(states[j].lib, Ledger(labels[..j]))
  }

  /**
    Limits over whole runs, exactly. As long as no sum wraps, the total, the number of
    allocations and every live block stay within their limits, across moving and in-place
    reallocs, if and only if every calloc that reached the real allocator, granted or refused,
    fitted the total, and every granted one the block limit.
   */
  lemma {:induction false} LimitsHoldExactly(check: CallocCheck, limits: Limits,
                                             states: seq<State>, labels: seq<Label>, i: nat)
    requires Execution(check, limits, states, labels) && i < |states| && !states[i].overrun
    requires forall k :: 0 <= k < i ==> NoWrap(states[k].lib, labels[k])
    ensures (forall j :: 0 <= j <= i ==> LimitsAt(states, labels, j))
            <==> forall k :: 0 <= k < i ==> Covered(states[k].lib, labels[k])
  {
    hide LimitsAt, Covered, NoWrap, StepAt;
    if i == 0 {
      AtStart(check, limits, states, labels);
    } else {
      StepOf(check, limits, states, labels, i - 1);
      LimitsHoldExactly(check, limits, states, labels, i - 1);
      if LimitsAt(states, labels, i - 1) { NextWithinLimitsExactly(check, limits, states, labels, i - 1); }
      hide Step;
      assert (forall j :: 0 <= j <= i ==> LimitsAt(states, labels, j))
          <==> (forall j :: 0 <= j <= i - 1 ==> LimitsAt(states, labels, j)) && LimitsAt(states, labels, i);
    }
  }

  lemma AtStart(check: CallocCheck, limits: Limits, states: seq<State>, labels: seq<Label>)
    requires Execution(check, limits, states, labels)
    ensures LimitsAt(states, labels, 0)
  {
    assert labels[..0] == [];
  }

  lemma NextWithinLimitsExactly(check: CallocCheck, limits: Limits, states: seq<State>, labels: seq<Label>, i: nat)
    requires Execution(check, limits, states, labels) && i < |labels| && !states[i + 1].overrun
    requires NoWrap(states[i].lib, labels[i]) && LimitsAt(states, labels, i)
    ensures LimitsAt(states, labels, i + 1) <==> Covered(states[i].lib, labels[i])
  {
    hide HeadersIntact, WithinLimits, Step, Covered, NoWrap, Book, Ledger;
    StepOf(check, limits, states, labels, i);
    HeadersAlwaysIntact(check, limits, states, labels, i);
    Extend(labels[..i], labels[i]);
    StepWithinLimitsExactly(check, states[i], labels[i], states[i + 1], Ledger(labels[..i]));
  }

  /** The check that was passed covers the request. */
  lemma CheckedIsCovered(check: CallocCheck, s: State, l: Label, s': State)
    requires Step(check, s, l, s') && NoWrap(s.lib, l) && CheckCovers(check, l)
    ensures Covered(s.lib, l)
  {
    hide Body;
    if l.Serve? && l.call.Calloc? && l.call.num <= 1 {
      assert l.call.num * l.call.size <= l.call.size by { MulMonotone(l.call.num, 1, l.call.size); }
    }
  }

  /**
    So the limits hold on every run in which no calloc asks for more than one item. With the
    check taken on num * size, they hold for every calloc.
   */
  lemma LimitsHold(check: CallocCheck, limits: Limits, states: seq<State>, labels: seq<Label>, i: nat)
    requires Execution(check, limits, states, labels) && i < |states| && !states[i].overrun
    requires forall k :: 0 <= k < i ==> NoWrap(states[k].lib, labels[k]) && CheckCovers(check, labels[k])
    ensures WithinLimits(states[i].lib, Ledger(labels[..i]))
  {
    hide WithinLimits, Step, Covered, NoWrap, CheckCovers;
    forall k | 0 <= k < i
      ensures Covered(states[k].lib, labels[k])
    {
      StepOf(check, limits, states, labels, k);
      CheckedIsCovered(check, states[k], labels[k], states[k + 1]);
    }
    LimitsHoldExactly(check, limits, states, labels, i);
    assert LimitsAt(states, labels, i);
  }

  /** A calloc of three blocks of the largest allowed size passes the check. */
  lemma OverLimitCall(memMax: nat, reply: Reply)
    requires memMax >= 10 && (reply == Refused || reply == Granted(4096, Zeros(46)))
    ensures var lib, call := Initial(Limits(memMax, 10, 5)).lib, Calloc(3, 10);
            && ProperCall(lib, call) && Served(OnSize, lib, call, reply)
            && Body(OnSize, lib, call, reply).1 == if reply.Granted? then 4096 + HEADER else NULL
  {
    hide Initialise;
    assert Wrapped(3 * 10) == 30;
  }

  /** What it breaks: the block limit if granted, the total even if refused. */
  lemma OverLimitState(memMax: nat, reply: Reply)
    requires memMax >= 10 && (reply == Refused || reply == Granted(4096, Zeros(46)))
    requires reply.Granted? || memMax < 30
    ensures var lib := Initial(Limits(memMax, 10, 5)).lib;
            !WithinLimits(Body(OnSize, lib, Calloc(3, 10), reply).0,
                          if reply.Granted? then map[4096 + HEADER := 30] else map[])
  {
    hide Initialise;
    assert map[4096 + HEADER := 30][4096 + HEADER] == 30;
  }

  /** Both happen, in runs of a single call: a granted one and a refused one. */
  lemma CallocBreaksLimits(memMax: nat, granted: bool) returns (states: seq<State>, labels: seq<Label>)
    requires memMax >= 10 && (granted || memMax < 30)
    ensures Execution(OnSize, Limits(memMax, 10, 5), states, labels) && !states[|labels|].overrun
    ensures forall k :: 0 <= k < |labels| ==> NoWrap(states[k].lib, labels[k])
    ensures |labels| == 3 && labels[2].Serve? && labels[2].call == Calloc(3, 10)
    ensures labels[2].reply.Granted? == granted && (granted || labels[2].reply == Refused)
    ensures !WithinLimits(states[|labels|].lib, Ledger(labels))
  {
    hide Body, WithinLimits, Served;
    var reply := if granted then Granted(4096, Zeros(46)) else Refused;
    OverLimitCall(memMax, reply);
    OverLimitState(memMax, reply);
    states, labels := RunOfOneCall(OnSize, Limits(memMax, 10, 5), Calloc(3, 10), reply);
    assert Ledger(labels) == if granted then map[4096 + HEADER := 30] else map[];
  }
}
