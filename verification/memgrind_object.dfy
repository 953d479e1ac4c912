/** The library as an object whose calls update its statistics, guard and heap in place. */
module MemgrindObject {
  import opened Machine
  import opened Memgrind
  import opened MemgrindRuns
  import opened MemgrindTheorems
  import opened MemgrindAccounting

  class Library {
    var limits: Limits
    var stats: Stats
    var guard: bool
    var heap: map<nat, Block>

    function View(): Lib
      reads this
    {
      Lib(limits, stats, heap)
    }

    /** The state after library_init. */
    constructor (limits: Limits)
      ensures View() == Lib(limits, Stats(0, 0, 0, 0, 0, 0), map[]) && !guard
    {
      this.limits := limits;
      stats := Stats(0, 0, 0, 0, 0, 0);
      guard := false;
      heap := map[];
    }

    method CheckLimits(size: nat) returns (ok: bool)
      modifies this`stats
      ensures ok == old(CanAlloc(View(), size))
      ensures View() == if ok then old(View()) else Decline(old(View()))
    {
      if limits.allocMax < size {
        stats := stats.(declined := Plus(stats.declined, 1));
        return false;
      }
      if limits.memMax < Plus(stats.totalUsed, size) {
        stats := stats.(declined := Plus(stats.declined, 1));
        return false;
      }
      if limits.allocCount < Plus(stats.allocations, 1) {
        stats := stats.(declined := Plus(stats.declined, 1));
        return false;
      }
      return true;
    }

    /** A call made while the guard is up goes straight to the real allocator. */
    method PassThrough(ptr: nat, reply: Reply) returns (p: nat)
      modifies this`heap
      ensures (View(), p) == Passed(old(View()), ptr, reply)
    {
      if reply.Granted? {
        heap := (heap - {ptr})[reply.addr := Block(reply.bytes, true)];
        return reply.addr;
      }
      return NULL;
    }

    method Malloc(size: nat, reply: Reply) returns (p: nat)
      requires !guard && reply.Granted? ==> |reply.bytes| >= HEADER
      modifies this
      ensures guard == old(guard)
      ensures !guard ==> (View(), p) == MallocBody(old(View()), size, reply)
      ensures guard ==> (View(), p) == Passed(old(View()), NULL, reply)
    {
      if guard {
        p := PassThrough(NULL, reply);
        return;
      }
      guard := true;
      var ok := CheckLimits(size);
      if !ok {
        guard := false;
        return NULL;
      }
      p := Charge(size, reply);
      guard := false;
    }

    method Calloc(num: nat, size: nat, reply: Reply) returns (p: nat)
      requires !guard && reply.Granted? ==> |reply.bytes| >= HEADER
      modifies this
      ensures guard == old(guard)
      ensures !guard ==> (View(), p) == CallocBody(OnSize, old(View()), num, size, reply)
      ensures guard ==> (View(), p) == Passed(old(View()), NULL, reply)
    {
      if guard {
        p := PassThrough(NULL, reply);
        return;
      }
      guard := true;
      var ok := CheckLimits(size);
      if !ok {
        guard := false;
        return NULL;
      }
      p := Charge(Product(num, size), reply);
      guard := false;
    }

    method Charge(size: nat, reply: Reply) returns (p: nat)
      requires reply.Granted? ==> |reply.bytes| >= HEADER
      modifies this`stats, this`heap
      ensures (View(), p) == Allocate(old(View()), size, reply)
    {
      stats := stats.(allocations := Plus(stats.allocations, 1));
      stats := stats.(totalUsed := Plus(stats.totalUsed, size));
      if !reply.Granted? {
        stats := stats.(errors := Plus(stats.errors, 1));
        return NULL;
      }
      heap := heap[reply.addr := Block(Initialise(reply.bytes, size), false)];
      return reply.addr + HEADER;
    }

    method Realloc(ptr: nat, size: nat, reply: Reply) returns (p: nat)
      requires !guard && reply.Granted? ==> |reply.bytes| >= HEADER
      modifies this
      ensures guard == old(guard)
      ensures !guard ==> (View(), p) == Body(OnSize, old(View()), Memgrind.Realloc(ptr, size), reply)
      ensures guard ==> (View(), p) == Passed(old(View()), ptr, reply)
    {
      hide Plus, Resize, BlockSize;
      if ptr == NULL {
        p := Malloc(size, reply);
        return;
      }
      if guard {
        p := PassThrough(ptr, reply);
        return;
      }
      guard := true;
      var ok := CheckLimits(size);
      if !ok {
        guard := false;
        return NULL;
      }
      if !HasHeader(View(), ptr) || !reply.Granted? {
        stats := stats.(errors := Plus(stats.errors, 1));
        guard := false;
        return NULL;
      }
      var base := ptr - HEADER;
      var blockSize := BlockSize(heap[base].bytes);
      if reply.addr == base {
        if size >= blockSize {
          stats := stats.(totalUsed := Plus(stats.totalUsed, size - blockSize));
        } else {
          stats := stats.(totalFreed := Plus(stats.totalFreed, blockSize - size));
        }
      } else {
        stats := stats.(allocations := Plus(stats.allocations, 1));
        stats := stats.(deallocations := Plus(stats.deallocations, 1));
        stats := stats.(totalUsed := Plus(stats.totalUsed, size));
        stats := stats.(totalFreed := Plus(stats.totalFreed, blockSize));
      }
      heap := (heap - {base})[reply.addr := Block(Resize(reply.bytes, size), false)];
      guard := false;
      return reply.addr + HEADER;
    }

    method Free(ptr: nat)
      modifies this
      ensures guard == old(guard)
      ensures !guard ==> View() == FreeBody(old(View()), ptr)
      ensures guard ==> View() == old(View().(heap := View().heap - {ptr}))
    {
      if guard {
        heap := heap - {ptr};
        return;
      }
      guard := true;
      if ptr == NULL {
        guard := false;
        return;
      }
      if !HasHeader(View(), ptr) {
        stats := stats.(errors := Plus(stats.errors, 1));
        guard := false;
        return;
      }
      var base := ptr - HEADER;
      stats := stats.(deallocations := Plus(stats.deallocations, 1));
      stats := stats.(totalFreed := Plus(stats.totalFreed, BlockSize(heap[base].bytes)));
      heap := heap - {base};
      guard := false;
    }

    /** One call of the program, through whichever function it is. */
    method Perform(call: Call, reply: Reply) returns (p: nat)
      requires !guard && (reply.Granted? ==> |reply.bytes| >= HEADER)
      modifies this
      ensures !guard && (View(), p) == Body(OnSize, old(View()), call, reply)
    {
      hide MallocBody, CallocBody, ReallocBody, FreeBody;
      match call
      case Malloc(size) => p := Malloc(size, reply);
      case Calloc(num, size) => p := Calloc(num, size, reply);
      case Realloc(ptr, size) => p := Realloc(ptr, size, reply);
      case Free(ptr) =>
        Free(ptr);
        p := NULL;
    }

    /**
      A program that makes these calls on a freshly loaded library and gets these answers. The
      object goes through a run of the model, so what is proved of runs holds of the object:
      its headers are intact and its counters balance. It stops early, after `done` calls, only
      at a block without room for the header.
     */
    method Drive(script: seq<(Call, Reply)>)
      returns (done: nat, ghost states: seq<State>, ghost labels: seq<Label>)
      requires !guard && View() == Initial(limits).lib && Plausible(View(), script)
      modifies this
      ensures Execution(OnSize, old(limits), states, labels)
      ensures done <= |script| && Calls(labels) == script[..done]
      ensures done < |script| ==>
                labels != [] && labels[|labels| - 1] == Overrun(script[done].0, script[done].1)
      ensures done == |script| ==> !guard && states[|labels|] == State(View(), false, None, false)
      ensures done == |script| ==> HeadersIntact(heap, Ledger(labels))
      ensures done == |script| ==> Balanced(stats, Ledger(labels), LostBytes(labels), LostBlocks(labels))
    {
      hide Body, Step, HeadersIntact, Balanced, Served, Answers, ProperCall;
      states, labels := AfterInit(limits);
      ghost var begin := limits;
      done := 0;
      while done < |script|
        invariant done <= |script| && !guard && Execution(OnSize, begin, states, labels)
        invariant states[|labels|] == State(View(), false, None, false)
        invariant Calls(labels) == script[..done]
        invariant Plausible(View(), script[done..])
      {
        var (call, reply) := script[done];
        NextCall(View(), script[done..]);
        ghost var before := View();
        if reply.Granted? && |reply.bytes| < HEADER {
          states, labels := OverrunSteps(OnSize, begin, states, labels, before, call, reply);
          return;
        }
        var p := Perform(call, reply);
        states, labels := CallSteps(OnSize, begin, states, labels, before, call, reply);
        assert script[..done + 1] == script[..done] + [script[done]] && script[done..][1..] == script[done + 1..];
        done := done + 1;
      }
      assert labels[..|labels|] == labels;
      HeadersAlwaysIntact(OnSize, begin, states, labels, |labels|);
      Conservation(OnSize, begin, states, labels, |labels|);
    }
  }

  /** Every call of the script is proper, and every answer possible, in the state it meets. */
  ghost predicate Plausible(lib: Lib, script: seq<(Call, Reply)>)
    decreases |script|
  {
    script == [] ||
    (ProperCall(lib, script[0].0) && Answers(OnSize, lib, script[0].0, script[0].1)
     && (Served(OnSize, lib, script[0].0, script[0].1) ==>
           Plausible(Body(OnSize, lib, script[0].0, script[0].1).0, script[1..])))
  }

  lemma NextCall(lib: Lib, script: seq<(Call, Reply)>)
    requires script != [] && Plausible(lib, script)
    ensures var (call, reply) := script[0];
            && ProperCall(lib, call) && Answers(OnSize, lib, call, reply)
            && (if reply.Granted? && |reply.bytes| < HEADER then !Served(OnSize, lib, call, reply)
                else Served(OnSize, lib, call, reply) && Plausible(Body(OnSize, lib, call, reply).0, script[1..]))
  {
  }

  /** The calls of a run with the answers they got. */
  function Calls(labels: seq<Label>): (cs: seq<(Call, Reply)>)
  {
    if labels == [] then []
    else
      var n := |labels| - 1;
      Calls(labels[..n]) + (if labels[n].Serve? then [(labels[n].call, labels[n].reply)] else [])
  }

  lemma CallsSnoc(labels: seq<Label>, l: Label)
    ensures Calls(labels + [l]) == Calls(labels) + (if l.Serve? then [(l.call, l.reply)] else [])
  {
    assert (labels + [l])[..|labels|] == labels;
  }

  /** One more step at the end of a run. */
  lemma Continue(check: CallocCheck, limits: Limits, states: seq<State>, labels: seq<Label>, l: Label, s': State)
    requires Execution(check, limits, states, labels) && Step(check, states[|labels|], l, s')
    ensures Execution(check, limits, states + [s'], labels + [l])
    ensures Calls(labels + [l]) == Calls(labels) + (if l.Serve? then [(l.call, l.reply)] else [])
  {
    hide Step;
    var more, ls := states + [s'], labels + [l];
    forall i | 0 <= i < |ls|
      ensures StepAt(check, more, ls, i)
    {
      if i < |labels| { StepOf(check, limits, states, labels, i); }
    }
    CallsSnoc(labels, l);
  }

  lemma AfterInit(limits: Limits) returns (states: seq<State>, labels: seq<Label>)
    ensures Execution(OnSize, limits, states, labels) && Calls(labels) == []
    ensures states[|labels|] == State(Initial(limits).lib, false, None, false)
  {
    var s0 := Initial(limits);
    var s1 := s0.(guard := false);
    assert Step(OnSize, s0, Leave, s1);
    hide Step;
    states, labels := [s0, s1], [Leave];
    assert StepAt(OnSize, states, labels, 0);
    assert labels[..0] == [];
  }

  /** A call is three steps: raise the guard, serve, lower the guard. */
  lemma CallSteps(check: CallocCheck, limits: Limits, states: seq<State>, labels: seq<Label>,
                  lib: Lib, call: Call, reply: Reply)
    returns (states': seq<State>, labels': seq<Label>)
    requires Execution(check, limits, states, labels) && states[|labels|] == State(lib, false, None, false)
    requires ProperCall(lib, call) && Served(check, lib, call, reply)
    ensures Execution(check, limits, states', labels')
    ensures states'[|labels'|] == State(Body(check, lib, call, reply).0, false, None, false)
    ensures Calls(labels') == Calls(labels) + [(call, reply)]
  {
    hide Body, ProperCall, Execution, Calls;
    var (lib', p) := Body(check, lib, call, reply);
    var raised, served := State(lib, true, Some(call), false), State(lib', true, None, false);
    var left := State(lib', false, None, false);
    SameLength(check, limits, states, labels);
    Continue(check, limits, states, labels, Begin(call), raised);
    Continue(check, limits, states + [raised], labels + [Begin(call)], Serve(call, reply, p), served);
    states', labels' := states + [raised] + [served], labels + [Begin(call)] + [Serve(call, reply, p)];
    Continue(check, limits, states', labels', Leave, left);
    states', labels' := states' + [left], labels' + [Leave];
  }

  /** A call that overruns is two: raise the guard, and the end. */
  lemma OverrunSteps(check: CallocCheck, limits: Limits, states: seq<State>, labels: seq<Label>,
                     lib: Lib, call: Call, reply: Reply)
    returns (states': seq<State>, labels': seq<Label>)
    requires Execution(check, limits, states, labels) && states[|labels|] == State(lib, false, None, false)
    requires ProperCall(lib, call) && Answers(check, lib, call, reply) && !Served(check, lib, call, reply)
    ensures Execution(check, limits, states', labels') && Calls(labels') == Calls(labels)
    ensures labels' != [] && labels'[|labels'| - 1] == Overrun(call, reply)
  {
    hide ProperCall, Answers, Served, Execution, Calls;
    var raised, over := State(lib, true, Some(call), false), State(lib, true, Some(call), true);
    SameLength(check, limits, states, labels);
    Continue(check, limits, states, labels, Begin(call), raised);
    Continue(check, limits, states + [raised], labels + [Begin(call)], Overrun(call, reply), over);
    states', labels' := states + [raised] + [over], labels + [Begin(call)] + [Overrun(call, reply)];
  }

  lemma SameLength(check: CallocCheck, limits: Limits, states: seq<State>, labels: seq<Label>)
    requires Execution(check, limits, states, labels)
    ensures |states| == |labels| + 1
  {
  }
}
