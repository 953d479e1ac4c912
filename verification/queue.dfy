/**
  hw09/queue.c as critical sections. A call that blocks is cut where the thread gives up
  the mutex in pthread_cond_wait, so each section runs atomically: from the call (or from
  the return of the wait) to the next wait or to the final unlock.
 */
module QueueSections {
  import opened Machine
  import opened RingBuffer

  datatype Code = Success | WrongArg | CantLock | QueueFull | QueueEmpty | QueueAbort

  /** How a section ends: the call returns a code, or the thread waits on its condition. */
  datatype Outcome = Returns(code: Code) | Blocks

  datatype Condition = CondPush | CondPop

  /** What a section does to the condition variables. */
  datatype CondOp = Wait(c: Condition) | Signal(c: Condition) | Broadcast(c: Condition)

  predicate Done(o: Outcome) { o == Returns(Success) }

  /** The condition operations of a push that ends in `o`, and of a pop. */
  function PushOps(o: Outcome): (ops: seq<CondOp>)
  {
    if Done(o) then [Signal(CondPop)] else if o.Blocks? then [Wait(CondPush)] else []
  }

  function PopOps(o: Outcome): (ops: seq<CondOp>)
  {
    if Done(o) then [Signal(CondPush)] else if o.Blocks? then [Wait(CondPop)] else []
  }

  /** Everything the mutex protects. */
  datatype Shared = Shared(ring: Ring, aborted: bool, waitingPush: nat, waitingPop: nat)

  /** queue_push, lines 196-221; `resumed` is an iteration that begins after the wait. */
  function PushSection(s: Shared, e: Elem, resumed: bool): (r: (Shared, Outcome))
    requires s.ring.Valid() && |e| == s.ring.elemSize
    requires resumed ==> s.waitingPush > 0
  {
    var s1 := if resumed then s.(waitingPush := s.waitingPush - 1) else s;
    if s1.ring.IsFull() then
      if s1.aborted then (s1, Returns(QueueAbort))
      else (s1.(waitingPush := s1.waitingPush + 1), Blocks)
    else
      (s1.(ring := s1.ring.Store(e)), Returns(Success))
  }

  /** queue_pop, lines 228-257. */
  function PopSection(s: Shared, resumed: bool): (r: (Shared, Outcome))
    requires s.ring.Valid()
    requires resumed ==> s.waitingPop > 0
  {
    var s1 := if resumed then s.(waitingPop := s.waitingPop - 1) else s;
    if s1.ring.IsEmpty() then
      if s1.aborted then (s1, Returns(QueueAbort))
      else (s1.(waitingPop := s1.waitingPop + 1), Blocks)
    else
      (s1.(ring := s1.ring.Release()), Returns(Success))
  }

  /** queue_try_push, lines 267-289; `locked` tells whether the trylock succeeded. */
  function TryPushSection(s: Shared, e: Elem, locked: bool): (r: (Shared, Outcome))
    requires s.ring.Valid() && |e| == s.ring.elemSize
  {
    if !locked then (s, Returns(CantLock))
    else if s.ring.IsFull() then (s, Returns(QueueFull))
    else (s.(ring := s.ring.Store(e)), Returns(Success))
  }

  /** queue_try_pop, lines 295-320. */
  function TryPopSection(s: Shared, locked: bool): (r: (Shared, Outcome))
    requires s.ring.Valid()
  {
    if !locked then (s, Returns(CantLock))
    else if s.ring.IsEmpty() then (s, Returns(QueueEmpty))
    else (s.(ring := s.ring.Release()), Returns(Success))
  }

  /** queue_forecast, lines 180-185: unsigned arithmetic converted to `ssize_t`. */
  function Forecast(s: Shared): (f: int)
  {
    AsSigned((s.ring.size - s.waitingPop) % SIZE_MODULUS + s.waitingPush)
  }
}

/** The queue object itself, with its byte buffer updated in place. */
module QueueObject {
  import opened Machine
  import opened RingBuffer
  import opened QueueSections

  /** memcpy over two distinct buffers. */
  method Memcpy(dst: array<byte>, to: nat, src: array<byte>, from: nat, n: nat)
    requires dst != src
    requires to + n <= dst.Length && from + n <= src.Length
    modifies dst
    ensures dst[..] == old(dst[..to]) + src[from..from + n] + old(dst[to + n..])
  {
    ghost var before := dst[..];
    for i := 0 to n
      invariant dst[..to] == before[..to]
      invariant dst[to..to + i] == src[from..from + i]
      invariant dst[to + i..] == before[to + i..]
    {
      dst[to + i] := src[from + i];
    }
  }

  class Queue {
    const capacity: nat
    const elemSize: nat
    const memory: array<byte>
    var queueSize: nat
    var readPointer: nat
    var writePointer: nat
    var aborted: bool
    var waitingForPop: nat
    var waitingForPush: nat
    /** The calls made on the condition variables so far. */
    var condOps: seq<CondOp>

    function View(): Shared
      reads this, memory
    {
      Shared(Ring(capacity, elemSize, memory[..], queueSize, readPointer, writePointer),
             aborted, waitingForPush, waitingForPop)
    }

    ghost predicate Valid()
      reads this, memory
    {
      View().ring.Valid()
    }

    /** queue_create with every allocation succeeding, lines 64-77. */
    constructor (elemSize: nat, capacity: nat)
      ensures Valid() && fresh(memory)
      ensures View() == Shared(EmptyRing(capacity, elemSize), false, 0, 0) && condOps == []
    {
      this.elemSize, this.capacity := elemSize, capacity;
      memory := new byte[capacity * elemSize](_ => 0);
      queueSize, readPointer, writePointer := 0, 0, 0;
      aborted, waitingForPop, waitingForPush, condOps := false, 0, 0, [];
      new;
      assert memory[..] == Zeros(capacity * elemSize);
    }

    predicate IsFull()
      reads this
    {
      queueSize == capacity
    }

    predicate IsEmpty()
      reads this
    {
      queueSize == 0
    }

    /** The copy and index update shared by both pushes. */
    method Insert(elem: array<byte>)
      requires Valid() && !IsFull()
      requires elem != memory && elem.Length >= elemSize
      modifies this`writePointer, this`queueSize, memory
      ensures View() == old(View().(ring := View().ring.Store(elem[..elemSize])))
    {
      SlotInBounds(writePointer, capacity, elemSize);
      Memcpy(memory, writePointer * elemSize, elem, 0, elemSize);
      writePointer := (writePointer + 1) % capacity;
      queueSize := queueSize + 1;
    }

    /** The copy and index update shared by both pops. The copy is taken at the write pointer. */
    method Remove(elem: array?<byte>)
      requires Valid() && !IsEmpty()
      requires elem != null ==> elem != memory && elem.Length >= elemSize
      modifies this`readPointer, this`queueSize, elem
      ensures View() == old(View().(ring := View().ring.Release()))
      ensures elem != null ==> elem[..] == old(View().ring.Fetch(AtWrite) + elem[elemSize..])
    {
      if elem != null {
        SlotInBounds(writePointer, capacity, elemSize);
        Memcpy(elem, 0, memory, writePointer * elemSize, elemSize);
      }
      readPointer := (readPointer + 1) % capacity;
      queueSize := queueSize - 1;
    }

    method Push(elem: array?<byte>, resumed: bool) returns (o: Outcome)
      requires Valid() && (resumed ==> elem != null && waitingForPush > 0)
      requires elem != null ==> elem != memory && elem.Length >= elemSize
      modifies this, memory
      ensures Valid()
      ensures condOps == old(condOps) + PushOps(o)
      ensures elem == null ==> o == Returns(WrongArg) && View() == old(View())
      ensures elem != null ==> (View(), o) == PushSection(old(View()), old(elem[..elemSize]), resumed)
    {
      if elem == null {
        return Returns(WrongArg);
      }
      if resumed {
        waitingForPush := waitingForPush - 1;
      }
      if IsFull() {
        if aborted {
          return Returns(QueueAbort);
        }
        waitingForPush := waitingForPush + 1;
        condOps := condOps + [Wait(CondPush)];
        return Blocks;
      }
      Insert(elem);
      condOps := condOps + [Signal(CondPop)];
      return Returns(Success);
    }

    method Pop(elem: array?<byte>, resumed: bool) returns (o: Outcome)
      requires Valid() && (resumed ==> waitingForPop > 0)
      requires elem != null ==> elem != memory && elem.Length >= elemSize
      modifies this, elem
      ensures Valid()
      ensures condOps == old(condOps) + PopOps(o)
      ensures (View(), o) == PopSection(old(View()), resumed)
      ensures elem != null ==>
                elem[..] == if o == Returns(Success) then old(View().ring.Fetch(AtWrite) + elem[elemSize..])
                            else old(elem[..])
    {
      if resumed {
        waitingForPop := waitingForPop - 1;
      }
      if IsEmpty() {
        if aborted {
          return Returns(QueueAbort);
        }
        waitingForPop := waitingForPop + 1;
        condOps := condOps + [Wait(CondPop)];
        return Blocks;
      }
      Remove(elem);
      condOps := condOps + [Signal(CondPush)];
      return Returns(Success);
    }

    method TryPush(elem: array?<byte>, locked: bool) returns (o: Outcome)
      requires Valid()
      requires elem != null ==> elem != memory && elem.Length >= elemSize
      modifies this, memory
      ensures Valid()
      ensures condOps == old(condOps) + PushOps(o)
      ensures elem == null ==> o == Returns(WrongArg) && View() == old(View())
      ensures elem != null ==> (View(), o) == TryPushSection(old(View()), old(elem[..elemSize]), locked)
    {
      if elem == null {
        return Returns(WrongArg);
      }
      if !locked {
        return Returns(CantLock);
      }
      if IsFull() {
        return Returns(QueueFull);
      }
      Insert(elem);
      condOps := condOps + [Signal(CondPop)];
      return Returns(Success);
    }

    method TryPop(elem: array?<byte>, locked: bool) returns (o: Outcome)
      requires Valid()
      requires elem != null ==> elem != memory && elem.Length >= elemSize
      modifies this, elem
      ensures Valid()
      ensures condOps == old(condOps) + PopOps(o)
      ensures (View(), o) == TryPopSection(old(View()), locked)
      ensures elem != null ==>
                elem[..] == if o == Returns(Success) then old(View().ring.Fetch(AtWrite) + elem[elemSize..])
                            else old(elem[..])
    {
      if !locked {
        return Returns(CantLock);
      }
      if IsEmpty() {
        return Returns(QueueEmpty);
      }
      Remove(elem);
      condOps := condOps + [Signal(CondPush)];
      return Returns(Success);
    }

    method Abort()
      modifies this`aborted, this`condOps
      ensures View() == old(View().(aborted := true))
      ensures condOps == old(condOps) + [Broadcast(CondPop), Broadcast(CondPush)]
    {
      aborted := true;
      condOps := condOps + [Broadcast(CondPop)];
      condOps := condOps + [Broadcast(CondPush)];
    }
  }
}
