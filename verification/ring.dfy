/**
  The element storage of hw09/queue.c: a flat byte buffer of `capacity` slots with
  a read index, a write index and an element count.
 */
module RingBuffer {
  import opened Machine

  type Elem = seq<byte>

  /** The index a pop copies from: the code uses the write index, a FIFO needs the read index. */
  datatype CopyIndex = AtWrite | AtRead

  datatype Ring = Ring(
    capacity: nat,
    elemSize: nat,
    memory: seq<byte>,
    size: nat,
    readIndex: nat,
    writeIndex: nat)
  {
    predicate Valid()
    {
      && |memory| == capacity * elemSize
      && size <= capacity
      && (if capacity == 0 then readIndex == 0 && writeIndex == 0
          else readIndex < capacity && writeIndex == (readIndex + size) % capacity)
    }

    predicate IsFull() { size == capacity }

    predicate IsEmpty() { size == 0 }

    /** The bytes of slot `i`. */
    function Slot(i: nat): (e: Elem)
      requires Valid() && i < capacity
      ensures |e| == elemSize
    {
      SlotInBounds(i, capacity, elemSize);
      memory[i * elemSize..(i + 1) * elemSize]
    }

    /** memcpy into the write slot, then advance (queue.c, lines 208-214 and 276-282). */
    function Store(e: Elem): (r: Ring)
      requires Valid() && !IsFull() && |e| == elemSize
      ensures r.Valid()
      ensures r.capacity == capacity && r.elemSize == elemSize && r.size == size + 1
    {
      AdvanceAgrees(readIndex, size, capacity);
      this.(memory := Overwrite(memory, capacity, writeIndex, e),
            writeIndex := (writeIndex + 1) % capacity,
            size := size + 1)
    }

    /** The bytes a pop hands out. */
    function Fetch(at: CopyIndex): (e: Elem)
      requires Valid() && !IsEmpty()
      ensures |e| == elemSize
    {
      Slot(if at.AtWrite? then writeIndex else readIndex)
    }

    /** Advance the read index past one element (queue.c, lines 248-250 and 311-313). */
    function Release(): (r: Ring)
      requires Valid() && !IsEmpty()
      ensures r.Valid()
      ensures r.capacity == capacity && r.elemSize == elemSize && r.size == size - 1
    {
      ReleaseAgrees(readIndex, size, capacity);
      this.(readIndex := (readIndex + 1) % capacity, size := size - 1)
    }

    /** The queued elements, oldest first. */
    function Contents(): (q: seq<Elem>)
      requires Valid()
      ensures |q| == size
    {
      seq(size, i requires 0 <= i < size => Slot(IndexAt(i)))
    }

    /** The slot of the element `i` places behind the oldest. */
    function IndexAt(i: nat): (j: nat)
      requires capacity > 0
      ensures j < capacity
    {
      (readIndex + i) % capacity
    }
  }

  /** The buffer with the bytes of `e` in slot `i`. */
  function Overwrite(memory: seq<byte>, capacity: nat, i: nat, e: Elem): (m: seq<byte>)
    requires |memory| == capacity * |e| && i < capacity
    ensures |m| == |memory|
  {
    SlotInBounds(i, capacity, |e|);
    memory[..i * |e|] + e + memory[(i + 1) * |e|..]
  }

  /** The ring that `queue_create` builds: zeroed memory, all indices zero. */
  function EmptyRing(capacity: nat, elemSize: nat): (r: Ring)
    ensures r.Valid() && r.Contents() == []
  {
    Ring(capacity, elemSize, Zeros(capacity * elemSize), 0, 0, 0)
  }

  // ----- index arithmetic

  lemma SlotInBounds(i: nat, capacity: nat, elemSize: nat)
    requires i < capacity
    ensures 0 <= i * elemSize <= (i + 1) * elemSize <= capacity * elemSize
    ensures (i + 1) * elemSize == i * elemSize + elemSize
  {
    MulMonotone(i, i + 1, elemSize);
    MulMonotone(i + 1, capacity, elemSize);
  }

  lemma AdvanceAgrees(read: nat, size: nat, capacity: nat)
    requires capacity > 0
    ensures ((read + size) % capacity + 1) % capacity == (read + size + 1) % capacity
  {
    ModAdd(read + size, 1, capacity);
  }

  lemma ReleaseAgrees(read: nat, size: nat, capacity: nat)
    requires capacity > 0 && size > 0
    ensures ((read + 1) % capacity + (size - 1)) % capacity == (read + size) % capacity
  {
    ModAdd(read + 1, size - 1, capacity);
  }

  /** Indices less than a whole turn apart name different slots. */
  lemma ModDistinct(k: int, p: int, n: nat)
    requires 0 < p - k < n
    ensures k % n != p % n
  {
    var a, b := k / n, p / n;
    if k % n == p % n {
      assert p - k == (b - a) * n;
      if b > a { MulMonotone(1, b - a, n); }
      if b < a { assert (a - b) * n == -((b - a) * n); MulMonotone(1, a - b, n); }
      assert false;
    }
  }

  // ----- what a store does to the slots

  /** A store writes its own slot and leaves every other slot alone. */
  lemma StoreSlots(r: Ring, e: Elem, i: nat)
    requires r.Valid() && !r.IsFull() && |e| == r.elemSize && i < r.capacity
    ensures r.Store(e).Slot(i) == if i == r.writeIndex then e else r.Slot(i)
  {
    var w, n, m := r.writeIndex, r.elemSize, r.Store(e).memory;
    SlotInBounds(i, r.capacity, n);
    SlotInBounds(w, r.capacity, n);
    if i < w {
      MulMonotone(i + 1, w, n);
      assert m[i * n..(i + 1) * n] == r.memory[i * n..(i + 1) * n];
    } else if i > w {
      MulMonotone(w + 1, i, n);
      assert m[i * n..(i + 1) * n] == r.memory[i * n..(i + 1) * n];
    } else {
      assert m[i * n..(i + 1) * n] == e;
    }
  }

  /**
    Byte-level safety of a store: it stays inside the buffer, changes only bytes of the
    write slot, and that slot is not one of the occupied ones.
   */
  lemma StoreIsLocal(r: Ring, e: Elem)
    requires r.Valid() && !r.IsFull() && |e| == r.elemSize
    ensures var w := r.writeIndex * r.elemSize;
            && w + r.elemSize <= |r.memory| == |r.Store(e).memory|
            && (forall j :: 0 <= j < |r.memory| && !(w <= j < w + r.elemSize) ==>
                              r.Store(e).memory[j] == r.memory[j])
    ensures forall i :: 0 <= i < r.size ==> r.IndexAt(i) != r.writeIndex
  {
    SlotInBounds(r.writeIndex, r.capacity, r.elemSize);
    forall i | 0 <= i < r.size
      ensures r.IndexAt(i) != r.writeIndex
    {
      ModDistinct(r.readIndex + i, r.readIndex + r.size, r.capacity);
    }
  }

  /** A store appends to the queued elements. */
  lemma StoreAppends(r: Ring, e: Elem)
    requires r.Valid() && !r.IsFull() && |e| == r.elemSize
    ensures r.Store(e).Contents() == r.Contents() + [e]
  {
    var s := r.Store(e);
    forall i | 0 <= i < r.size + 1
      ensures s.Contents()[i] == (r.Contents() + [e])[i]
    {
      StoreAppendsAt(r, e, i);
    }
  }

  lemma StoreAppendsAt(r: Ring, e: Elem, i: nat)
    requires r.Valid() && !r.IsFull() && |e| == r.elemSize && i <= r.size
    ensures r.Store(e).Slot(r.IndexAt(i)) == if i < r.size then r.Slot(r.IndexAt(i)) else e
  {
    StoreSlots(r, e, r.IndexAt(i));
    if i < r.size {
      ModDistinct(r.readIndex + i, r.readIndex + r.size, r.capacity);
    }
  }

  /** A release drops the oldest element, which is what the read index names. */
  lemma ReleaseDropsOldest(r: Ring)
    requires r.Valid() && !r.IsEmpty()
    ensures r.Contents()[0] == r.Fetch(AtRead)
    ensures r.Release().Contents() == r.Contents()[1..]
  {
    var s, q := r.Release(), r.Contents();
    assert r.IndexAt(0) == r.readIndex by { ModUnique(r.readIndex, r.readIndex, 0, r.capacity); }
    forall i | 0 <= i < r.size - 1
      ensures s.Contents()[i] == q[i + 1]
    {
      ReleaseShifts(r, i);
    }
  }

  lemma ReleaseShifts(r: Ring, i: nat)
    requires r.Valid() && !r.IsEmpty()
    ensures r.Release().IndexAt(i) == r.IndexAt(i + 1)
    ensures r.Release().Slot(r.IndexAt(i + 1)) == r.Slot(r.IndexAt(i + 1))
  {
    ModAdd(r.readIndex + 1, i, r.capacity);
  }

  // ----- the ring as a function of everything pushed so far

  /** The element of push number `k`, and zero bytes for slots no push has reached. */
  function PushedAt(pushed: seq<Elem>, k: int, elemSize: nat): (e: Elem)
  {
    if 0 <= k < |pushed| then pushed[k] else Zeros(elemSize)
  }

  function SlotOf(r: Ring, k: int): (e: Elem)
    requires r.Valid() && r.capacity > 0
  {
    r.Slot(k % r.capacity)
  }

  /** The ring holds the last `capacity` pushes, push number k in slot k mod capacity. */
  ghost predicate Holds(r: Ring, pushed: seq<Elem>)
  {
    && r.Valid()
    && r.size <= |pushed|
    && (forall k :: 0 <= k < |pushed| ==> |pushed[k]| == r.elemSize)
    && (r.capacity > 0 ==>
          && r.writeIndex == |pushed| % r.capacity
          && r.readIndex == (|pushed| - r.size) % r.capacity
          && forall k :: |pushed| - r.capacity <= k < |pushed| ==>
                           SlotOf(r, k) == PushedAt(pushed, k, r.elemSize))
  }

  lemma EmptyHolds(capacity: nat, elemSize: nat)
    ensures Holds(EmptyRing(capacity, elemSize), [])
  {
    var r := EmptyRing(capacity, elemSize);
    if capacity > 0 {
      forall k: int | 0 - capacity <= k < 0
        ensures SlotOf(r, k) == PushedAt([], k, elemSize)
      {
        SlotInBounds(k % capacity, capacity, elemSize);
      }
    }
  }

  lemma StoreHolds(r: Ring, e: Elem, pushed: seq<Elem>)
    requires Holds(r, pushed) && !r.IsFull() && |e| == r.elemSize
    ensures Holds(r.Store(e), pushed + [e])
  {
    var p, n, s := |pushed|, r.capacity, r.Store(e);
    ModAdd(p, 1, n);
    forall k | p + 1 - n <= k < p + 1
      ensures SlotOf(s, k) == PushedAt(pushed + [e], k, r.elemSize)
    {
      StoreSlots(r, e, k % n);
      if k < p {
        ModDistinct(k, p, n);
        assert SlotOf(r, k) == PushedAt(pushed, k, r.elemSize);
      }
    }
  }

  lemma ReleaseHolds(r: Ring, pushed: seq<Elem>)
    requires Holds(r, pushed) && !r.IsEmpty()
    ensures Holds(r.Release(), pushed)
  {
    var s := r.Release();
    ModAdd(|pushed| - r.size, 1, r.capacity);
    forall k | |pushed| - r.capacity <= k < |pushed|
      ensures SlotOf(s, k) == PushedAt(pushed, k, r.elemSize)
    {
      assert SlotOf(r, k) == PushedAt(pushed, k, r.elemSize);
    }
  }

  /** The element each kind of copy returns, named by push number. */
  lemma FetchReturns(r: Ring, pushed: seq<Elem>)
    requires Holds(r, pushed) && !r.IsEmpty()
    ensures r.Fetch(AtWrite) == PushedAt(pushed, |pushed| - r.capacity, r.elemSize)
    ensures r.Fetch(AtRead) == pushed[|pushed| - r.size]
  {
    var p, n := |pushed|, r.capacity;
    ModAdd(p - n, n, n);
    ModUnique(p, (p - n) % n, (p - n) / n + 1, n);
    assert SlotOf(r, p - n) == PushedAt(pushed, p - n, r.elemSize);
    assert SlotOf(r, p - r.size) == PushedAt(pushed, p - r.size, r.elemSize);
  }

  /** The queued elements are the last `size` pushes, in push order. */
  lemma ContentsAreLastPushes(r: Ring, pushed: seq<Elem>)
    requires Holds(r, pushed)
    ensures r.Contents() == pushed[|pushed| - r.size..]
  {
    var q, p := r.Contents(), |pushed|;
    forall i | 0 <= i < r.size
      ensures q[i] == pushed[p - r.size + i]
    {
      QueuedSlot(r, pushed, i);
    }
    assert q == pushed[p - r.size..];
  }

  lemma QueuedSlot(r: Ring, pushed: seq<Elem>, i: nat)
    requires Holds(r, pushed) && i < r.size
    ensures r.Slot(r.IndexAt(i)) == pushed[|pushed| - r.size + i]
  {
    var k := |pushed| - r.size + i;
    ModAdd(|pushed| - r.size, i, r.capacity);
    assert SlotOf(r, k) == PushedAt(pushed, k, r.elemSize);
  }

  /** `count` pushes of `elemSize` bytes each. */
  ghost predicate Pushes(pushed: seq<Elem>, count: nat, elemSize: nat)
  {
    |pushed| == count && forall k :: 0 <= k < count ==> |pushed[k]| == elemSize
  }

  /**
    When the pop as written is right. For a queue that has seen `count` pushes and holds
    `size` of them, the copy at the write index is the oldest element whatever the pushed
    values were if and only if the queue is full (or elements have no bytes at all).
   */
  lemma CopyAtWriteIsOldestExactlyWhenFull(capacity: nat, elemSize: nat, count: nat, size: nat)
    requires 0 < size <= capacity && size <= count
    ensures (forall pushed | Pushes(pushed, count, elemSize) ::
               PushedAt(pushed, count - capacity, elemSize) == pushed[count - size])
            <==> (size == capacity || elemSize == 0)
  {
    if size < capacity && elemSize > 0 {
      var one: Elem := seq(elemSize, _ => 1);
      var zero := Zeros(elemSize);
      var marked: seq<Elem> := seq(count, k => zero)[count - size := one];
      assert Pushes(marked, count, elemSize);
      assert PushedAt(marked, count - capacity, elemSize) == Zeros(elemSize);
      assert one[0] != Zeros(elemSize)[0];
    }
  }
}
