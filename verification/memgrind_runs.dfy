/** Whole runs of the wrapped program: calls, nested calls behind the guard, and user writes. */
module MemgrindRuns {
  import opened Machine
  import opened Memgrind

  /**
    `pending` is a wrapped call between raising the guard and its body; `overrun` ends the run,
    because the header did not fit into the block the real allocator was asked for.
   */
  datatype State = State(lib: Lib, guard: bool, pending: Option<Call>, overrun: bool)

  datatype Label =
    | Begin(call: Call)
    | Serve(call: Call, reply: Reply, result: nat)
    | Overrun(call: Call, reply: Reply)
    | Leave
    | Nested(call: Call, reply: Reply, result: nat)
    | Write(ptr: nat, offset: nat, value: byte)

  /** A pointer the wrapper handed out and has not taken back. */
  predicate Live(heap: map<nat, Block>, ptr: nat)
  {
    ptr >= HEADER && ptr - HEADER in heap && !heap[ptr - HEADER].nested
  }

  /** Arguments are `size_t` values. */
  predicate InSize(call: Call)
  {
    match call
    case Malloc(size) => size < SIZE_MODULUS
    case Calloc(num, size) => num < SIZE_MODULUS && size < SIZE_MODULUS
    case Realloc(_, size) => size < SIZE_MODULUS
    case Free(_) => true
  }

  /** Callers pass `size_t` values, and null or live pointers. */
  predicate ProperCall(s: Lib, call: Call)
  {
    && InSize(call)
    && (call.Realloc? || call.Free? ==> call.ptr == NULL || Live(s.heap, call.ptr))
  }

  predicate NestedStep(s: Lib, call: Call, reply: Reply, s': Lib, result: nat)
  {
    match call
    case Malloc(size) => FreshBlock(s, reply, size) && (s', result) == Passed(s, NULL, reply)
    case Calloc(num, size) => FreshBlock(s, reply, num * size) && (s', result) == Passed(s, NULL, reply)
    case Realloc(ptr, size) =>
      if ptr == NULL then FreshBlock(s, reply, size) && (s', result) == Passed(s, NULL, reply)
      else
        && ptr in s.heap && s.heap[ptr].nested
        && ResizedBlock(s, ptr, reply, size)
        && (s', result) == Passed(s, ptr, reply)
    case Free(ptr) =>
      && (ptr == NULL || (ptr in s.heap && s.heap[ptr].nested))
      && s' == s.(heap := s.heap - {ptr}) && result == NULL
  }

  function Written(s: Lib, base: nat, i: nat, value: byte): (r: Lib)
    requires base in s.heap && i < |s.heap[base].bytes|
  {
    var b := s.heap[base];
    s.(heap := s.heap[base := b.(bytes := b.bytes[i := value])])
  }

  predicate Step(check: CallocCheck, s: State, l: Label, s': State)
  {
    && !s.overrun
    && match l
    case Begin(call) =>
      !s.guard && ProperCall(s.lib, call) && s' == s.(guard := true, pending := Some(call))
    case Serve(call, reply, result) =>
      && s.guard && s.pending == Some(call)
      && ProperCall(s.lib, call)
      && Served(check, s.lib, call, reply)
      && (s'.lib, result) == Body(check, s.lib, call, reply)
      && s'.guard && s'.pending == None && !s'.overrun
    case Overrun(call, reply) =>
      && s.guard && s.pending == Some(call)
      && ProperCall(s.lib, call)
      && Answers(check, s.lib, call, reply) && !Served(check, s.lib, call, reply)
      && s'.overrun
    case Leave =>
      s.guard && s.pending == None && s' == s.(guard := false)
    case Nested(call, reply, result) =>
      s.guard && NestedStep(s.lib, call, reply, s'.lib, result) && s' == s.(lib := s'.lib)
    case Write(ptr, offset, value) =>
      && !s.guard && Live(s.lib.heap, ptr)
      && HEADER + offset < |s.lib.heap[ptr - HEADER].bytes|
      && s' == s.(lib := Written(s.lib, ptr - HEADER, HEADER + offset, value))
  }

  /** The guard starts raised; leaving library_init lowers it. */
  function Initial(limits: Limits): (s: State)
  {
    State(Lib(limits, Stats(0, 0, 0, 0, 0, 0), map[]), true, None, false)
  }

  predicate StepAt(check: CallocCheck, states: seq<State>, labels: seq<Label>, i: nat)
    requires i < |labels| < |states|
  {
    Step(check, states[i], labels[i], states[i + 1])
  }

  ghost predicate Execution(check: CallocCheck, limits: Limits, states: seq<State>, labels: seq<Label>)
  {
    && |states| == |labels| + 1
    && states[0] == Initial(limits)
    && forall i :: 0 <= i < |labels| ==> StepAt(check, states, labels, i)
  }

  // ----- the books as the caller could keep them, from calls and results alone

  function Book(ledger: map<nat, nat>, l: Label): (r: map<nat, nat>)
  {
    if !l.Serve? then ledger
    else
      match l.call
      case Free(ptr) => ledger - {ptr}
      case Realloc(ptr, size) => if l.result == NULL then ledger else (ledger - {ptr})[l.result := size]
      case _ => if l.result == NULL then ledger else ledger[l.result := Request(l.call)]
  }

  /** Live pointers with the size last requested for each. */
  function Ledger(labels: seq<Label>): (m: map<nat, nat>)
  {
    if labels == [] then map[]
    else Book(Ledger(labels[..|labels| - 1]), labels[|labels| - 1])
  }

  /** A malloc or calloc that was charged although the real allocator refused it. */
  predicate ChargedForNothing(l: Label)
  {
    l.Serve? && l.reply == Refused && (l.call.Malloc? || l.call.Calloc? || (l.call.Realloc? && l.call.ptr == NULL))
  }

  function LostBytes(labels: seq<Label>): (n: nat)
  {
    if labels == [] then 0
    else
      var l := labels[|labels| - 1];
      LostBytes(labels[..|labels| - 1]) + (if ChargedForNothing(l) then Wrapped(Request(l.call)) else 0)
  }

  function LostBlocks(labels: seq<Label>): (n: nat)
  {
    if labels == [] then 0
    else LostBlocks(labels[..|labels| - 1]) + (if ChargedForNothing(labels[|labels| - 1]) then 1 else 0)
  }

  lemma Extend(labels: seq<Label>, l: Label)
    ensures var more := labels + [l];
            && Ledger(more) == Book(Ledger(labels), l)
            && LostBytes(more) == LostBytes(labels) + (if ChargedForNothing(l) then Wrapped(Request(l.call)) else 0)
            && LostBlocks(more) == LostBlocks(labels) + (if ChargedForNothing(l) then 1 else 0)
  {
    var more := labels + [l];
    assert more[..|more| - 1] == labels && more[|more| - 1] == l;
  }

  /** Some key of the map. */
  ghost function Pick(m: map<nat, nat>): (k: nat)
    requires m != map[]
    ensures k in m
  {
    var k :| k in m;
    k
  }

  ghost function Sum(m: map<nat, nat>): (n: nat)
    decreases |m|
  {
    if m == map[] then 0
    else
      var k := Pick(m);
      SmallerMap(m, k);
      m[k] + Sum(m - {k})
  }

  lemma SmallerMap(m: map<nat, nat>, k: nat)
    requires k in m
    ensures |m - {k}| == |m| - 1
  {
    assert (m - {k}).Keys == m.Keys - {k};
  }

  lemma {:induction false} SumWithout(m: map<nat, nat>, k: nat)
    requires k in m
    ensures Sum(m) == m[k] + Sum(m - {k})
    decreases |m|
  {
    var j := Pick(m);
    SmallerMap(m, j);
    if j != k {
      SmallerMap(m, k);
      SumWithout(m - {j}, k);
      SumWithout(m - {k}, j);
      assert m - {j} - {k} == m - {k} - {j};
    }
  }

  lemma SumWith(m: map<nat, nat>, k: nat, n: nat)
    requires k !in m
    ensures Sum(m[k := n]) == Sum(m) + n && |m[k := n]| == |m| + 1
  {
    SumWithout(m[k := n], k);
    assert m[k := n] - {k} == m;
  }

  // ----- headers

  /** The block behind a live pointer: its header is intact and states the requested size. */
  ghost predicate Intact(heap: map<nat, Block>, ptr: nat, size: nat)
  {
    && Live(heap, ptr)
    && var bytes := heap[ptr - HEADER].bytes;
    && |bytes| == HEADER + size < SIZE_MODULUS
    && BlockSize(bytes) == size
    && CheckWord(bytes) == CANARY
  }

  ghost predicate HeadersIntact(heap: map<nat, Block>, ledger: map<nat, nat>)
  {
    && NULL !in heap
    && (forall p :: p in ledger ==> Intact(heap, p, Wrapped(ledger[p])))
    && (forall p :: Live(heap, p) ==> p in ledger)
  }

  lemma WordFits(n: nat)
    requires n < SIZE_MODULUS
    ensures n < Pow256(WORD)
  {
    assert Pow256(4) == 0x1_0000_0000;
    assert Pow256(6) == 65536 * Pow256(4);
  }

  lemma InitialisedHeader(bytes: seq<byte>, size: nat)
    requires |bytes| >= HEADER && size < SIZE_MODULUS
    ensures BlockSize(Initialise(bytes, size)) == size
    ensures CheckWord(Initialise(bytes, size)) == CANARY
  {
    var b := Initialise(bytes, size);
    assert b[..WORD] == Encode(size, WORD) && b[WORD..HEADER] == Encode(CANARY, WORD);
    WordFits(size);
    WordFits(CANARY);
    DecodeEncode(size, WORD);
    DecodeEncode(CANARY, WORD);
  }

  /** The check word survives a realloc because the real allocator carries the header along. */
  lemma ResizedHeader(before: seq<byte>, after: seq<byte>, size: nat)
    requires |before| >= HEADER && |after| >= HEADER && size < SIZE_MODULUS
    requires after[..HEADER] == before[..HEADER]
    ensures BlockSize(Resize(after, size)) == size
    ensures CheckWord(Resize(after, size)) == CheckWord(before)
  {
    var b := Resize(after, size);
    assert b[..WORD] == Encode(size, WORD);
    assert b[WORD..HEADER] == after[..HEADER][WORD..] == before[..HEADER][WORD..] == before[WORD..HEADER];
    WordFits(size);
    DecodeEncode(size, WORD);
  }

  /** Replacing one block by another keeps the headers if the new one has its header. */
  lemma ReplaceKeepsHeaders(heap: map<nat, Block>, base: nat, addr: nat, block: Block, size: nat, ledger: map<nat, nat>)
    requires HeadersIntact(heap, ledger) && addr != NULL && (addr == base || addr !in heap)
    requires Intact((heap - {base})[addr := block], addr + HEADER, Wrapped(size))
    ensures HeadersIntact((heap - {base})[addr := block], (ledger - {base + HEADER})[addr + HEADER := size])
  {
    var heap', p := (heap - {base})[addr := block], addr + HEADER;
    var after := (ledger - {base + HEADER})[p := size];
    forall q | q in after
      ensures Intact(heap', q, Wrapped(after[q]))
    {
      if q != p { assert Intact(heap, q, Wrapped(ledger[q])); }
    }
    forall q | Live(heap', q)
      ensures q in after
    {
      if q != p { assert Live(heap, q); }
    }
  }

  lemma AllocateKeepsHeaders(s: Lib, request: nat, reply: Reply, ledger: map<nat, nat>)
    requires HeadersIntact(s.heap, ledger) && (reply.Granted? ==> Wrapped(request) + HEADER < SIZE_MODULUS)
    requires FreshBlock(s, reply, Wrapped(request) + HEADER)
    ensures var (s', p) := Allocate(s, Wrapped(request), reply);
            HeadersIntact(s'.heap, if p == NULL then ledger else ledger[p := request])
  {
    hide HeadersIntact, Intact, Live, Initialise, Wrapped;
    if reply.Granted? {
      var a, block := reply.addr, Block(Initialise(reply.bytes, Wrapped(request)), false);
      InitialisedIntact(s.heap, a, reply.bytes, Wrapped(request));
      assert s.heap[a := block] == (s.heap - {a})[a := block];
      assert ledger[a + HEADER := request] == (ledger - {a + HEADER})[a + HEADER := request];
      ReplaceKeepsHeaders(s.heap, a, a, block, request, ledger);
    }
  }

  lemma InitialisedIntact(heap: map<nat, Block>, addr: nat, bytes: seq<byte>, size: nat)
    requires |bytes| == size + HEADER < SIZE_MODULUS
    ensures Intact((heap - {addr})[addr := Block(Initialise(bytes, size), false)], addr + HEADER, size)
  {
    InitialisedHeader(bytes, size);
  }

  lemma BookedIsIntact(heap: map<nat, Block>, ledger: map<nat, nat>, ptr: nat)
    requires HeadersIntact(heap, ledger) && ptr in ledger
    ensures Intact(heap, ptr, Wrapped(ledger[ptr])) && Live(heap, ptr) && ptr - HEADER != NULL
  {
  }

  /** What a realloc does to the heap, whatever it does to the statistics. */
  lemma ReallocHeap(s: Lib, ptr: nat, size: nat, reply: Reply)
    requires reply.Granted? ==> |reply.bytes| >= HEADER
    ensures var (s', p) := ReallocBody(s, ptr, size, reply);
            if p == NULL then s'.heap == s.heap
            else
              && reply.Granted? && ptr >= HEADER && p == reply.addr + HEADER
              && s'.heap == (s.heap - {ptr - HEADER})[reply.addr := Block(Resize(reply.bytes, size), false)]
  {
    hide Resize, Recount, Plus;
  }

  lemma ResizedIntact(s: Lib, ptr: nat, before: nat, size: nat, reply: Reply)
    requires Intact(s.heap, ptr, before) && (reply.Granted? ==> size + HEADER < SIZE_MODULUS)
    requires ResizedBlock(s, ptr - HEADER, reply, size + HEADER)
    ensures var (s', p) := ReallocBody(s, ptr, size, reply);
            p != NULL ==> Intact(s'.heap, p, size)
  {
    hide ReallocBody, Resize, BlockSize, CheckWord;
    ReallocHeap(s, ptr, size, reply);
    if reply.Granted? {
      var bytes := s.heap[ptr - HEADER].bytes;
      SamePrefix(bytes, reply.bytes, HEADER);
      ResizedHeader(bytes, reply.bytes, size);
    }
  }

  /** The kept part of a resized block contains any common prefix. */
  lemma SamePrefix(before: seq<byte>, after: seq<byte>, n: nat)
    requires n <= |before| && n <= |after|
    requires var kept := if |after| < |before| then |after| else |before|;
             after[..kept] == before[..kept]
    ensures after[..n] == before[..n]
  {
    var kept := if |after| < |before| then |after| else |before|;
    assert after[..n] == after[..kept][..n] && before[..n] == before[..kept][..n];
  }

  lemma ReallocKeepsHeaders(s: Lib, ptr: nat, size: nat, reply: Reply, ledger: map<nat, nat>)
    requires HeadersIntact(s.heap, ledger) && (reply.Granted? ==> size + HEADER < SIZE_MODULUS)
    requires ptr in ledger && ResizedBlock(s, ptr - HEADER, reply, size + HEADER)
    ensures var (s', p) := ReallocBody(s, ptr, size, reply);
            HeadersIntact(s'.heap, if p == NULL then ledger else (ledger - {ptr})[p := size])
  {
    hide HeadersIntact, Intact, Live, Resize, ReallocBody;
    BookedIsIntact(s.heap, ledger, ptr);
    ReallocHeap(s, ptr, size, reply);
    ResizedIntact(s, ptr, Wrapped(ledger[ptr]), size, reply);
    if reply.Granted? {
      ReplaceKeepsHeadersIf(s.heap, ptr - HEADER, reply.addr, Block(Resize(reply.bytes, size), false), size, ledger);
    }
  }

  lemma ReplaceKeepsHeadersIf(heap: map<nat, Block>, base: nat, addr: nat, block: Block, size: nat,
                              ledger: map<nat, nat>)
    requires HeadersIntact(heap, ledger) && addr != NULL && (addr == base || addr !in heap)
    ensures Intact((heap - {base})[addr := block], addr + HEADER, Wrapped(size)) ==>
              HeadersIntact((heap - {base})[addr := block], (ledger - {base + HEADER})[addr + HEADER := size])
  {
    hide HeadersIntact, Intact;
    if Intact((heap - {base})[addr := block], addr + HEADER, Wrapped(size)) {
      ReplaceKeepsHeaders(heap, base, addr, block, size, ledger);
    }
  }

  lemma NullIsNotBooked(heap: map<nat, Block>, ledger: map<nat, nat>)
    requires HeadersIntact(heap, ledger)
    ensures NULL !in ledger
  {
    assert NULL in ledger ==> Intact(heap, NULL, Wrapped(ledger[NULL]));
  }

  lemma LiveIsBooked(heap: map<nat, Block>, ledger: map<nat, nat>, ptr: nat)
    requires HeadersIntact(heap, ledger) && Live(heap, ptr)
    ensures ptr in ledger
  {
  }

  lemma FreeKeepsHeaders(s: Lib, ptr: nat, ledger: map<nat, nat>)
    requires HeadersIntact(s.heap, ledger) && (ptr == NULL || ptr in ledger)
    ensures HeadersIntact(FreeBody(s, ptr).heap, ledger - {ptr})
  {
    var s', after := FreeBody(s, ptr), ledger - {ptr};
    if ptr == NULL {
      NullIsNotBooked(s.heap, ledger);
      assert after == ledger;
    } else {
      assert Intact(s.heap, ptr, Wrapped(ledger[ptr]));
      forall q | q in after
        ensures Intact(s'.heap, q, Wrapped(after[q]))
      {
        assert Intact(s.heap, q, Wrapped(ledger[q]));
      }
      forall q | Live(s'.heap, q)
        ensures q in after
      {
        assert Live(s.heap, q);
      }
    }
  }

  lemma NestedKeepsHeaders(s: Lib, call: Call, reply: Reply, s': Lib, result: nat, ledger: map<nat, nat>)
    requires HeadersIntact(s.heap, ledger) && NestedStep(s, call, reply, s', result)
    ensures HeadersIntact(s'.heap, ledger) && s'.stats == s.stats && s'.limits == s.limits
  {
    forall q | q in ledger
      ensures Intact(s'.heap, q, Wrapped(ledger[q]))
    {
      assert Intact(s.heap, q, Wrapped(ledger[q]));
    }
    forall q | Live(s'.heap, q)
      ensures q in ledger
    {
      assert Live(s.heap, q);
    }
  }

  lemma WriteKeepsHeaders(s: Lib, ptr: nat, offset: nat, value: byte, ledger: map<nat, nat>)
    requires HeadersIntact(s.heap, ledger) && Live(s.heap, ptr) && HEADER + offset < |s.heap[ptr - HEADER].bytes|
    ensures HeadersIntact(Written(s, ptr - HEADER, HEADER + offset, value).heap, ledger)
  {
    var s' := Written(s, ptr - HEADER, HEADER + offset, value);
    var b, b' := s.heap[ptr - HEADER].bytes, s'.heap[ptr - HEADER].bytes;
    assert b'[..WORD] == b[..WORD] && b'[WORD..HEADER] == b[WORD..HEADER];
    forall q | q in ledger
      ensures Intact(s'.heap, q, Wrapped(ledger[q]))
    {
      assert Intact(s.heap, q, Wrapped(ledger[q]));
    }
    forall q | Live(s'.heap, q)
      ensures q in ledger
    {
      assert Live(s.heap, q);
    }
  }

  lemma RefusedIsNull(s: Lib, size: nat, reply: Reply)
    requires reply.Granted? ==> |reply.bytes| >= HEADER
    ensures Allocate(s, size, reply).1 == NULL <==> !reply.Granted?
  {
  }

  lemma ServeKeepsHeaders(check: CallocCheck, s: Lib, call: Call, reply: Reply, ledger: map<nat, nat>)
    requires HeadersIntact(s.heap, ledger) && ProperCall(s, call) && Served(check, s, call, reply)
    ensures var (s', result) := Body(check, s, call, reply);
            HeadersIntact(s'.heap, Book(ledger, Serve(call, reply, result)))
  {
    hide HeadersIntact, Allocate, ReallocBody, FreeBody, CanAlloc, Plus;
    match call
    case Malloc(size) =>
      AllocateKeepsHeaders(s, size, reply, ledger);
    case Calloc(num, size) =>
      AllocateKeepsHeaders(s, num * size, reply, ledger);
    case Realloc(ptr, size) =>
      if ptr == NULL {
        NullIsNotBooked(s.heap, ledger);
        assert ledger - {NULL} == ledger;
        AllocateKeepsHeaders(s, size, reply, ledger);
      } else {
        LiveIsBooked(s.heap, ledger, ptr);
        ReallocKeepsHeaders(s, ptr, size, reply, ledger);
      }
    case Free(ptr) =>
      if ptr != NULL { LiveIsBooked(s.heap, ledger, ptr); }
      FreeKeepsHeaders(s, ptr, ledger);
  }

  lemma StepKeepsHeaders(check: CallocCheck, s: State, l: Label, s': State, ledger: map<nat, nat>)
    requires HeadersIntact(s.lib.heap, ledger) && Step(check, s, l, s') && !s'.overrun
    ensures HeadersIntact(s'.lib.heap, Book(ledger, l))
  {
    hide HeadersIntact;
    match l
    case Serve(call, reply, _) => ServeKeepsHeaders(check, s.lib, call, reply, ledger);
    case Nested(call, reply, result) => NestedKeepsHeaders(s.lib, call, reply, s'.lib, result, ledger);
    case Write(ptr, offset, value) => WriteKeepsHeaders(s.lib, ptr, offset, value, ledger);
    case _ =>
  }
}
