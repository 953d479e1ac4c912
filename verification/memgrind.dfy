/**
  hw03: an allocator wrapper that puts a header in front of every block and keeps running
  statistics. The real allocator is an oracle that may refuse any request, move a block or
  resize it in place.
 */
module Memgrind {
  import opened Machine

  // ----- machine words as bytes

  function Pow256(k: nat): (p: nat)
    ensures p > 0
  {
    if k == 0 then 1 else 256 * Pow256(k - 1)
  }

  /** Little-endian, `k` bytes. */
  function Encode(n: nat, k: nat): (s: seq<byte>)
    ensures |s| == k
    decreases k
  {
    if k == 0 then [] else [(n % 256) as byte] + Encode(n / 256, k - 1)
  }

  function Decode(s: seq<byte>): (n: nat)
  {
    if s == [] then 0 else s[0] as int + 256 * Decode(s[1..])
  }

  lemma {:induction false} DecodeEncode(n: nat, k: nat)
    requires n < Pow256(k)
    ensures Decode(Encode(n, k)) == n
    decreases k
  {
    if k > 0 { DecodeEncode(n / 256, k - 1); }
  }

  // ----- the header, struct service_info

  const WORD: nat := 8
  const HEADER: nat := 16

  /** The address of the string literal that marks a header: any word, fixed by the loader. */
  type Word = n: nat | n < SIZE_MODULUS

  const CANARY: Word

  function Header(size: nat): (h: seq<byte>)
    ensures |h| == HEADER
  {
    Encode(size, WORD) + Encode(CANARY, WORD)
  }

  /** initialise_service_block, utils.c lines 23-27. */
  function Initialise(bytes: seq<byte>, size: nat): (b: seq<byte>)
    requires |bytes| >= HEADER
    ensures |b| == |bytes|
  {
    Header(size) + bytes[HEADER..]
  }

  /** The header update of realloc, libmemgrind.c line 151: the check word is not rewritten. */
  function Resize(bytes: seq<byte>, size: nat): (b: seq<byte>)
    requires |bytes| >= HEADER
    ensures |b| == |bytes|
  {
    Encode(size, WORD) + bytes[WORD..]
  }

  function BlockSize(bytes: seq<byte>): (n: nat)
    requires |bytes| >= HEADER
  {
    Decode(bytes[..WORD])
  }

  function CheckWord(bytes: seq<byte>): (n: nat)
    requires |bytes| >= HEADER
  {
    Decode(bytes[WORD..HEADER])
  }

  // ----- library state

  datatype Stats = Stats(
    totalUsed: nat,
    totalFreed: nat,
    allocations: nat,
    deallocations: nat,
    errors: nat,
    declined: nat)

  datatype Limits = Limits(memMax: nat, allocMax: nat, allocCount: nat)

  /** A block of the real allocator; `nested` blocks were handed out behind the guard. */
  datatype Block = Block(bytes: seq<byte>, nested: bool)

  datatype Lib = Lib(limits: Limits, stats: Stats, heap: map<nat, Block>)

  /** What the real allocator answered, with the full contents of the block it returned. */
  datatype Reply = NotAsked | Refused | Granted(addr: nat, bytes: seq<byte>)

  datatype Call = Malloc(size: nat) | Calloc(num: nat, size: nat) | Realloc(ptr: nat, size: nat) | Free(ptr: nat)

  /** Whether calloc's limits are checked on `size`, as written, or on the whole request. */
  datatype CallocCheck = OnSize | OnProduct

  const NULL: nat := 0

  /** `size_t` addition. */
  function Plus(a: nat, b: nat): (c: nat)
    ensures c < SIZE_MODULUS
    ensures a + b < SIZE_MODULUS ==> c == a + b
    ensures SIZE_MODULUS <= a + b < 2 * SIZE_MODULUS ==> c == a + b - SIZE_MODULUS
  {
    (a + b) % SIZE_MODULUS
  }

  /** A value as `size_t` holds it. */
  function Wrapped(n: nat): (w: nat)
    ensures w < SIZE_MODULUS
    ensures n < SIZE_MODULUS <==> w == n
  {
    n % SIZE_MODULUS
  }

  /** `size_t` multiplication. */
  function Product(num: nat, size: nat): (c: nat)
  {
    Wrapped(num * size)
  }

  /** can_alloc, lines 186-211. */
  predicate CanAlloc(s: Lib, size: nat)
  {
    && size <= s.limits.allocMax
    && Plus(s.stats.totalUsed, size) <= s.limits.memMax
    && Plus(s.stats.allocations, 1) <= s.limits.allocCount
  }

  function Decline(s: Lib): (r: Lib)
  {
    s.(stats := s.stats.(declined := Plus(s.stats.declined, 1)))
  }

  function Error(s: Lib): (r: Lib)
  {
    s.(stats := s.stats.(errors := Plus(s.stats.errors, 1)))
  }

  /** malloc and calloc below the limit check: charge, ask, write the header (lines 59-71, 88-101). */
  function Allocate(s: Lib, size: nat, reply: Reply): (r: (Lib, nat))
    requires reply.Granted? ==> |reply.bytes| >= HEADER
  {
    var charged := s.(stats := s.stats.(allocations := Plus(s.stats.allocations, 1),
                                        totalUsed := Plus(s.stats.totalUsed, size)));
    if !reply.Granted? then (Error(charged), NULL)
    else
      var block := Block(Initialise(reply.bytes, size), false);
      (charged.(heap := charged.heap[reply.addr := block]), reply.addr + HEADER)
  }

  function MallocBody(s: Lib, size: nat, reply: Reply): (r: (Lib, nat))
    requires reply.Granted? ==> |reply.bytes| >= HEADER
  {
    if !CanAlloc(s, size) then (Decline(s), NULL) else Allocate(s, size, reply)
  }

  function CallocBody(check: CallocCheck, s: Lib, num: nat, size: nat, reply: Reply): (r: (Lib, nat))
    requires reply.Granted? ==> |reply.bytes| >= HEADER
  {
    var checked := if check.OnSize? then size else Product(num, size);
    if !CanAlloc(s, checked) then (Decline(s), NULL) else Allocate(s, Product(num, size), reply)
  }

  /** user_to_lib followed by check_service_validity: is there an intact header before `ptr`? */
  predicate HasHeader(s: Lib, ptr: nat)
  {
    && ptr >= HEADER
    && ptr - HEADER in s.heap
    && |s.heap[ptr - HEADER].bytes| >= HEADER
    && CheckWord(s.heap[ptr - HEADER].bytes) == CANARY
  }

  /** The statistics update of realloc, lines 138-149. */
  function Recount(t: Stats, inPlace: bool, before: nat, after: nat): (r: Stats)
  {
    if inPlace then
      if after >= before then t.(totalUsed := Plus(t.totalUsed, after - before))
      else t.(totalFreed := Plus(t.totalFreed, before - after))
    else
      t.(allocations := Plus(t.allocations, 1),
         deallocations := Plus(t.deallocations, 1),
         totalUsed := Plus(t.totalUsed, after),
         totalFreed := Plus(t.totalFreed, before))
  }

  /** realloc of a non-null pointer, lines 118-154. */
  function ReallocBody(s: Lib, ptr: nat, size: nat, reply: Reply): (r: (Lib, nat))
    requires reply.Granted? ==> |reply.bytes| >= HEADER
  {
    if !CanAlloc(s, size) then (Decline(s), NULL)
    else if !HasHeader(s, ptr) || !reply.Granted? then (Error(s), NULL)
    else
      var base := ptr - HEADER;
      var before := BlockSize(s.heap[base].bytes);
      var block := Block(Resize(reply.bytes, size), false);
      (s.(stats := Recount(s.stats, reply.addr == base, before, size),
          heap := (s.heap - {base})[reply.addr := block]),
       reply.addr + HEADER)
  }

  /** free, lines 167-183. */
  function FreeBody(s: Lib, ptr: nat): (r: Lib)
  {
    if ptr == NULL then s
    else if !HasHeader(s, ptr) then Error(s)
    else
      var base := ptr - HEADER;
      s.(stats := s.stats.(deallocations := Plus(s.stats.deallocations, 1),
                           totalFreed := Plus(s.stats.totalFreed, BlockSize(s.heap[base].bytes))),
         heap := s.heap - {base})
  }

  function Body(check: CallocCheck, s: Lib, call: Call, reply: Reply): (r: (Lib, nat))
    requires reply.Granted? ==> |reply.bytes| >= HEADER
  {
    match call
    case Malloc(size) => MallocBody(s, size, reply)
    case Calloc(num, size) => CallocBody(check, s, num, size, reply)
    case Realloc(ptr, size) => if ptr == NULL then MallocBody(s, size, reply) else ReallocBody(s, ptr, size, reply)
    case Free(ptr) => (FreeBody(s, ptr), NULL)
  }

  /** A call made while the guard is up: the real allocator's answer is passed on as it is. */
  function Passed(s: Lib, ptr: nat, reply: Reply): (r: (Lib, nat))
  {
    if !reply.Granted? then (s, NULL)
    else (s.(heap := (s.heap - {ptr})[reply.addr := Block(reply.bytes, true)]), reply.addr)
  }

  // ----- what the real allocator may answer

  predicate FreshBlock(s: Lib, reply: Reply, n: nat)
  {
    reply.Granted? ==> reply.addr != NULL && reply.addr !in s.heap && |reply.bytes| == n
  }

  predicate ResizedBlock(s: Lib, base: nat, reply: Reply, n: nat)
  {
    reply.Granted? ==>
      && reply.addr != NULL
      && (reply.addr == base || reply.addr !in s.heap)
      && |reply.bytes| == n
      && base in s.heap
      && var bytes := s.heap[base].bytes;
         var kept := if n < |bytes| then n else |bytes|;
         reply.bytes[..kept] == bytes[..kept]
  }

  /** The size of the payload the caller asks for; the code computes it modulo 2^64. */
  function Request(call: Call): (n: nat)
    requires !call.Free?
  {
    if call.Calloc? then call.num * call.size else call.size
  }

  /** Does the call get as far as asking the real allocator for memory? */
  predicate Asks(check: CallocCheck, s: Lib, call: Call)
  {
    match call
    case Malloc(size) => CanAlloc(s, size)
    case Calloc(num, size) => CanAlloc(s, if check.OnSize? then size else Product(num, size))
    case Realloc(ptr, size) => CanAlloc(s, size) && (ptr == NULL || HasHeader(s, ptr))
    case Free(_) => false
  }

  predicate Answers(check: CallocCheck, s: Lib, call: Call, reply: Reply)
  {
    && (reply.NotAsked? <==> !Asks(check, s, call))
    && (reply.Granted? && !call.Free? ==>
          var n := Plus(Wrapped(Request(call)), HEADER);
          if call.Realloc? && call.ptr != NULL then ResizedBlock(s, call.ptr - HEADER, reply, n)
          else
            && FreshBlock(s, reply, n)
            && (call.Calloc? ==> reply.bytes == Zeros(n)))
  }

  /** An answer the call can work with: a block that is granted has room for the header. */
  predicate Served(check: CallocCheck, s: Lib, call: Call, reply: Reply): (ok: bool)
    ensures ok && reply.Granted? && !call.Free? ==> Wrapped(Request(call)) + HEADER < SIZE_MODULUS
  {
    Answers(check, s, call, reply) && (reply.Granted? ==> |reply.bytes| >= HEADER)
  }
}
