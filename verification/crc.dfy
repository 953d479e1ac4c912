/**
  hw01/crc.c on 32-bit words: the bit reversal, the register step, and the link between a
  register and its sequence of bits.
 */
module Crc {

  /** crc32_reverse, lines 7-15. */
  function Reverse(x: bv32): (r: bv32)
  {
    var x1 := ((x & 0x55555555) << 1) | ((x >> 1) & 0x55555555);
    var x2 := ((x1 & 0x33333333) << 2) | ((x1 >> 2) & 0x33333333);
    var x3 := ((x2 & 0x0F0F0F0F) << 4) | ((x2 >> 4) & 0x0F0F0F0F);
    (x3 << 24) | ((x3 & 0xFF00) << 8) | ((x3 >> 8) & 0xFF00) | (x3 >> 24)
  }

  const GENERATOR: bv32 := 0x04C11DB7

  const INITIAL: bv32 := 0xFFFFFFFF

  predicate Top(x: bv32) { x & 0x80000000 != 0 }

  predicate Low(x: bv32) { x & 1 == 1 }

  /** The body of the inner loop, lines 33-36, for the message bit `b`. */
  function Step(c: bv32, b: bool): (r: bv32)
  {
    if Top(c) != b then (c << 1) ^ GENERATOR else c << 1
  }

  function Run(c: bv32, bits: seq<bool>): (r: bv32)
    decreases |bits|
  {
    if bits == [] then c else Run(Step(c, bits[0]), bits[1..])
  }

  /** The bits of a byte in stream order, least significant first. */
  function LowBits(x: bv32, n: nat): (s: seq<bool>)
    ensures |s| == n
    decreases n
  {
    if n == 0 then [] else [Low(x)] + LowBits(x >> 1, n - 1)
  }

  function ByteBits(b: bv8): (s: seq<bool>)
    ensures |s| == 8
  {
    LowBits(b as bv32, 8)
  }

  function StreamBits(message: seq<bv8>): (s: seq<bool>)
    ensures |s| == 8 * |message|
  {
    if message == [] then [] else ByteBits(message[0]) + StreamBits(message[1..])
  }

  /** crc32_finalize, lines 45-48. */
  function Finalize(c: bv32): (r: bv32)
  {
    Reverse(!c)
  }

  /** The hash of a whole message. */
  function Hash(message: seq<bv8>): (h: bv32)
  {
    Finalize(Run(INITIAL, StreamBits(message)))
  }

  // ----- streaming

  lemma {:induction false} RunConcat(c: bv32, a: seq<bool>, b: seq<bool>)
    ensures Run(c, a + b) == Run(Run(c, a), b)
    decreases |a|
  {
    if a == [] {
      assert a + b == b;
    } else {
      assert (a + b)[1..] == a[1..] + b;
      RunConcat(Step(c, a[0]), a[1..], b);
    }
  }

  lemma {:induction false} StreamConcat(a: seq<bv8>, b: seq<bv8>)
    ensures StreamBits(a + b) == StreamBits(a) + StreamBits(b)
  {
    if a == [] {
      assert a + b == b;
    } else {
      assert (a + b)[1..] == a[1..] + b;
      StreamConcat(a[1..], b);
    }
  }

  /** A message may be fed in any two pieces. */
  lemma RunStream(c: bv32, a: seq<bv8>, b: seq<bv8>)
    ensures Run(c, StreamBits(a + b)) == Run(Run(c, StreamBits(a)), StreamBits(b))
  {
    StreamConcat(a, b);
    RunConcat(c, StreamBits(a), StreamBits(b));
  }

  lemma NothingFed(c: bv32)
    ensures Run(c, StreamBits([])) == c
  {
  }

  lemma StreamByte(b: bv8)
    ensures StreamBits([b]) == ByteBits(b)
  {
    hide ByteBits;
    assert StreamBits([b]) == ByteBits(b) + [];
  }

  // ----- reversal

  lemma ReverseInvolutive(x: bv32)
    ensures Reverse(Reverse(x)) == x
  {
  }

  lemma ReverseXor(x: bv32, y: bv32)
    ensures Reverse(x ^ y) == Reverse(x) ^ Reverse(y)
  {
  }

  lemma ReverseRight(x: bv32)
    ensures Reverse(x >> 1) == Reverse(x) << 1
  {
  }

  lemma ReverseEnds(x: bv32)
    ensures Low(Reverse(x)) == Top(x)
    ensures Top(Reverse(x)) == Low(x)
  {
  }

  lemma ReverseNot(x: bv32)
    ensures Reverse(!x) == !Reverse(x)
  {
  }

  /** Finalisation loses nothing. */
  lemma FinalizeInjective(x: bv32, y: bv32)
    requires Finalize(x) == Finalize(y)
    ensures x == y
  {
    hide Reverse;
    ReverseInvolutive(!x);
    ReverseInvolutive(!y);
    assert !!x == !!y;
  }

  // ----- a register as a sequence of bits

  /** The top `n` bits, most significant first. */
  function Bits(x: bv32, n: nat): (s: seq<bool>)
    ensures |s| == n
    decreases n
  {
    if n == 0 then [] else [Top(x)] + Bits(x << 1, n - 1)
  }

  lemma BitsHead(x: bv32, n: nat)
    requires n > 0
    ensures Bits(x, n)[0] == Top(x) && Bits(x, n)[1..] == Bits(x << 1, n - 1)
  {
    hide Top;
  }

  /** Reversing the byte makes its stream order the top-first order the loop consumes. */
  lemma {:induction false} ReversedBits(x: bv32, n: nat)
    ensures Bits(Reverse(x), n) == LowBits(x, n)
    decreases n
  {
    if n > 0 {
      hide Reverse, Top, Low;
      ReverseRight(x);
      ReverseEnds(x);
      ReversedBits(x >> 1, n - 1);
    }
  }

  /** One turn of the inner loop. */
  lemma FeedTop(c: bv32, word: bv32, n: nat)
    requires n > 0
    ensures Run(c, Bits(word, n)) == Run(if Top(c ^ word) then (c << 1) ^ GENERATOR else c << 1, Bits(word << 1, n - 1))
  {
    hide Top;
    WordXor(c, word);
    BitsHead(word, n);
  }

  function Xor(a: seq<bool>, b: seq<bool>): (r: seq<bool>)
    requires |a| == |b|
    ensures |r| == |a|
    ensures forall i :: 0 <= i < |a| ==> r[i] == (a[i] != b[i])
  {
    seq(|a|, i requires 0 <= i < |a| => a[i] != b[i])
  }

  lemma XorCons(p: bool, a: seq<bool>, q: bool, b: seq<bool>)
    requires |a| == |b|
    ensures Xor([p] + a, [q] + b) == [p != q] + Xor(a, b)
  {
  }

  lemma WordXor(x: bv32, y: bv32)
    ensures Top(x ^ y) == (Top(x) != Top(y)) && Low(x ^ y) == (Low(x) != Low(y))
    ensures (x ^ y) << 1 == (x << 1) ^ (y << 1) && (x ^ y) >> 1 == (x >> 1) ^ (y >> 1)
  {
  }

  lemma {:induction false} BitsXor(x: bv32, y: bv32, n: nat)
    ensures Bits(x ^ y, n) == Xor(Bits(x, n), Bits(y, n))
    decreases n
  {
    if n > 0 {
      hide Top, Xor;
      WordXor(x, y);
      BitsXor(x << 1, y << 1, n - 1);
      XorCons(Top(x), Bits(x << 1, n - 1), Top(y), Bits(y << 1, n - 1));
    } else {
      assert Bits(x ^ y, n) == [];
    }
  }

  function ShiftUp(x: bv32, n: nat): (r: bv32)
    decreases n
  {
    if n == 0 then x else ShiftUp(x << 1, n - 1)
  }

  lemma {:induction false} ShiftUpAdd(x: bv32, m: nat, n: nat)
    ensures ShiftUp(ShiftUp(x, m), n) == ShiftUp(x, m + n)
    decreases m
  {
    if m > 0 { ShiftUpAdd(x << 1, m - 1, n); }
  }

  lemma ShiftUpByte(x: bv32)
    ensures ShiftUp(x, 8) == x << 8
  {
    assert ShiftUp(x, 8) == ShiftUp(x << 4, 4);
  }

  lemma ShiftUpAll(x: bv32)
    ensures ShiftUp(x, 32) == 0
  {
    ShiftUpAdd(x, 8, 24); ShiftUpAdd(x << 8, 8, 16); ShiftUpAdd(x << 8 << 8, 8, 8);
    ShiftUpByte(x); ShiftUpByte(x << 8); ShiftUpByte(x << 8 << 8); ShiftUpByte(x << 8 << 8 << 8);
  }

  lemma {:induction false} BitsSnoc(x: bv32, n: nat)
    ensures Bits(x, n + 1) == Bits(x, n) + [Top(ShiftUp(x, n))]
    decreases n
  {
    if n > 0 { BitsSnoc(x << 1, n - 1); }
  }

  lemma BitsShift(x: bv32)
    ensures Bits(x << 1, 32) == Bits(x, 32)[1..] + [false]
  {
    BitsSnoc(x << 1, 31);
    ShiftUpAll(x);
  }

  lemma TopClear(x: bv32)
    requires !Top(x) && x << 1 == 0
    ensures x == 0
  {
  }

  lemma {:induction false} ZeroBits(x: bv32, n: nat)
    requires forall i :: 0 <= i < n ==> !Bits(x, n)[i]
    requires ShiftUp(x, n) == 0
    ensures x == 0
    decreases n
  {
    if n > 0 {
      hide Top;
      BitsHead(x, n);
      ZeroBits(x << 1, n - 1);
      TopClear(x);
    }
  }

  lemma XorZero(x: bv32, y: bv32)
    requires x ^ y == 0
    ensures x == y
  {
  }

  /** A register is determined by its bits. */
  lemma BitsInjective(x: bv32, y: bv32)
    requires Bits(x, 32) == Bits(y, 32)
    ensures x == y
  {
    hide Bits, ShiftUp;
    BitsXor(x, y, 32);
    ShiftUpAll(x ^ y);
    ZeroBits(x ^ y, 32);
    XorZero(x, y);
  }
}
