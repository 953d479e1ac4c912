/** The CRC of section 8 of RFC 1952, and its equality with the hash of hw01. */
module CrcRfc1952 {
  import opened Crc
  import opened CrcBits
  import opened CrcWords

  const REFLECTED: bv32 := 0xEDB88320

  /** One round of make_crc_table. */
  function Shift(c: bv32): (r: bv32)
  {
    if Low(c) then REFLECTED ^ (c >> 1) else c >> 1
  }

  function Shifts(c: bv32, n: nat): (r: bv32)
    decreases n
  {
    if n == 0 then c else Shifts(Shift(c), n - 1)
  }

  function TableEntry(n: bv8): (r: bv32)
  {
    Shifts(n as bv32, 8)
  }

  function TableIndex(c: bv32, b: bv8): (n: bv8)
  {
    ((c ^ (b as bv32)) & 0xff) as bv8
  }

  /** One turn of the loop of update_crc. */
  function Lookup(c: bv32, b: bv8): (r: bv32)
  {
    TableEntry(TableIndex(c, b)) ^ (c >> 8)
  }

  function UpdateCrc(c: bv32, message: seq<bv8>): (r: bv32)
    decreases |message|
  {
    if message == [] then c else UpdateCrc(Lookup(c, message[0]), message[1..])
  }

  /** update_crc inverts the register on the way in and on the way out. */
  function Invert(c: bv32): (r: bv32)
  {
    c ^ 0xFFFFFFFF
  }

  function CrcOf(message: seq<bv8>): (r: bv32)
  {
    Invert(UpdateCrc(Invert(0), message))
  }

  // ----- the reflected register, read from the low end, runs the same bit model

  lemma ReverseShift(r: bv32)
    ensures Reverse(Shift(r)) == Step(Reverse(r), false)
  {
    assert Reverse(REFLECTED) == GENERATOR;
    ReverseEnds(r);
    ReverseRight(r);
    ReverseXor(REFLECTED, r >> 1);
    hide Reverse, Low, Top;
    assert GENERATOR ^ (Reverse(r) << 1) == (Reverse(r) << 1) ^ GENERATOR;
  }

  lemma ShiftIsZeroStep(r: bv32)
    ensures LowBits(Shift(r), 32) == StepBits(LowBits(r, 32), false)
  {
    hide Reverse, Shift, Step, StepBits, LowBits, Bits;
    ReverseShift(r);
    StepIsStepBits(Reverse(r), false);
    ReversedBits(r, 32);
    ReversedBits(Shift(r), 32);
  }

  lemma {:induction false} ShiftsAreZeroRun(r: bv32, n: nat)
    ensures LowBits(Shifts(r, n), 32) == RunBits(LowBits(r, 32), NoBits(n))
    decreases n
  {
    hide Shift, StepBits, LowBits;
    if n > 0 {
      ShiftIsZeroStep(r);
      ShiftsAreZeroRun(Shift(r), n - 1);
      assert NoBits(n)[1..] == NoBits(n - 1);
    }
  }

  /** With the first `k` bits clear, `k` zero-input steps only shift. */
  lemma {:induction false} ClearRunShifts(reg: seq<bool>, k: nat)
    requires |reg| == 32 && k <= 32 && reg[..k] == NoBits(k)
    ensures RunBits(reg, NoBits(k)) == reg[k..] + NoBits(k)
    decreases k
  {
    if k == 0 {
      assert reg[0..] + NoBits(0) == reg;
    } else {
      var next := reg[1..] + [false];
      assert !reg[..k][0] && StepBits(reg, false) == next;
      assert NoBits(k)[1..] == NoBits(k - 1);
      assert next[..k - 1] == reg[..k][1..];
      ClearRunShifts(next, k - 1);
      assert next[k - 1..] + NoBits(k - 1) == reg[k..] + NoBits(k);
    }
  }

  /** Eight zero-input steps of a register, taken apart at the low byte. */
  lemma EightSteps(reg: seq<bool>)
    requires |reg| == 32
    ensures RunBits(reg, NoBits(8))
            == Xor(RunBits(reg[..8] + NoBits(24), NoBits(8)), reg[8..] + NoBits(8))
  {
    var front, back := reg[..8] + NoBits(24), NoBits(8) + reg[8..];
    assert Xor(front, back) == reg;
    assert Xor(NoBits(8), NoBits(8)) == NoBits(8);
    RunLinear(front, back, NoBits(8), NoBits(8));
    ClearRunShifts(back, 8);
    assert back[8..] == reg[8..];
  }

  // The word operations of a lookup under names of their own, so that proofs can hide them.

  function Mixed(x: bv32, y: bv32): (r: bv32) { x ^ y }

  function LowByteOf(x: bv32): (r: bv32) { x & 0xff }

  function HighBytesOf(x: bv32): (r: bv32) { x >> 8 }

  lemma IndexWord(c: bv32, b: bv8)
    ensures TableIndex(c, b) as bv32 == LowByteOf(Mixed(c, b as bv32))
  {
  }

  lemma HighWord(c: bv32, b: bv8)
    ensures c >> 8 == HighBytesOf(Mixed(c, b as bv32))
  {
  }

  /** A lookup in terms of the register with the byte already xored in. */
  lemma LookupWord(c: bv32, b: bv8)
    ensures var x := Mixed(c, b as bv32);
            Lookup(c, b) == Mixed(Shifts(LowByteOf(x), 8), HighBytesOf(x))
  {
    hide Shifts, TableIndex, LowByteOf, HighBytesOf;
    IndexWord(c, b);
    HighWord(c, b);
  }

  lemma MixedBits(x: bv32, y: bv32)
    ensures LowBits(Mixed(x, y), 32) == Xor(LowBits(x, 32), LowBits(y, 32))
  {
    hide LowBits, Xor;
    LowBitsXor(x, y, 32);
  }

  lemma LowByteBits(x: bv32)
    ensures LowBits(LowByteOf(x), 32) == LowBits(x, 32)[..8] + NoBits(24)
  {
    hide LowBits, NoBits;
    LowByte(x);
  }

  lemma HighBytesBits(x: bv32)
    ensures LowBits(HighBytesOf(x), 32) == LowBits(x, 32)[8..] + NoBits(8)
  {
    hide LowBits, NoBits, ShiftDown;
    LowBitsShifts(x, 8);
    ShiftDownByte(x);
  }

  lemma LookupBits(x: bv32)
    ensures LowBits(Mixed(Shifts(LowByteOf(x), 8), HighBytesOf(x)), 32) == RunBits(LowBits(x, 32), NoBits(8))
  {
    hide LowBits, RunBits, Xor, Shifts, Mixed, LowByteOf, HighBytesOf;
    MixedBits(Shifts(LowByteOf(x), 8), HighBytesOf(x));
    ShiftsAreZeroRun(LowByteOf(x), 8);
    LowByteBits(x);
    HighBytesBits(x);
    EightSteps(LowBits(x, 32));
  }

  /** A table lookup feeds the eight bits of the byte. */
  lemma LookupFeedsByte(c: bv32, b: bv8)
    ensures LowBits(Lookup(c, b), 32) == RunBits(LowBits(c, 32), ByteBits(b))
  {
    hide Lookup, LowBits, ByteBits, RunBits, Xor, Shifts, Mixed, LowByteOf, HighBytesOf;
    LookupWord(c, b);
    LookupBits(Mixed(c, b as bv32));
    MixedBits(c, b as bv32);
    ByteWord(b);
    Absorb(LowBits(c, 32), ByteBits(b));
  }

  lemma {:induction false} UpdateFeedsStream(c: bv32, message: seq<bv8>)
    ensures LowBits(UpdateCrc(c, message), 32) == RunBits(LowBits(c, 32), StreamBits(message))
    decreases |message|
  {
    hide Lookup, ByteBits, LowBits;
    if message == [] {
    } else {
      LookupFeedsByte(c, message[0]);
      RunBitsConcat(LowBits(c, 32), ByteBits(message[0]), StreamBits(message[1..]));
      UpdateFeedsStream(Lookup(c, message[0]), message[1..]);
    }
  }

  lemma InvertIsNot(r: bv32)
    ensures Invert(r) == !r
  {
  }

  lemma FinalizeReflected(r: bv32)
    ensures Finalize(Reverse(r)) == Invert(r)
  {
    hide Reverse, Invert;
    ReverseInvolutive(r);
    ReverseNot(Reverse(r));
    InvertIsNot(r);
  }

  lemma InitialReflected()
    ensures Bits(INITIAL, 32) == LowBits(Invert(0), 32)
  {
    assert Reverse(INITIAL) == Invert(0);
    hide Reverse, LowBits, Bits, Invert;
    ReversedBits(INITIAL, 32);
  }

  /** The hash of hw01 is the RFC 1952 CRC of the message. */
  lemma HashIsRfc1952(message: seq<bv8>)
    ensures Hash(message) == CrcOf(message)
  {
    hide LowBits, Bits, UpdateCrc, Run, StreamBits, Finalize, Invert, Reverse;
    InitialReflected();
    UpdateFeedsStream(Invert(0), message);
    RunIsRunBits(INITIAL, StreamBits(message));
    FromBits(Run(INITIAL, StreamBits(message)), UpdateCrc(Invert(0), message));
    FinalizeReflected(UpdateCrc(Invert(0), message));
  }
}
