/** The CRC register as 32 bits, most significant first: linearity, absorption, invertibility. */
module CrcBits {
  import opened Crc

  function NoBits(n: nat): (s: seq<bool>)
    ensures |s| == n
    ensures forall i :: 0 <= i < n ==> !s[i]
  {
    seq(n, _ => false)
  }

  /** The generator without its leading term. */
  function Generator(): (g: seq<bool>)
    ensures |g| == 32
  {
    Bits(GENERATOR, 32)
  }

  function StepBits(reg: seq<bool>, b: bool): (r: seq<bool>)
    requires |reg| == 32
    ensures |r| == 32
  {
    var shifted := reg[1..] + [false];
    if reg[0] != b then Xor(shifted, Generator()) else shifted
  }

  function RunBits(reg: seq<bool>, bits: seq<bool>): (r: seq<bool>)
    requires |reg| == 32
    ensures |r| == 32
    decreases |bits|
  {
    if bits == [] then reg else RunBits(StepBits(reg, bits[0]), bits[1..])
  }

  // ----- the bit model is the word model

  lemma StepIsStepBits(c: bv32, b: bool)
    ensures Bits(Step(c, b), 32) == StepBits(Bits(c, 32), b)
  {
    hide Top, Xor, Bits;
    BitsShift(c);
    BitsXor(c << 1, GENERATOR, 32);
    BitsHead(c, 32);
  }

  lemma {:induction false} RunIsRunBits(c: bv32, bits: seq<bool>)
    ensures Bits(Run(c, bits), 32) == RunBits(Bits(c, 32), bits)
    decreases |bits|
  {
    hide Step, StepBits;
    if bits != [] {
      StepIsStepBits(c, bits[0]);
      RunIsRunBits(Step(c, bits[0]), bits[1..]);
    }
  }

  // ----- sequences of bits

  lemma {:induction false} RunBitsConcat(reg: seq<bool>, a: seq<bool>, b: seq<bool>)
    requires |reg| == 32
    ensures RunBits(reg, a + b) == RunBits(RunBits(reg, a), b)
    decreases |a|
  {
    hide StepBits;
    if a == [] {
      assert a + b == b;
    } else {
      assert (a + b)[1..] == a[1..] + b;
      RunBitsConcat(StepBits(reg, a[0]), a[1..], b);
    }
  }

  lemma XorTail(a: seq<bool>, b: seq<bool>)
    requires |a| == |b| > 0
    ensures Xor(a, b)[1..] == Xor(a[1..], b[1..]) && Xor(a, b)[0] == (a[0] != b[0])
  {
  }

  // ----- linearity

  lemma StepLinear(r: seq<bool>, s: seq<bool>, b: bool, c: bool)
    requires |r| == |s| == 32
    ensures StepBits(Xor(r, s), b != c) == Xor(StepBits(r, b), StepBits(s, c))
  {
    hide Generator;
    var g, x, y := Generator(), StepBits(Xor(r, s), b != c), Xor(StepBits(r, b), StepBits(s, c));
    forall i | 0 <= i < 32
      ensures x[i] == y[i]
    {
    }
  }

  lemma {:induction false} RunLinear(r: seq<bool>, s: seq<bool>, a: seq<bool>, b: seq<bool>)
    requires |r| == |s| == 32 && |a| == |b|
    ensures RunBits(Xor(r, s), Xor(a, b)) == Xor(RunBits(r, a), RunBits(s, b))
    decreases |a|
  {
    hide StepBits, Xor;
    if a == [] {
      assert Xor(a, b) == [];
    } else {
      StepLinear(r, s, a[0], b[0]);
      XorTail(a, b);
      RunLinear(StepBits(r, a[0]), StepBits(s, b[0]), a[1..], b[1..]);
    }
  }

  // ----- absorption: up to 32 message bits may be xored into the register beforehand

  lemma AbsorbOne(reg: seq<bool>, b: bool, rest: seq<bool>)
    requires |reg| == 32 && |rest| == 31
    ensures StepBits(Xor(reg, [b] + rest), false) == Xor(StepBits(reg, b), rest + [false])
  {
    hide Generator;
    var g, x, y := Generator(), StepBits(Xor(reg, [b] + rest), false), Xor(StepBits(reg, b), rest + [false]);
    forall i | 0 <= i < 32
      ensures x[i] == y[i]
    {
    }
  }

  lemma {:induction false} Absorb(reg: seq<bool>, w: seq<bool>)
    requires |reg| == 32 && |w| <= 32
    ensures RunBits(reg, w) == RunBits(Xor(reg, w + NoBits(32 - |w|)), NoBits(|w|))
    decreases |w|
  {
    hide StepBits, Xor;
    if w == [] {
      XorNothing(reg, w + NoBits(32));
    } else {
      var pad := NoBits(32 - |w|);
      var rest := w[1..] + pad;
      assert w + pad == [w[0]] + rest;
      AbsorbOne(reg, w[0], rest);
      assert rest + [false] == w[1..] + NoBits(32 - |w[1..]|);
      assert NoBits(|w|)[1..] == NoBits(|w| - 1);
      Absorb(StepBits(reg, w[0]), w[1..]);
    }
  }

  lemma XorNothing(a: seq<bool>, z: seq<bool>)
    requires |a| == |z| && forall i :: 0 <= i < |z| ==> !z[i]
    ensures Xor(a, z) == a
  {
  }

  // ----- the zero-input step loses nothing, because the generator ends in 1

  lemma GeneratorIsOdd()
    ensures Generator()[31]
  {
    hide Bits;
    BitsSnoc(GENERATOR, 31);
    ShiftUpAdd(GENERATOR, 8, 23); ShiftUpAdd(GENERATOR << 8, 8, 15); ShiftUpAdd(GENERATOR << 8 << 8, 8, 7);
    ShiftUpByte(GENERATOR); ShiftUpByte(GENERATOR << 8); ShiftUpByte(GENERATOR << 8 << 8);
    assert ShiftUp(0xB7000000, 7) == 0x80000000;
  }

  lemma ZeroStepKeepsNonzero(reg: seq<bool>)
    requires |reg| == 32 && StepBits(reg, false) == NoBits(32)
    ensures reg == NoBits(32)
  {
    hide Generator;
    GeneratorIsOdd();
    var shifted := reg[1..] + [false];
    assert !StepBits(reg, false)[31];
    assert !reg[0];
    assert shifted == NoBits(32);
    assert reg == [reg[0]] + shifted[..31];
  }

  lemma {:induction false} ZeroRunKeepsNonzero(reg: seq<bool>, n: nat)
    requires |reg| == 32 && RunBits(reg, NoBits(n)) == NoBits(32)
    ensures reg == NoBits(32)
    decreases n
  {
    hide StepBits;
    if n > 0 {
      assert NoBits(n)[1..] == NoBits(n - 1);
      ZeroRunKeepsNonzero(StepBits(reg, false), n - 1);
      ZeroStepKeepsNonzero(reg);
    }
  }

  lemma {:induction false} ZeroRunOfZero(n: nat)
    ensures RunBits(NoBits(32), NoBits(n)) == NoBits(32)
  {
    if n > 0 {
      assert NoBits(n)[1..] == NoBits(n - 1);
      assert StepBits(NoBits(32), false) == NoBits(32);
      ZeroRunOfZero(n - 1);
    }
  }
}

/** Words read from the low end, as the stream and the reflected form of the CRC read them. */
module CrcWords {
  import opened Crc
  import opened CrcBits

  lemma LowBitsXor(x: bv32, y: bv32, n: nat)
    ensures LowBits(x ^ y, n) == Xor(LowBits(x, n), LowBits(y, n))
  {
    hide Reverse, Bits, LowBits, Xor;
    ReverseXor(x, y);
    BitsXor(Reverse(x), Reverse(y), n);
    ReversedBits(x, n);
    ReversedBits(y, n);
    ReversedBits(x ^ y, n);
  }

  lemma LowBitsShift(x: bv32)
    ensures LowBits(x >> 1, 32) == LowBits(x, 32)[1..] + [false]
  {
    hide Reverse, Bits, LowBits;
    ReverseRight(x);
    BitsShift(Reverse(x));
    ReversedBits(x, 32);
    ReversedBits(x >> 1, 32);
  }

  function ShiftDown(x: bv32, n: nat): (r: bv32)
    decreases n
  {
    if n == 0 then x else ShiftDown(x >> 1, n - 1)
  }

  lemma {:induction false} LowBitsShifts(x: bv32, n: nat)
    requires n <= 32
    ensures LowBits(ShiftDown(x, n), 32) == LowBits(x, 32)[n..] + NoBits(n)
    decreases n
  {
    hide LowBits;
    if n == 0 {
      assert LowBits(x, 32)[0..] + NoBits(0) == LowBits(x, 32);
    } else {
      LowBitsShift(x);
      LowBitsShifts(x >> 1, n - 1);
      assert (LowBits(x, 32)[1..] + [false])[n - 1..] + NoBits(n - 1) == LowBits(x, 32)[n..] + NoBits(n);
    }
  }

  lemma ShiftDownByte(x: bv32)
    ensures ShiftDown(x, 8) == x >> 8
  {
  }

  lemma {:induction false} LowBitsSplit(x: bv32, m: nat, n: nat)
    ensures LowBits(x, m)  == LowBits(x, m + n)[..m]
    decreases m
  {
    hide Low;
    if m > 0 {
      LowBitsSplit(x >> 1, m - 1, n);
      assert LowBits(x, m + n) == [Low(x)] + LowBits(x >> 1, m - 1 + n);
    }
  }

  lemma {:induction false} LowBitsOfZero(n: nat)
    ensures LowBits(0, n) == NoBits(n)
  {
    if n > 0 {
      LowBitsOfZero(n - 1);
      assert (0 as bv32) >> 1 == 0;
    }
  }

  /** The low byte of a word as a word of its own. */
  lemma LowByte(x: bv32)
    ensures LowBits(x & 0xff, 32) == LowBits(x, 32)[..8] + NoBits(24)
  {
    hide LowBits;
    var low, high := x & 0xff, x & 0xFFFFFF00;
    assert low ^ high == x && low >> 8 == 0;
    LowBitsXor(low, high, 32);
    LowBitsShifts(low, 8);
    ShiftDownByte(low);
    LowBitsOfZero(32);
    HighPart(high);
    var l, h := LowBits(low, 32), LowBits(high, 32);
    assert l[8..] + NoBits(8) == NoBits(32);
    assert l[8..] == (l[8..] + NoBits(8))[..24];
    assert l[8..] == NoBits(24);
    LowBitsSplit(high, 8, 24);
    assert Xor(l, h)[..8] == l[..8] by { assert forall i :: 0 <= i < 8 ==> !h[..8][i]; }
    assert l == l[..8] + l[8..];
  }

  lemma HighPart(x: bv32)
    requires x & 0xff == 0
    ensures LowBits(x, 8) == NoBits(8)
  {
    assert LowBits(x, 8)[4..] == LowBits(x >> 4, 4);
  }

  lemma ByteWord(b: bv8)
    ensures LowBits(b as bv32, 32) == ByteBits(b) + NoBits(24)
  {
    var w := b as bv32;
    assert w & 0xff == w;
    hide LowBits;
    LowByte(w);
    LowBitsSplit(w, 8, 24);
  }

  lemma FromBits(c: bv32, r: bv32)
    requires Bits(c, 32) == LowBits(r, 32)
    ensures c == Reverse(r)
  {
    hide Reverse, LowBits, Bits;
    ReversedBits(r, 32);
    BitsInjective(c, Reverse(r));
  }

  /** A byte is determined by its bits. */
  lemma ByteInjective(a: bv8, b: bv8)
    requires ByteBits(a) == ByteBits(b)
    ensures a == b
  {
    hide Reverse, LowBits, Bits, ByteBits;
    ByteWord(a);
    ByteWord(b);
    ReversedBits(a as bv32, 32);
    FromBits(Reverse(a as bv32), b as bv32);
    ReverseInvolutive(a as bv32);
    ReverseInvolutive(b as bv32);
    SameByte(a, b);
  }

  lemma SameByte(a: bv8, b: bv8)
    requires a as bv32 == b as bv32
    ensures a == b
  {
  }
}
