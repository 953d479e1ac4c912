/** Burst errors: what the hash always catches. */
module CrcBurst {
  import opened Crc
  import opened CrcBits
  import opened CrcWords
  import opened CrcPolynomial

  /** The streams agree outside the 32 bits starting at `start`. */
  ghost predicate AgreeOutside(a: seq<bool>, b: seq<bool>, start: nat)
    requires |a| == |b|
  {
    forall i :: 0 <= i < |a| && !(start <= i < start + 32) ==> a[i] == b[i]
  }

  lemma XorSelf(a: seq<bool>)
    ensures Xor(a, a) == NoBits(|a|)
  {
  }

  /** From the zero register, a nonzero burst of at most 32 bits leaves a nonzero register. */
  lemma BurstLeavesTrace(w: seq<bool>)
    requires |w| <= 32 && RunBits(NoBits(32), w) == NoBits(32)
    ensures w == NoBits(|w|)
  {
    var padded := w + NoBits(32 - |w|);
    Absorb(NoBits(32), w);
    assert Xor(NoBits(32), padded) == padded;
    ZeroRunKeepsNonzero(padded, |w|);
    assert w == padded[..|w|];
  }

  lemma SilenceBurstSilence(l: nat, w: seq<bool>, m: nat)
    requires |w| <= 32 && RunBits(NoBits(32), NoBits(l) + (w + NoBits(m))) == NoBits(32)
    ensures w == NoBits(|w|)
  {
    hide RunBits;
    RunBitsConcat(NoBits(32), NoBits(l), w + NoBits(m));
    ZeroRunOfZero(l);
    RunBitsConcat(NoBits(32), w, NoBits(m));
    ZeroRunKeepsNonzero(RunBits(NoBits(32), w), m);
    BurstLeavesTrace(w);
  }

  /** The difference of the two streams, cut into silence, burst and silence. */
  lemma SplitDifference(d: seq<bool>, start: nat)
    requires forall i :: 0 <= i < |d| && !(start <= i < start + 32) ==> !d[i]
    requires RunBits(NoBits(32), d) == NoBits(32)
    ensures d == NoBits(|d|)
  {
    hide RunBits, NoBits;
    var lo := if start <= |d| then start else |d|;
    var hi := if start + 32 <= |d| then start + 32 else |d|;
    var w := d[lo..hi];
    Cut(d, lo, hi);
    SilenceBurstSilence(lo, w, |d| - hi);
    QuietParts(lo, w, |d| - hi);
  }

  lemma Cut(d: seq<bool>, lo: nat, hi: nat)
    requires lo <= hi <= |d| && forall i :: 0 <= i < lo || hi <= i < |d| ==> !d[i]
    ensures d == NoBits(lo) + (d[lo..hi] + NoBits(|d| - hi))
  {
    assert d[..lo] == NoBits(lo);
    assert d[hi..] == NoBits(|d| - hi);
    assert d == d[..lo] + (d[lo..hi] + d[hi..]);
  }

  lemma QuietParts(l: nat, w: seq<bool>, m: nat)
    requires w == NoBits(|w|)
    ensures NoBits(l) + (w + NoBits(m)) == NoBits(l + |w| + m)
  {
  }

  /** From any register, two streams that differ in one burst end in different registers. */
  lemma BurstChangesRegister(reg: seq<bool>, a: seq<bool>, b: seq<bool>, start: nat)
    requires |reg| == 32 && |a| == |b| && a != b && AgreeOutside(a, b, start)
    ensures RunBits(reg, a) != RunBits(reg, b)
  {
    hide RunBits;
    if RunBits(reg, a) == RunBits(reg, b) {
      var d := Xor(a, b);
      RunLinear(reg, reg, a, b);
      XorSelf(reg);
      XorSelf(RunBits(reg, a));
      var i :| 0 <= i < |a| && a[i] != b[i];
      assert d[i];
      SplitDifference(d, start);
      assert false;
    }
  }

  lemma {:induction false} StreamInjective(a: seq<bv8>, b: seq<bv8>)
    requires |a| == |b| && StreamBits(a) == StreamBits(b)
    ensures a == b
  {
    if a != [] {
      var x, y := ByteBits(a[0]), ByteBits(b[0]);
      assert StreamBits(a)[..8] == x && StreamBits(b)[..8] == y;
      assert StreamBits(a)[8..] == StreamBits(a[1..]) && StreamBits(b)[8..] == StreamBits(b[1..]);
      ByteInjective(a[0], b[0]);
      StreamInjective(a[1..], b[1..]);
    }
  }

  /**
    Burst detection: different messages of equal length whose differing bits all lie within
    32 consecutive bits of the stream never have the same hash.
   */
  lemma BurstDetected(a: seq<bv8>, b: seq<bv8>, start: nat)
    requires |a| == |b| && a != b
    requires AgreeOutside(StreamBits(a), StreamBits(b), start)
    ensures Hash(a) != Hash(b)
  {
    hide Run, StreamBits, Finalize, Bits, RunBits, AgreeOutside;
    if StreamBits(a) == StreamBits(b) {
      StreamInjective(a, b);
    }
    BurstChangesRegister(Bits(INITIAL, 32), StreamBits(a), StreamBits(b), start);
    RunIsRunBits(INITIAL, StreamBits(a));
    RunIsRunBits(INITIAL, StreamBits(b));
    if Hash(a) == Hash(b) {
      FinalizeInjective(Run(INITIAL, StreamBits(a)), Run(INITIAL, StreamBits(b)));
    }
  }

  // ----- what the hash cannot catch

  /**
    Two messages of equal length have the same hash if and only if feeding their difference to
    a zero register leaves it zero ...
   */
  lemma SameHashExactly(a: seq<bv8>, b: seq<bv8>)
    requires |a| == |b|
    ensures Hash(a) == Hash(b) <==> RunBits(NoBits(32), Xor(StreamBits(a), StreamBits(b))) == NoBits(32)
  {
    hide Run, StreamBits, Finalize, Bits, RunBits;
    var reg, x, y := Bits(INITIAL, 32), StreamBits(a), StreamBits(b);
    RunIsRunBits(INITIAL, x);
    RunIsRunBits(INITIAL, y);
    RunLinear(reg, reg, x, y);
    XorSelf(reg);
    var p, q := Run(INITIAL, x), Run(INITIAL, y);
    if Hash(a) == Hash(b) { FinalizeInjective(p, q); }
    XorIsZero(RunBits(reg, x), RunBits(reg, y));
    if RunBits(reg, x) == RunBits(reg, y) { BitsInjective(p, q); }
  }

  lemma XorIsZero(a: seq<bool>, b: seq<bool>)
    requires |a| == |b|
    ensures Xor(a, b) == NoBits(|a|) <==> a == b
  {
    if Xor(a, b) == NoBits(|a|) {
      forall i | 0 <= i < |a| ensures a[i] == b[i] { assert !Xor(a, b)[i]; }
    }
  }

  /** ... that is, if and only if the generator divides their difference. */
  lemma SameHashIsDivisible(a: seq<bv8>, b: seq<bv8>)
    requires |a| == |b|
    ensures Hash(a) == Hash(b)
            <==> IsRemainder(Dividend(NoBits(32), Xor(StreamBits(a), StreamBits(b))), iset{})
  {
    hide RunBits, StreamBits, IsRemainder, Hash;
    var d := Xor(StreamBits(a), StreamBits(b));
    SameHashExactly(a, b);
    RegisterIsRemainder(NoBits(32), d);
    ZeroPoly(RunBits(NoBits(32), d));
    if IsRemainder(Dividend(NoBits(32), d), iset{}) {
      RemainderUnique(Dividend(NoBits(32), d), PolyOf(RunBits(NoBits(32), d)), iset{});
    }
  }

  lemma RegisterIsRemainder(reg: seq<bool>, bits: seq<bool>)
    requires |reg| == 32
    ensures IsRemainder(Dividend(reg, bits), PolyOf(RunBits(reg, bits)))
  {
    hide RunBits, G;
    DivisionHolds(reg, bits);
  }

  lemma ZeroPoly(bits: seq<bool>)
    ensures PolyOf(bits) == iset{} <==> bits == NoBits(|bits|)
  {
    if PolyOf(bits) == iset{} {
      forall i | 0 <= i < |bits|
        ensures !bits[i]
      {
        assert bits[i] ==> |bits| - 1 - i in PolyOf(bits);
      }
    }
  }

  /** The 33 coefficients of the generator. */
  function GeneratorBits(): (g: seq<bool>)
    ensures |g| == 33 && g[0]
  {
    [true] + Generator()
  }

  lemma GeneratorLeavesNoTrace()
    ensures RunBits(NoBits(32), GeneratorBits()) == NoBits(32)
  {
    var g := Generator();
    FirstBitLeavesGenerator();
    hide RunBits, Generator;
    RunBitsConcat(NoBits(32), [true], g);
    Absorb(g, g);
    assert g + NoBits(0) == g;
    XorSelf(g);
    ZeroRunOfZero(32);
  }

  lemma FirstBitLeavesGenerator()
    ensures RunBits(NoBits(32), [true]) == Generator()
  {
    hide Generator;
    RunSnoc(NoBits(32), [], true);
    assert [] + [true] == [true];
    assert Xor(NoBits(31) + [false], Generator()) == Generator();
    assert NoBits(32)[1..] == NoBits(31);
  }

  /** 32 is the limit: a difference of the generator's 33 bits, anywhere in the stream, is never seen. */
  lemma GeneratorBurstUndetected(a: seq<bv8>, b: seq<bv8>, l: nat, m: nat)
    requires |a| == |b| && Xor(StreamBits(a), StreamBits(b)) == NoBits(l) + (GeneratorBits() + NoBits(m))
    ensures a != b && Hash(a) == Hash(b)
  {
    hide RunBits, GeneratorBits, StreamBits, Hash;
    var g := GeneratorBits();
    var d := Xor(StreamBits(a), StreamBits(b));
    assert d[l] == g[0];
    RunBitsConcat(NoBits(32), NoBits(l), g + NoBits(m));
    ZeroRunOfZero(l);
    RunBitsConcat(NoBits(32), g, NoBits(m));
    GeneratorLeavesNoTrace();
    ZeroRunOfZero(m);
    SameHashExactly(a, b);
  }

  lemma FiveBytes(p: bv8, q: bv8, r: bv8, s: bv8, t: bv8)
    ensures StreamBits([p, q, r, s, t]) == ByteBits(p) + ByteBits(q) + ByteBits(r) + ByteBits(s) + ByteBits(t)
  {
    hide ByteBits, StreamBits;
    StreamByte(p);
    StreamByte(q);
    StreamByte(r);
    StreamByte(s);
    StreamByte(t);
    StreamConcat([p], [q]);
    StreamConcat([p] + [q], [r]);
    StreamConcat([p] + [q] + [r], [s]);
    StreamConcat([p] + [q] + [r] + [s], [t]);
    assert [p] + [q] + [r] + [s] + [t] == [p, q, r, s, t];
  }

  lemma LowCons(x: bv32, y: bv32, n: nat)
    requires n > 0 && y == x >> 1
    ensures LowBits(x, n) == [Low(x)] + LowBits(y, n - 1)
  {
  }

  lemma FourLow(x: bv32, x1: bv32, x2: bv32, x3: bv32, y: bv32, n: nat)
    requires n >= 4 && x1 == x >> 1 && x2 == x1 >> 1 && x3 == x2 >> 1 && y == x3 >> 1
    ensures LowBits(x, n) == [Low(x), Low(x1), Low(x2), Low(x3)] + LowBits(y, n - 4)
  {
    hide Low, LowBits;
    LowCons(x, x1, n);
    LowCons(x1, x2, n - 1);
    LowCons(x2, x3, n - 2);
    LowCons(x3, y, n - 3);
  }

  lemma CollisionBytes()
    ensures ByteBits(0x00) == [false, false, false, false, false, false, false, false]
    ensures ByteBits(0x41) == [true, false, false, false, false, false, true, false]
    ensures ByteBits(0x06) == [false, true, true, false, false, false, false, false]
    ensures ByteBits(0x71) == [true, false, false, false, true, true, true, false]
    ensures ByteBits(0xDB) == [true, true, false, true, true, false, true, true]
    ensures ByteBits(0x01) == [true, false, false, false, false, false, false, false]
  {
    hide LowBits;
    FourLow(0x00, 0x00, 0x00, 0x00, 0x00, 8);
    FourLow(0x00, 0x00, 0x00, 0x00, 0x00, 4);
    FourLow(0x41, 0x20, 0x10, 0x08, 0x04, 8);
    FourLow(0x04, 0x02, 0x01, 0x00, 0x00, 4);
    FourLow(0x06, 0x03, 0x01, 0x00, 0x00, 8);
    FourLow(0x00, 0x00, 0x00, 0x00, 0x00, 4);
    FourLow(0x71, 0x38, 0x1C, 0x0E, 0x07, 8);
    FourLow(0x07, 0x03, 0x01, 0x00, 0x00, 4);
    FourLow(0xDB, 0x6D, 0x36, 0x1B, 0x0D, 8);
    FourLow(0x0D, 0x06, 0x03, 0x01, 0x00, 4);
    FourLow(0x01, 0x00, 0x00, 0x00, 0x00, 8);
    FourLow(0x00, 0x00, 0x00, 0x00, 0x00, 4);
  }

  lemma BitsCons(x: bv32, y: bv32, n: nat)
    requires n > 0 && y == x << 1
    ensures Bits(x, n) == [Top(x)] + Bits(y, n - 1)
  {
  }

  lemma FourBits(x: bv32, x1: bv32, x2: bv32, x3: bv32, y: bv32, n: nat)
    requires n >= 4 && x1 == x << 1 && x2 == x1 << 1 && x3 == x2 << 1 && y == x3 << 1
    ensures Bits(x, n) == [Top(x), Top(x1), Top(x2), Top(x3)] + Bits(y, n - 4)
  {
    hide Top, Bits;
    BitsCons(x, x1, n);
    BitsCons(x1, x2, n - 1);
    BitsCons(x2, x3, n - 2);
    BitsCons(x3, y, n - 3);
  }

  lemma GeneratorWord()
    ensures Generator() == [false, false, false, false] + [false, true, false, false]
                           + [true, true, false, false] + [false, false, false, true]
                           + [false, false, false, true] + [true, true, false, true]
                           + [true, false, true, true] + [false, true, true, true]
  {
    hide Bits;
    FourBits(0x04C11DB7, 0x09823B6E, 0x130476DC, 0x2608EDB8, 0x4C11DB70, 32);
    FourBits(0x4C11DB70, 0x9823B6E0, 0x30476DC0, 0x608EDB80, 0xC11DB700, 28);
    FourBits(0xC11DB700, 0x823B6E00, 0x0476DC00, 0x08EDB800, 0x11DB7000, 24);
    FourBits(0x11DB7000, 0x23B6E000, 0x476DC000, 0x8EDB8000, 0x1DB70000, 20);
    FourBits(0x1DB70000, 0x3B6E0000, 0x76DC0000, 0xEDB80000, 0xDB700000, 16);
    FourBits(0xDB700000, 0xB6E00000, 0x6DC00000, 0xDB800000, 0xB7000000, 12);
    FourBits(0xB7000000, 0x6E000000, 0xDC000000, 0xB8000000, 0x70000000, 8);
    FourBits(0x70000000, 0xE0000000, 0xC0000000, 0x80000000, 0x00000000, 4);
  }

  lemma CollisionBits()
    ensures StreamBits([0, 0, 0, 0, 0]) == NoBits(40)
    ensures StreamBits([0x41, 0x06, 0x71, 0xDB, 0x01]) == GeneratorBits() + NoBits(7)
  {
    FiveBytes(0, 0, 0, 0, 0);
    FiveBytes(0x41, 0x06, 0x71, 0xDB, 0x01);
    CollisionBytes();
    GeneratorWord();
    hide StreamBits, ByteBits, Generator;
  }

  /** ... and there are such messages. */
  lemma ShortestCollision()
    ensures Hash([0, 0, 0, 0, 0]) == Hash([0x41, 0x06, 0x71, 0xDB, 0x01])
  {
    var a, b: seq<bv8> := [0, 0, 0, 0, 0], [0x41, 0x06, 0x71, 0xDB, 0x01];
    CollisionBits();
    hide StreamBits, GeneratorBits, Hash;
    assert Xor(StreamBits(a), StreamBits(b)) == NoBits(0) + (GeneratorBits() + NoBits(7));
    GeneratorBurstUndetected(a, b, 0, 7);
  }
}
