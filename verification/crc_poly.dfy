/** Polynomials over the two-element field, and the CRC register as a remainder. */
module CrcPolynomial {
  import opened Crc
  import opened CrcBits

  /** A polynomial is the set of exponents whose coefficient is 1. */
  type Poly = iset<nat>

  ghost function Add(p: Poly, q: Poly): (r: Poly)
  {
    iset e: nat | (e in p) != (e in q)
  }

  ghost function TimesX(p: Poly, k: nat): (r: Poly)
  {
    iset e: nat | HasTerm(p, e, k)
  }

  ghost predicate HasTerm(p: Poly, e: nat, k: nat)
  {
    e >= k && e - k in p
  }

  /** The polynomial with these coefficients, highest first. */
  ghost function PolyOf(bits: seq<bool>): (p: Poly)
  {
    iset e: nat | Coefficient(bits, e)
  }

  predicate Coefficient(bits: seq<bool>, e: nat)
  {
    e < |bits| && bits[|bits| - 1 - e]
  }

  ghost predicate Below(p: Poly, n: nat)
  {
    forall e :: e in p ==> e < n
  }

  ghost function Scaled(b: bool, p: Poly): (r: Poly)
  {
    if b then p else iset{}
  }

  /** The product of PolyOf(q) and g, by Horner's scheme on the coefficients of q. */
  ghost function Product(q: seq<bool>, g: Poly): (r: Poly)
  {
    if q == [] then iset{}
    else
      var n := |q| - 1;
      Add(TimesX(Product(q[..n], g), 1), Scaled(q[n], g))
  }

  /** 0x104C11DB7: the leading x^32 and the 32 low coefficients the code xors in. */
  ghost function G(): (g: Poly)
  {
    Add(iset{32}, PolyOf(Generator()))
  }

  ghost predicate IsRemainder(d: Poly, r: Poly)
  {
    Below(r, 32) && exists q :: d == Add(Product(q, G()), r)
  }

  /** What a register and a message stand for: reg * x^n + message * x^32. */
  ghost function Dividend(reg: seq<bool>, message: seq<bool>): (d: Poly)
  {
    Add(TimesX(PolyOf(reg), |message|), TimesX(PolyOf(message), 32))
  }

  // ----- Product is multiplication: it is linear in g and gives PolyOf(q) at g = 1

  lemma {:induction false} ProductLaws(q: seq<bool>, g: Poly, h: Poly)
    ensures Product(q, Add(g, h)) == Add(Product(q, g), Product(q, h))
    ensures Product(q, TimesX(g, 1)) == TimesX(Product(q, g), 1)
    ensures Product(q, iset{0}) == PolyOf(q)
  {
    if q != [] {
      var n := |q| - 1;
      ProductLaws(q[..n], g, h);
      PolySnoc(q[..n], q[n]);
      assert q[..n] + [q[n]] == q;
    }
  }

  lemma PolySnoc(bits: seq<bool>, b: bool)
    ensures PolyOf(bits + [b]) == Add(TimesX(PolyOf(bits), 1), Scaled(b, iset{0}))
  {
    var more := bits + [b];
    forall e: nat
      ensures e in PolyOf(more) <==> e in Add(TimesX(PolyOf(bits), 1), Scaled(b, iset{0}))
    {
      if 0 < e <= |bits| { assert more[|more| - 1 - e] == bits[|bits| - 1 - (e - 1)]; }
    }
  }

  // ----- one step multiplies by x, adds the message bit at x^32 and subtracts G if x^32 is set

  lemma StepPoly(reg: seq<bool>, b: bool)
    requires |reg| == 32
    ensures Add(TimesX(PolyOf(reg), 1), Scaled(b, iset{32}))
            == Add(Scaled(reg[0] != b, G()), PolyOf(StepBits(reg, b)))
  {
    hide Generator;
    var g, s := Generator(), StepBits(reg, b);
    forall e: nat
      ensures e in Add(TimesX(PolyOf(reg), 1), Scaled(b, iset{32})) <==> e in Add(Scaled(reg[0] != b, G()), PolyOf(s))
    {
      if 0 < e < 32 {
        assert reg[31 - (e - 1)] == (reg[1..] + [false])[31 - e];
      }
    }
  }

  /** The quotient bits the register shifts out. */
  ghost function Quotient(reg: seq<bool>, message: seq<bool>): (q: seq<bool>)
    requires |reg| == 32
    ensures |q| == |message|
  {
    if message == [] then []
    else
      var n := |message| - 1;
      Quotient(reg, message[..n]) + [RunBits(reg, message[..n])[0] != message[n]]
  }

  lemma RunSnoc(reg: seq<bool>, message: seq<bool>, b: bool)
    requires |reg| == 32
    ensures RunBits(reg, message + [b]) == StepBits(RunBits(reg, message), b)
  {
    hide StepBits;
    RunBitsConcat(reg, message, [b]);
    var r := RunBits(reg, message);
    assert RunBits(r, [b]) == RunBits(StepBits(r, b), []);
  }

  lemma DividendSnoc(reg: seq<bool>, message: seq<bool>, b: bool)
    ensures Dividend(reg, message + [b]) == Add(TimesX(Dividend(reg, message), 1), Scaled(b, iset{32}))
  {
    PolySnoc(message, b);
    var d, d' := Dividend(reg, message), Dividend(reg, message + [b]);
    forall e: nat
      ensures e in d' <==> e in Add(TimesX(d, 1), Scaled(b, iset{32}))
    {
      var shifted := Add(TimesX(PolyOf(message), 1), Scaled(b, iset{0}));
      assert e >= 32 ==> (e - 32 in PolyOf(message + [b]) <==> e - 32 in shifted);
    }
  }

  lemma Rearrange(d: Poly, p: Poly, r: Poly, r': Poly, b: bool, out: bool)
    requires d == Add(p, r)
    requires Add(TimesX(r, 1), Scaled(b, iset{32})) == Add(Scaled(out, G()), r')
    ensures Add(TimesX(d, 1), Scaled(b, iset{32})) == Add(Add(TimesX(p, 1), Scaled(out, G())), r')
  {
    hide G;
    forall e: nat
      ensures e in Add(TimesX(d, 1), Scaled(b, iset{32})) <==> e in Add(Add(TimesX(p, 1), Scaled(out, G())), r')
    {
      assert e in Add(TimesX(r, 1), Scaled(b, iset{32})) <==> e in Add(Scaled(out, G()), r');
    }
  }

  lemma {:induction false} DivisionHolds(reg: seq<bool>, message: seq<bool>)
    requires |reg| == 32
    ensures Dividend(reg, message) == Add(Product(Quotient(reg, message), G()), PolyOf(RunBits(reg, message)))
    decreases |message|
  {
    hide G, StepBits;
    if message == [] {
      assert Dividend(reg, message) == PolyOf(reg);
    } else {
      var n := |message| - 1;
      var m, b := message[..n], message[n];
      assert message == m + [b];
      DivisionHolds(reg, m);
      StepPoly(RunBits(reg, m), b);
      RunSnoc(reg, m, b);
      DividendSnoc(reg, m, b);
      var q := Quotient(reg, m);
      var out := RunBits(reg, m)[0] != b;
      Rearrange(Dividend(reg, m), Product(q, G()), PolyOf(RunBits(reg, m)), PolyOf(RunBits(reg, message)), b, out);
      assert Quotient(reg, message) == q + [out];
      assert (q + [out])[..n] == q;
    }
  }

  // ----- remainders are unique

  lemma {:induction false} ProductDegree(q: seq<bool>)
    ensures Below(Product(q, G()), |q| + 32)
    ensures q != [] && q[0] ==> |q| + 31 in Product(q, G())
  {
    GeneratorDegree();
    hide G;
    if q != [] {
      var n := |q| - 1;
      ProductDegree(q[..n]);
      assert n > 0 ==> q[..n][0] == q[0];
    }
  }

  lemma GeneratorDegree()
    ensures Below(G(), 33) && 32 in G()
  {
    hide Generator;
  }

  lemma {:induction false} ProductLeadingZero(q: seq<bool>, g: Poly)
    ensures Product([false] + q, g) == Product(q, g)
  {
    if q == [] {
      assert ([false] + q)[..0] == [];
      assert Product([false] + q, g) == iset{};
    } else {
      var n := |q| - 1;
      assert ([false] + q)[..n + 1] == [false] + q[..n];
      ProductLeadingZero(q[..n], g);
    }
  }

  /** A multiple of G with no exponent above 31 is zero. */
  lemma {:induction false} SmallMultipleIsZero(q: seq<bool>)
    requires Below(Product(q, G()), 32)
    ensures Product(q, G()) == iset{}
  {
    hide G;
    if q != [] {
      ProductDegree(q);
      assert q == [false] + q[1..];
      ProductLeadingZero(q[1..], G());
      SmallMultipleIsZero(q[1..]);
    }
  }

  lemma {:induction false} ProductXor(a: seq<bool>, b: seq<bool>, g: Poly)
    requires |a| == |b|
    ensures Product(Xor(a, b), g) == Add(Product(a, g), Product(b, g))
  {
    if a != [] {
      var n := |a| - 1;
      assert Xor(a, b)[..n] == Xor(a[..n], b[..n]);
      ProductXor(a[..n], b[..n], g);
    }
  }

  lemma {:induction false} Padded(q: seq<bool>, n: nat, g: Poly) returns (p: seq<bool>)
    requires |q| <= n
    ensures |p| == n && Product(p, g) == Product(q, g)
    decreases n - |q|
  {
    if |q| == n {
      p := q;
    } else {
      ProductLeadingZero(q, g);
      p := Padded([false] + q, n, g);
    }
  }

  lemma RemainderUnique(d: Poly, r: Poly, s: Poly)
    requires IsRemainder(d, r) && IsRemainder(d, s)
    ensures r == s
  {
    hide G;
    var p: seq<bool> :| d == Add(Product(p, G()), r);
    var q: seq<bool> :| d == Add(Product(q, G()), s);
    var n := if |p| < |q| then |q| else |p|;
    var p' := Padded(p, n, G());
    var q' := Padded(q, n, G());
    ProductXor(p', q', G());
    var m := Product(Xor(p', q'), G());
    forall e: nat
      ensures e in m <==> (e in r) != (e in s)
    {
      assert e in d <==> e in Add(Product(p, G()), r);
      assert e in d <==> e in Add(Product(q, G()), s);
    }
    SmallMultipleIsZero(Xor(p', q'));
    assert forall e: nat :: e in m <==> e in iset{};
  }

  /**
    The register of crc32_update. For every initial register and every message it is the
    remainder modulo the generator of (register * x^n + message * x^32), the n message bits
    taken least significant first in each byte; and nothing else is that remainder.
   */
  lemma UpdateIsRemainder(c: bv32, message: seq<bv8>, r: Poly)
    ensures IsRemainder(Dividend(Bits(c, 32), StreamBits(message)), r)
            <==> r == PolyOf(Bits(Run(c, StreamBits(message)), 32))
  {
    hide Bits, StreamBits, Run, G;
    var reg, bits := Bits(c, 32), StreamBits(message);
    var s := PolyOf(Bits(Run(c, bits), 32));
    RunIsRunBits(c, bits);
    DivisionHolds(reg, bits);
    assert IsRemainder(Dividend(reg, bits), s);
    if IsRemainder(Dividend(reg, bits), r) {
      RemainderUnique(Dividend(reg, bits), r, s);
    }
  }
}
