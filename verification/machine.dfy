/** Machine-level types shared by the models: bytes and `size_t` arithmetic. */
module Machine {

  newtype byte = b: int | 0 <= b < 256

  datatype Option<+T> = None | Some(value: T)

  /** `size_t` on the 64-bit targets the programs are built for. */
  const SIZE_MODULUS: int := 0x1_0000_0000_0000_0000

  function Zeros(n: nat): (z: seq<byte>)
    ensures |z| == n
    ensures forall i :: 0 <= i < n ==> z[i] == 0
  {
    seq(n, i => 0)
  }

  function Pow2(k: nat): (p: nat)
  {
    if k == 0 then 1 else 2 * Pow2(k - 1)
  }

  /** How many elements satisfy `f`. */
  function Count<T(!new)>(s: seq<T>, f: T -> bool): (n: nat)
  {
    if s == [] then 0 else Count(s[..|s| - 1], f) + (if f(s[|s| - 1]) then 1 else 0)
  }

  lemma {:induction false} CountCons<T(!new)>(x: T, s: seq<T>, f: T -> bool)
    ensures Count([x] + s, f) == (if f(x) then 1 else 0) + Count(s, f)
    decreases |s|
  {
    var all := [x] + s;
    if s == [] {
      assert all[..0] == [] && all[0] == x;
    } else {
      assert all[..|all| - 1] == [x] + s[..|s| - 1];
      CountCons(x, s[..|s| - 1], f);
    }
  }

  /** The value of an unsigned 64-bit result reinterpreted as `ssize_t`. */
  function AsSigned(x: int): int
  {
    var u := x % SIZE_MODULUS;
    if u < SIZE_MODULUS / 2 then u else u - SIZE_MODULUS
  }

  // ----- modular arithmetic

  lemma MulMonotone(a: nat, b: nat, k: nat)
    requires a <= b
    ensures a * k <= b * k
  {
  }

  /** The remainder is determined by any decomposition into whole turns and a rest. */
  lemma ModUnique(a: int, r: int, q: int, n: nat)
    requires 0 <= r < n && a == q * n + r
    ensures a % n == r
  {
    var d := a / n - q;
    assert d * n == r - a % n;
    if d > 0 { MulMonotone(1, d, n); }
    if d < 0 { assert (-d) * n == -(d * n); MulMonotone(1, -d, n); }
  }

  lemma ModAdd(a: int, b: int, n: nat)
    requires n > 0
    ensures (a % n + b) % n == (a + b) % n
  {
    var q := (a % n + b) / n;
    assert a == a / n * n + a % n;
    assert (a / n + q) * n == a / n * n + q * n;
    ModUnique(a + b, (a % n + b) % n, a / n + q, n);
  }

  lemma ModSubtract(a: int, b: int, n: nat)
    requires n > 0
    ensures (a - b % n) % n == (a - b) % n
  {
    var q := (a - b % n) / n;
    assert b == b / n * n + b % n;
    assert (q - b / n) * n == q * n - b / n * n;
    ModUnique(a - b, (a - b % n) % n, q - b / n, n);
  }

  lemma ModShift(a: int, b: int, d: int, n: nat)
    requires n > 0 && a % n == b % n
    ensures (a + d) % n == (b + d) % n
  {
    ModAdd(a, d, n);
    ModAdd(b, d, n);
  }
}
