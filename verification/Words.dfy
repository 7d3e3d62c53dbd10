/** Machine words as numbers: powers of two, shifts, single bits, and the signed reading of a word. */
module Words {

  function Pow2(n: nat): (p: nat)
    ensures p > 0
  {
    if n == 0 then 1 else 2 * Pow2(n - 1)
  }

  const TWO32: nat := 0x1_0000_0000
  const TWO63: nat := 0x8000_0000_0000_0000
  const TWO64: nat := 0x1_0000_0000_0000_0000
  const LLONG_MAX: int := 0x7FFF_FFFF_FFFF_FFFF
  const LLONG_MIN: int := -0x8000_0000_0000_0000
  const ULLONG_MAX: int := 0xFFFF_FFFF_FFFF_FFFF

  /** A word of the 32-bit target. */
  type u32 = x: int | 0 <= x < 0x1_0000_0000
  /** unsigned long long */
  type u64 = x: int | 0 <= x < 0x1_0000_0000_0000_0000
  /** long long */
  type i64 = x: int | -0x8000_0000_0000_0000 <= x < 0x8000_0000_0000_0000

  // x << k, x >> k and (x >> k) & 1 on 64-bit words.
  function Shl(x: u64, k: nat): u64 {
    x * Pow2(k) % TWO64
  }

  function Shr(x: nat, k: nat): (r: nat)
    ensures r <= x
  {
    if k == 0 then x else Shr(x, k - 1) / 2
  }

  function Bit(x: nat, k: nat): nat {
    Shr(x, k) % 2
  }

  // x | (1 << k)
  function SetBit(x: nat, k: nat): nat {
    if Bit(x, k) == 1 then x else x + Pow2(k)
  }

  // The conversions between the two readings of a word, and negation, all modulo 2^64.
  function ToUnsigned(a: i64): u64 {
    if a < 0 then a + TWO64 else a
  }

  function ToSigned(x: u64): i64 {
    if x < TWO63 then x else x - TWO64
  }

  function NegateUnsigned(x: u64): u64 {
    (TWO64 - x) % TWO64
  }

  function NegateSigned(a: i64): i64 {
    if a == LLONG_MIN then a else -a
  }

  function Abs(a: int): nat {
    if a < 0 then -a else a
  }

  lemma MulAssoc(a: int, b: int, c: int)
    ensures a * (b * c) == (a * b) * c
  {
  }

  lemma {:induction false} Pow2Add(a: nat, b: nat)
    ensures Pow2(a + b) == Pow2(a) * Pow2(b)
  {
    if a > 0 {
      Pow2Add(a - 1, b);
      MulAssoc(2, Pow2(a - 1), Pow2(b));
    }
  }

  lemma {:induction false} Pow2Mono(a: nat, b: nat)
    requires a <= b
    ensures Pow2(a) <= Pow2(b)
  {
    if a < b {
      Pow2Mono(a, b - 1);
    }
  }

  lemma Pow2Small()
    ensures Pow2(0) == 1 && Pow2(1) == 2 && Pow2(2) == 4 && Pow2(4) == 16
  {
  }

  lemma Pow2Values()
    ensures Pow2(0) == 1 && Pow2(1) == 2 && Pow2(2) == 4 && Pow2(4) == 16 && Pow2(8) == 0x100
    ensures Pow2(16) == 0x1_0000 && Pow2(32) == TWO32 && Pow2(63) == TWO63 && Pow2(64) == TWO64
  {
    hide Pow2;
    Pow2Small();
    Pow2Add(4, 4);
    Pow2Add(8, 8);
    Pow2Add(16, 16);
    Pow2Add(32, 32);
    Pow2Add(1, 63);
  }

  lemma Pow2Next(k: nat)
    ensures Pow2(k + 1) == 2 * Pow2(k)
  {
  }

  lemma ShrNext(x: nat, k: nat)
    ensures Shr(x, k + 1) == Shr(x, k) / 2
  {
  }

  lemma MulMono(a: nat, b: nat, k: nat)
    requires a <= b
    ensures a * k <= b * k
  {
  }

  lemma MulLess(a: nat, b: nat, k: nat)
    ensures k > 0 ==> (a * k < b * k <==> a < b)
  {
    if k > 0 && a < b {
      MulMono(a + 1, b, k);
    } else if b <= a {
      MulMono(b, a, k);
    }
  }

  /** Division with remainder has one answer. */
  lemma DivUnique(n: nat, d: nat, q: nat, r: nat)
    requires n == q * d + r && r < d
    ensures n / d == q && n % d == r
  {
    var p := n / d;
    assert n == d * p + n % d;
    MulLess(p, q + 1, d);
    MulLess(q, p + 1, d);
    MulNext(p, d);
    MulNext(q, d);
  }

  lemma Halved(x: nat, y: nat, p: nat)
    requires y * p <= x < y * p + p
    ensures y / 2 * (2 * p) <= x < y / 2 * (2 * p) + 2 * p
  {
    var q := y / 2;
    MulAssoc(q, 2, p);
    if y == 2 * q {
      assert y * p == 2 * q * p;
    } else {
      assert y == 2 * q + 1;
      MulNext(2 * q, p);
    }
  }

  lemma MulNext(a: int, k: int)
    ensures (a + 1) * k == a * k + k
  {
  }

  /** Shifting right divides by the power of two. */
  lemma {:induction false} ShrIs(x: nat, k: nat)
    ensures Shr(x, k) * Pow2(k) <= x < Shr(x, k) * Pow2(k) + Pow2(k)
  {
    if k > 0 {
      ShrIs(x, k - 1);
      Halved(x, Shr(x, k - 1), Pow2(k - 1));
    }
  }

  // x & ((1 << k) - 1)
  function LowBits(x: nat, k: nat): (r: nat)
    ensures x == Shr(x, k) * Pow2(k) + r && r < Pow2(k)
  {
    ShrIs(x, k);
    x - Shr(x, k) * Pow2(k)
  }

  lemma MulPlus(a: int, b: int, k: int)
    ensures (a + b) * k == a * k + b * k
  {
  }

  lemma ShrUnique(x: nat, k: nat, q: nat)
    requires q * Pow2(k) <= x < q * Pow2(k) + Pow2(k)
    ensures Shr(x, k) == q
  {
    ShrIs(x, k);
    var p, y := Pow2(k), Shr(x, k);
    MulLess(y, q + 1, p);
    MulLess(q, y + 1, p);
    MulNext(q, p);
    MulNext(y, p);
  }
}
