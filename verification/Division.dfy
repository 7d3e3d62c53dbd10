/** 64-bit division one bit at a time, and division of a word by ten with shifts only. */
module Division {
  import opened Words

  /** The state of the bit-serial loop with `k` bits of `n` still to come. */
  ghost predicate Serial(n: nat, d: nat, k: nat, quotient: nat, remainder: nat) {
    && remainder < d && remainder <= Shr(n, k)
    && Shr(n, k) == Shr(quotient, k) * d + remainder
    && quotient == Shr(quotient, k) * Pow2(k)
  }

  lemma SerialStart(n: u64, d: nat)
    requires d > 0
    ensures Serial(n, d, 64, 0, 0)
  {
    Pow2Values();
    ShrUnique(n, 64, 0);
    ShrUnique(0, 64, 0);
  }

  /** With a bit still to come the remainder has room for it: it is below 2^63, however large d is. */
  lemma RemainderFits(n: u64, d: nat, k: nat, quotient: nat, remainder: nat)
    requires Serial(n, d, k + 1, quotient, remainder)
    ensures 2 * remainder + 1 < TWO64
    ensures Shl(remainder, 1) + Bit(n, k) == 2 * remainder + Bit(n, k)
  {
    assert Pow2(1) == 2;
    Shrinks(n, k + 1);
  }

  lemma {:induction false} Shrinks(n: nat, k: nat)
    requires k >= 1
    ensures Shr(n, k) <= n / 2
  {
    if k == 1 {
      assert Pow2(1) == 2;
    } else {
      Shrinks(n, k - 1);
    }
  }

  lemma SerialStep(n: u64, d: nat, k: nat, quotient: nat, remainder: nat)
    requires d > 0 && Serial(n, d, k + 1, quotient, remainder)
    ensures var r := 2 * remainder + Bit(n, k);
      if r >= d then Serial(n, d, k, SetBit(quotient, k), r - d) else Serial(n, d, k, quotient, r)
  {
    var q, p := Shr(quotient, k + 1), Pow2(k);
    var r := 2 * remainder + Bit(n, k);
    MulAssoc(q, 2, p);
    ShrUnique(quotient, k, 2 * q);
    assert Shr(n, k) == 2 * (q * d) + r == (2 * q) * d + r;
    if r >= d {
      assert (2 * q + 1) * p == (2 * q) * p + p;
      ShrUnique(quotient + p, k, 2 * q + 1);
      assert (2 * q + 1) * d == (2 * q) * d + d;
      SetBitIs(quotient, k, 2 * q);
    }
  }

  lemma SetBitIs(quotient: nat, k: nat, q: nat)
    requires Shr(quotient, k) == q && q % 2 == 0
    ensures SetBit(quotient, k) == quotient + Pow2(k)
  {
  }

  lemma SerialEnd(n: u64, d: nat, quotient: nat, remainder: nat)
    requires d > 0 && Serial(n, d, 0, quotient, remainder)
    ensures n == quotient * d + remainder && remainder < d && quotient <= n
    ensures quotient == n / d && remainder == n % d
  {
    assert Pow2(0) == 1 && Shr(n, 0) == n && Shr(quotient, 0) == quotient;
    DivUnique(n, d, quotient, remainder);
    MulMono(1, d, quotient);
  }

  /** __udivdi3 */
  method UDivDi3(n: u64, d: u64) returns (quotient: u64)
    ensures d == 0 ==> quotient == 0
    ensures d > 0 ==> quotient * d <= n < quotient * d + d
  {
    var q, remainder: u64 := 0, 0;
    if d == 0 {
      return 0;
    }
    SerialStart(n, d);
    for i := 64 downto 0
      invariant Serial(n, d, i, q, remainder)
    {
      RemainderFits(n, d, i, q, remainder);
      SerialStep(n, d, i, q, remainder);
      remainder := Shl(remainder, 1) + Bit(n, i);
      if remainder >= d {
        remainder := remainder - d;
        q := SetBit(q, i);
      }
    }
    SerialEnd(n, d, q, remainder);
    quotient := q;
  }

  /** __umoddi3: the same loop without a quotient. */
  method UModDi3(n: u64, d: u64) returns (remainder: u64)
    ensures d == 0 ==> remainder == 0
    ensures d > 0 ==> remainder < d && remainder <= n && (n - remainder) % d == 0
  {
    remainder := 0;
    if d == 0 {
      return 0;
    }
    ghost var q := 0;
    SerialStart(n, d);
    for i := 64 downto 0
      invariant Serial(n, d, i, q, remainder)
    {
      RemainderFits(n, d, i, q, remainder);
      SerialStep(n, d, i, q, remainder);
      remainder := Shl(remainder, 1) + Bit(n, i);
      if remainder >= d {
        remainder := remainder - d;
        q := SetBit(q, i);
      }
    }
    SerialEnd(n, d, q, remainder);
    DivUnique(n - remainder, d, q, 0);
  }

  /** Division toward zero: the remainder is smaller than the divisor and has the sign of the dividend. */
  ghost predicate Truncates(n: int, d: int, q: int, r: int) {
    n == q * d + r && Abs(r) < Abs(d) && (r == 0 || (r < 0 <==> n < 0))
  }

  lemma MulAbs(k: int, d: int)
    ensures Abs(k * d) == Abs(k) * Abs(d)
    ensures k != 0 ==> Abs(k * d) >= Abs(d)
  {
    if k != 0 {
      MulMono(1, Abs(k), Abs(d));
    }
  }

  /** Such a quotient and remainder are unique. */
  lemma TruncatesOnce(n: int, d: int, q: int, r: int, q': int, r': int)
    requires Truncates(n, d, q, r) && Truncates(n, d, q', r')
    ensures q == q' && r == r'
  {
    MulAbs(q - q', d);
    assert (q - q') * d == q * d - q' * d;
    assert Abs((q - q') * d) == Abs(r' - r) < Abs(d);
  }

  lemma UnsignedReading(a: i64)
    ensures (if a < 0 then NegateUnsigned(ToUnsigned(a)) else ToUnsigned(a)) == Abs(a)
  {
  }

  function Signed(negative: bool, x: nat): int {
    var y: int := x;
    if negative then -y else y
  }

  lemma SignsBack(x: u64, negative: bool)
    requires x < TWO63 || (negative && x == TWO63)
    ensures (if negative then NegateSigned(ToSigned(x)) else ToSigned(x)) == Signed(negative, x)
  {
  }

  /** Signs put back on the quotient and remainder of the absolute values. */
  lemma Resigned(n: int, d: int, q: nat, r: nat)
    requires d != 0 && Abs(n) == q * Abs(d) + r && r < Abs(d)
    ensures Truncates(n, d, Signed((n < 0) != (d < 0), q), Signed(n < 0, r))
  {
    var y: int := q;
    assert -y * d == -(y * d);
    assert d < 0 ==> q * Abs(d) == -(q * d);
  }

  lemma QuotientFits(n: i64, d: i64, q: nat)
    requires d != 0 && !(n == LLONG_MIN && d == -1) && q * Abs(d) <= Abs(n)
    ensures q < TWO63 || ((n < 0) != (d < 0) && q == TWO63)
  {
    MulMono(1, Abs(d), q);
    if Abs(d) >= 2 {
      MulMono(2, Abs(d), q);
    }
  }

  /** __divdi3 */
  method DivDi3(n: i64, d: i64) returns (result: i64)
    ensures d == 0 ==> result == 0
    ensures n == LLONG_MIN && d == -1 ==> result == LLONG_MIN
    ensures d != 0 && !(n == LLONG_MIN && d == -1) ==> exists r :: Truncates(n, d, result, r)
  {
    if d == 0 {
      return 0;
    }
    if n == LLONG_MIN && d == -1 {
      return LLONG_MIN;
    }
    var negative := (n < 0) != (d < 0);
    var un := if n < 0 then NegateUnsigned(ToUnsigned(n)) else ToUnsigned(n);
    var ud := if d < 0 then NegateUnsigned(ToUnsigned(d)) else ToUnsigned(d);
    UnsignedReading(n);
    UnsignedReading(d);
    var quotient, remainder: u64 := 0, 0;
    SerialStart(un, ud);
    for i := 64 downto 0
      invariant Serial(un, ud, i, quotient, remainder)
    {
      RemainderFits(un, ud, i, quotient, remainder);
      SerialStep(un, ud, i, quotient, remainder);
      remainder := Shl(remainder, 1) + Bit(un, i);
      if remainder >= ud {
        remainder := remainder - ud;
        quotient := SetBit(quotient, i);
      }
    }
    SerialEnd(un, ud, quotient, remainder);
    Resigned(n, d, quotient, remainder);
    QuotientFits(n, d, quotient);
    SignsBack(quotient, negative);
    result := if negative then NegateSigned(ToSigned(quotient)) else ToSigned(quotient);
  }

  /** __moddi3 */
  method ModDi3(n: i64, d: i64) returns (result: i64)
    ensures d == 0 || (n == LLONG_MIN && d == -1) ==> result == 0
    ensures d != 0 ==> exists q :: Truncates(n, d, q, result)
  {
    if d == 0 {
      return 0;
    }
    if n == LLONG_MIN && d == -1 {
      Resigned(n, d, TWO63, 0);
      return 0;
    }
    var un := if n < 0 then NegateUnsigned(ToUnsigned(n)) else ToUnsigned(n);
    var ud := if d < 0 then NegateUnsigned(ToUnsigned(d)) else ToUnsigned(d);
    UnsignedReading(n);
    UnsignedReading(d);
    var remainder: u64 := 0;
    ghost var quotient := 0;
    SerialStart(un, ud);
    for i := 64 downto 0
      invariant Serial(un, ud, i, quotient, remainder)
    {
      RemainderFits(un, ud, i, quotient, remainder);
      SerialStep(un, ud, i, quotient, remainder);
      remainder := Shl(remainder, 1) + Bit(un, i);
      if remainder >= ud {
        remainder := remainder - ud;
        quotient := SetBit(quotient, i);
      }
    }
    SerialEnd(un, ud, quotient, remainder);
    Resigned(n, d, quotient, remainder);
    SignsBack(remainder, n < 0);
    result := if n < 0 then NegateSigned(ToSigned(remainder)) else ToSigned(remainder);
  }

  /** The signed quotient and remainder belong together: they multiply back to n. */
  lemma Consistent(n: int, d: int, q: int, r: int)
    requires (exists r' :: Truncates(n, d, q, r')) && (exists q' :: Truncates(n, d, q', r))
    ensures n == q * d + r
  {
    var r' :| Truncates(n, d, q, r');
    var q' :| Truncates(n, d, q', r);
    TruncatesOnce(n, d, q, r', q', r);
  }

  /** divmod10: the returned digit, and the quotient left behind; no sum on the way is too large for a word. */
  method DivMod10(val: u32) returns (q: u32, r: u32)
    ensures val == 10 * q + r && r < 10
  {
    q := val / 2 + val / 4;
    q := q + q / 16;
    q := q + q / 256;
    q := q + q / 65536;
    q := q / 8;
    assert 10 * q <= val < 10 * q + 20;
    var fivefold: u32 := 4 * q + q;
    var tenfold: u32 := fivefold * 2;
    r := val - tenfold;
    if r > 9 {
      q := q + 1;
      r := r - 10;
    }
  }
}
