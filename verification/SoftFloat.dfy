/** Conversions between 64-bit integers and doubles, on the bits of the double.

    A double is a 64-bit word: sign, 11 exponent bits, 52 fraction bits (binary64 of IEEE 754-2008).
    Its magnitude is counted in units of 2^-1074, the smallest positive double, so that every
    finite magnitude is a whole number; the integer a is a * 2^1074 units. */
module SoftFloat {
  import opened Words

  const FRACTION: nat := 0x10_0000_0000_0000

  datatype Double = Double(negative: bool, exponent: nat, fraction: nat) {
    predicate Valid() {
      exponent < 2048 && fraction < FRACTION
    }

    predicate Finite() {
      Valid() && exponent < 2047
    }

    predicate Nan() {
      exponent == 2047 && fraction != 0
    }

    predicate Even() {
      fraction % 2 == 0
    }

    /** |x| in units of 2^-1074. */
    function Mag(): nat {
      if exponent == 0 then fraction else (FRACTION + fraction) * Pow2(exponent - 1)
    }

    function Val(): int {
      var m: int := Mag();
      if negative then -m else m
    }
  }

  const LEAST: nat := 1074

  function Unit(): (u: nat)
    ensures u > 0
  {
    Pow2(LEAST)
  }

  // The word of a double, and back.
  function Pack(negative: bool, exponent: nat, fraction: nat): u64
    requires exponent < 2048 && fraction < FRACTION
  {
    (if negative then TWO63 else 0) + exponent * FRACTION + fraction
  }

  function Unpack(bits: u64): Double {
    Double(bits >= TWO63, bits / FRACTION % 2048, bits % FRACTION)
  }

  lemma PackUnpack(negative: bool, exponent: nat, fraction: nat)
    requires exponent < 2048 && fraction < FRACTION
    ensures Unpack(Pack(negative, exponent, fraction)) == Double(negative, exponent, fraction)
  {
    var bits := Pack(negative, exponent, fraction);
    DivUnique(bits, FRACTION, exponent + if negative then 2048 else 0, fraction);
  }

  // How far the integer a is from the double y, in the same units.
  function Distance(a: int, y: Double): nat {
    Abs(a * Unit() - y.Val())
  }

  /** roundTiesToEven: x is finite, no finite double is nearer to a, and where another one is as near
      the fraction of x is even (section 4.3.1 of IEEE 754-2008). */
  ghost predicate Nearest(a: int, x: Double) {
    && x.Finite()
    && (forall y: Double {:trigger Distance(a, y)} | y.Finite() :: Distance(a, x) <= Distance(a, y))
    && (forall y: Double {:trigger Distance(a, y)} | y.Finite() && Distance(a, y) == Distance(a, x)
        && y.Val() != x.Val() :: x.Even())
  }

  // ---- the finite doubles around a number of the binade of exponent e

  /** No double lies strictly between neighbouring multiples of the unit of its binade. */
  lemma Gap(y: Double, s: nat, lo: nat)
    requires y.Finite() && FRACTION <= lo
    ensures y.Mag() <= lo * Pow2(s) || y.Mag() >= lo * Pow2(s) + Pow2(s)
  {
    if y.exponent == 0 {
      MulMono(FRACTION, lo, Pow2(s));
      MulMono(1, Pow2(s), FRACTION);
    } else if y.exponent - 1 < s {
      GapBelow(y, s, lo);
    } else {
      GapAbove(y, s, lo);
    }
  }

  lemma GapBelow(y: Double, s: nat, lo: nat)
    requires y.Finite() && FRACTION <= lo && 1 <= y.exponent && y.exponent - 1 < s
    ensures y.Mag() <= lo * Pow2(s)
  {
    var e, sig := y.exponent - 1, FRACTION + y.fraction;
    Pow2Mono(e, s - 1);
    MulMono(Pow2(e), Pow2(s - 1), sig);
    MulMono(sig, 2 * FRACTION, Pow2(s - 1));
    MulMono(FRACTION, lo, Pow2(s));
    assert 2 * FRACTION * Pow2(s - 1) == FRACTION * Pow2(s);
  }

  lemma GapAbove(y: Double, s: nat, lo: nat)
    requires y.Finite() && 1 <= y.exponent && s <= y.exponent - 1
    ensures y.Mag() <= lo * Pow2(s) || y.Mag() >= lo * Pow2(s) + Pow2(s)
  {
    var e, sig := y.exponent - 1, FRACTION + y.fraction;
    Pow2Add(e - s, s);
    var n := sig * Pow2(e - s);
    MulAssoc(sig, Pow2(e - s), Pow2(s));
    MulNext(lo, Pow2(s));
    if n <= lo {
      MulMono(n, lo, Pow2(s));
    } else {
      MulMono(lo + 1, n, Pow2(s));
    }
  }

  // ---- which of the two neighbours is the nearest

  /** `a` lies `r` above a double of magnitude `l`, and the next double is `p` above that one. */
  lemma NearestOf(a: nat, x: Double, l: nat, r: nat, p: nat)
    requires a * Unit() == l + r && r < p && l > 0
    requires forall y: Double {:trigger y.Mag()} | y.Finite() :: y.Mag() <= l || y.Mag() >= l + p
    requires x.Finite() && !x.negative
    requires (x.Mag() == l && (2 * r < p || (2 * r == p && x.Even())))
          || (x.Mag() == l + p && (2 * r > p || (2 * r == p && x.Even())))
    ensures Nearest(a, x)
  {
    hide Double.Mag, Unit;
    forall y: Double | y.Finite()
      ensures Distance(a, x) <= Distance(a, y)
      ensures Distance(a, y) == Distance(a, x) && y.Val() != x.Val() ==> x.Even()
    {
      assert y.Mag() <= l || y.Mag() >= l + p;
    }
  }

  /** A double equal to the integer is its nearest. */
  lemma NearestExact(a: int, x: Double)
    requires x.Finite() && x.Val() == a * Unit()
    ensures Nearest(a, x)
  {
    hide Double.Mag, Unit;
    assert Distance(a, x) == 0;
  }

  /** Rounding is symmetric. */
  lemma Mirror(a: int, e: nat, f: nat)
    requires Nearest(a, Double(false, e, f))
    ensures Nearest(-a, Double(true, e, f))
  {
    hide Double.Mag, Unit;
    var x, x' := Double(false, e, f), Double(true, e, f);
    assert x'.Mag() == x.Mag() by { SameMag(x, x'); }
    forall y: Double | y.Finite()
      ensures Distance(-a, x') <= Distance(-a, y)
      ensures Distance(-a, y) == Distance(-a, x') && y.Val() != x'.Val() ==> x'.Even()
    {
      var z := y.(negative := !y.negative);
      SameMag(y, z);
      assert -a * Unit() == -(a * Unit());
      assert Distance(-a, y) == Distance(a, z);
    }
  }

  lemma SameMag(x: Double, y: Double)
    requires x.exponent == y.exponent && x.fraction == y.fraction
    ensures x.Mag() == y.Mag()
  {
  }

  // ---- clz64

  /** Leading zeros by binary search: each step shifts out a run of zeros if there is one. */
  method Clz64(x0: u64) returns (n: nat)
    ensures x0 == 0 ==> n == 64
    ensures x0 > 0 ==> n < 64 && TWO63 <= x0 * Pow2(n) < TWO64
  {
    hide Pow2, Shifted;
    if x0 == 0 {
      return 64;
    }
    Pow2Values();
    ClzStart(x0);
    var x := x0;
    n, x := ShiftOut(x0, 0, x, 32, 0x1_0000_0000);
    n, x := ShiftOut(x0, n, x, 16, 0x1_0000);
    n, x := ShiftOut(x0, n, x, 8, 0x100);
    n, x := ShiftOut(x0, n, x, 4, 0x10);
    n, x := ShiftOut(x0, n, x, 2, 4);
    n, x := ShiftOut(x0, n, x, 1, 2);
    ClzEnd(x0, n, x);
  }

  /** Shifts `k` bits out if the top `k` bits are zero. */
  method ShiftOut(ghost x0: u64, n: nat, x: u64, k: nat, m: nat) returns (n': nat, x': u64)
    requires Shifted(x0, n, x) && Pow2(k) == m && m > 1 && TWO64 % m == 0
    ensures Shifted(x0, n', x')
    ensures if x < TWO64 / m then x' == x * m else x' == x
  {
    n', x' := n, x;
    if x < TWO64 / m {
      ClzShift(x0, n, x, k, m);
      n', x' := n + k, Shl(x, k);
    }
  }

  lemma ClzShift(x0: u64, n: nat, x: u64, k: nat, m: nat)
    requires Shifted(x0, n, x) && Pow2(k) == m && x * m < TWO64
    ensures Shl(x, k) == x * m && Shifted(x0, n + k, x * m)
  {
    hide Pow2;
    Pow2Add(n, k);
    MulAssoc(x0, Pow2(n), Pow2(k));
  }

  ghost predicate Shifted(x0: nat, n: nat, x: nat) {
    x == x0 * Pow2(n)
  }

  lemma ClzStart(x0: nat)
    ensures Shifted(x0, 0, x0)
  {
  }

  lemma ClzEnd(x0: nat, n: nat, x: nat)
    requires Shifted(x0, n, x) && x0 > 0 && TWO63 <= x < TWO64
    ensures n < 64 && TWO63 <= x0 * Pow2(n) < TWO64
  {
    Pow2Values();
    MulMono(1, x0, Pow2(n));
    if n >= 64 {
      Pow2Mono(64, n);
    }
  }

  // ---- integer to double

  /** The pieces `a` is cut into for rounding: the kept bits, the guard bit, and the bits behind it. */
  lemma Cut(a: nat, s: nat)
    requires s > 0
    ensures Pow2(s) == 2 * Pow2(s - 1) && LowBits(a, s - 1) < Pow2(s - 1)
    ensures a == Shr(a, s) * Pow2(s) + (Bit(a, s - 1) * Pow2(s - 1) + LowBits(a, s - 1))
  {
    hide Pow2, Shr, LowBits;
    Pow2Next(s - 1);
    ShrNext(a, s - 1);
    SplitOff(Shr(a, s - 1), Pow2(s - 1));
  }

  lemma SplitOff(y: nat, half: nat)
    ensures y * half == y / 2 * (2 * half) + y % 2 * half
  {
    MulAssoc(y / 2, 2, half);
    MulPlus(2 * (y / 2), y % 2, half);
  }

  lemma Pow2Eleven()
    ensures Pow2(11) == 2048
  {
  }

  lemma KeptBetween(a: nat, kept: nat, p: nat, q: nat)
    requires p * q == 2048 && kept * p <= a < kept * p + p && TWO63 <= a * q < TWO64
    ensures FRACTION <= kept < 2 * FRACTION
  {
    MulMono(kept * p, a, q);
    MulAssoc(kept, p, q);
    MulNext(kept, p);
    MulLess(a, (kept + 1) * p, q);
    MulAssoc(kept + 1, p, q);
  }

  /** How many bits are kept. */
  lemma KeptRange(a: nat, shift: nat)
    requires shift <= 10 && TWO63 <= a * Pow2(shift) < TWO64
    ensures FRACTION <= Shr(a, 11 - shift) < 2 * FRACTION
  {
    hide Pow2, Shr;
    var s, kept := 11 - shift, Shr(a, 11 - shift);
    ShrIs(a, s);
    Pow2Add(s, shift);
    Pow2Eleven();
    KeptBetween(a, kept, Pow2(s), Pow2(shift));
  }

  /** a == kept * 2^s + low, in units. */
  lemma InUnits(a: nat, s: nat, kept: nat, low: nat)
    requires a == kept * Pow2(s) + low
    ensures a * Unit() == kept * Pow2(s + LEAST) + low * Unit()
  {
    Pow2Add(s, LEAST);
    hide Pow2;
    MulAssoc(kept, Pow2(s), Unit());
    MulPlus(kept * Pow2(s), low, Unit());
  }

  /** Comparing what is cut off with half a step, in units. */
  lemma Halfway(low: nat, half: nat, u: nat)
    requires u > 0
    ensures low < 2 * half ==> low * u < 2 * half * u
    ensures 2 * (low * u) < 2 * half * u <==> low < half
    ensures 2 * (low * u) == 2 * half * u <==> low == half
  {
    MulLess(low, 2 * half, u);
    MulAssoc(2, low, u);
    MulLess(2 * low, 2 * half, u);
    MulLess(2 * half, 2 * low, u);
  }

  lemma Guarded(guard: nat, half: nat, below: nat)
    requires guard < 2 && below < half
    ensures var low := guard * half + below;
      low < 2 * half && (low < half <==> guard == 0) && (low == half <==> guard == 1 && below == 0)
  {
    if guard == 0 {
      assert guard * half == 0;
    } else {
      assert guard * half == half;
    }
  }

  // The kept bits, one more when the code rounds up.
  function RoundedUp(a: nat, s: nat): nat
    requires s > 0
  {
    if Bit(a, s - 1) == 1 && (LowBits(a, s - 1) != 0 || Bit(a, s) == 1) then Shr(a, s) + 1 else Shr(a, s)
  }

  /** The same cut in units: the double below, what is above it, the step, and which side is nearer. */
  lemma RoundedParts(a: nat, s: nat) returns (l: nat, r: nat, p: nat)
    requires s > 0 && FRACTION <= Shr(a, s)
    ensures p == Pow2(s + LEAST) && l == Shr(a, s) * p && l > 0 && r < p && a * Unit() == l + r
    ensures RoundedUp(a, s) * p == if RoundedUp(a, s) == Shr(a, s) then l else l + p
    ensures if RoundedUp(a, s) == Shr(a, s) then 2 * r < p || (2 * r == p && Shr(a, s) % 2 == 0)
                                            else 2 * r > p || (2 * r == p && Shr(a, s) % 2 == 1)
  {
    hide LowBits, Pow2, Shr, Unit, RoundedUp;
    var low := CutLow(a, s);
    var half, kept := Pow2(s - 1), Shr(a, s);
    InUnits(a, s, kept, low);
    StepInUnits(s);
    p := Pow2(s + LEAST);
    l, r := kept * p, low * Unit();
    Halfway(low, half, Unit());
    MulNext(kept, p);
    MulMono(FRACTION, kept, p);
  }

  lemma CutLow(a: nat, s: nat) returns (low: nat)
    requires s > 0
    ensures a == Shr(a, s) * Pow2(s) + low && low < 2 * Pow2(s - 1)
    ensures if RoundedUp(a, s) == Shr(a, s) then low < Pow2(s - 1) || (low == Pow2(s - 1) && Shr(a, s) % 2 == 0)
            else RoundedUp(a, s) == Shr(a, s) + 1 && (low > Pow2(s - 1) || (low == Pow2(s - 1) && Shr(a, s) % 2 == 1))
  {
    hide LowBits, Pow2, Shr;
    Cut(a, s);
    low := Bit(a, s - 1) * Pow2(s - 1) + LowBits(a, s - 1);
    Guarded(Bit(a, s - 1), Pow2(s - 1), LowBits(a, s - 1));
  }

  lemma StepInUnits(s: nat)
    requires s > 0
    ensures Pow2(s + LEAST) == 2 * Pow2(s - 1) * Unit()
  {
    Pow2Add(s, LEAST);
    Pow2Next(s - 1);
  }

  /** The rounding decision of the code is the right one. */
  lemma Rounded(a: nat, s: nat, x: Double)
    requires s > 0 && FRACTION <= Shr(a, s) && x.Finite() && !x.negative
    requires x.Mag() == RoundedUp(a, s) * Pow2(s + LEAST)
    requires x.Even() <==> RoundedUp(a, s) % 2 == 0
    ensures Nearest(a, x)
  {
    hide Nearest, LowBits, Double.Mag, Double.Even, Double.Finite, Pow2, Shr, Unit;
    var l, r, p := RoundedParts(a, s);
    forall y: Double | y.Finite() ensures y.Mag() <= l || y.Mag() >= l + p {
      Gap(y, s + LEAST, Shr(a, s));
    }
    NearestOf(a, x, l, r, p);
  }

  /** A significand in range, packed with the implicit bit cleared. */
  lemma Significand(exponent: nat, mantissa: nat)
    requires 1 <= exponent < 2047 && FRACTION <= mantissa < 2 * FRACTION
    ensures var x := Double(false, exponent, mantissa % FRACTION);
      x.Finite() && x.Mag() == mantissa * Pow2(exponent - 1) && (x.Even() <==> mantissa % 2 == 0)
  {
    assert mantissa % FRACTION == mantissa - FRACTION;
  }

  /** The carry out of the significand, and what it weighs. */
  lemma Carry(mantissa: nat, e: nat)
    requires mantissa <= 2 * FRACTION
    ensures Bit(mantissa, 53) == 1 <==> mantissa == 2 * FRACTION
    ensures FRACTION * Pow2(e + 1) == 2 * FRACTION * Pow2(e)
  {
    Pow2Values();
    Pow2Add(32, 21);
    Pow2Add(16, 5);
    assert Pow2(53) == 2 * FRACTION;
    ShrUnique(mantissa, 53, if mantissa < 2 * FRACTION then 0 else 1);
    MulAssoc(FRACTION, 2, Pow2(e));
  }

  /** An integer that fits the significand is shifted into place without loss. */
  lemma Placed(a: nat, shift: nat)
    requires 11 <= shift < 64 && TWO63 <= a * Pow2(shift) < TWO64
    ensures Shl(a, shift - 11) == a * Pow2(shift - 11)
    ensures FRACTION <= a * Pow2(shift - 11) < 2 * FRACTION
    ensures a * Pow2(shift - 11) * Pow2(1085 - shift) == a * Unit()
  {
    hide Pow2;
    var k := shift - 11;
    Pow2Eleven();
    Pow2Add(k, 11);
    Pow2Add(k, 1085 - shift);
    assert LEAST == k + (1085 - shift);
    assert Unit() == Pow2(LEAST);
    MulAssoc(a, Pow2(k), 2048);
    MulAssoc(a, Pow2(k), Pow2(1085 - shift));
  }

  /** The part __floatdidf and __floatundidf share: exponent and fraction of the double nearest to a. */
  method Round(a: u64) returns (exponent: nat, fraction: nat)
    requires a > 0
    ensures Nearest(a, Double(false, exponent, fraction)) && exponent < 2047 && fraction < FRACTION
  {
    hide Nearest, Pow2, Shr, Unit, Bit, LowBits, Shl, Double.Mag, Double.Even;
    var shift: int := Clz64(a);
    exponent := 1023 + (63 - shift);
    var diff := 63 - shift - 52;
    var mantissa: nat;
    if diff > 0 {
      KeptRange(a, shift);
      var guard := Bit(a, diff - 1);
      var sticky := LowBits(a, diff - 1) != 0;
      var lsb := Bit(a, diff);
      mantissa := Shr(a, diff);
      if guard == 1 && (sticky || lsb == 1) {
        mantissa := mantissa + 1;
        Carry(mantissa, diff + LEAST);
        if Bit(mantissa, 53) == 1 {
          mantissa := mantissa / 2;
          exponent := exponent + 1;
        }
      }
      Significand(exponent, mantissa);
      fraction := mantissa % FRACTION;
      Rounded(a, diff, Double(false, exponent, fraction));
    } else {
      Placed(a, shift);
      mantissa := Shl(a, -diff);
      Significand(exponent, mantissa);
      fraction := mantissa % FRACTION;
      NearestExact(a, Double(false, exponent, fraction));
    }
  }

  /** __floatdidf */
  method FloatDiDf(a: i64) returns (bits: u64)
    ensures Nearest(a, Unpack(bits)) && if a == 0 then bits == 0 else Unpack(bits).negative <==> a < 0
  {
    hide Nearest, Unpack, Pack, Unit;
    if a == 0 {
      ZeroIsExact();
      return 0;
    }
    var ua := if a < 0 then NegateUnsigned(ToUnsigned(a)) else ToUnsigned(a);
    assert ua == Abs(a);
    var exponent, fraction := Round(ua);
    bits := Pack(a < 0, exponent, fraction);
    PackUnpack(a < 0, exponent, fraction);
    if a < 0 {
      Mirror(ua, exponent, fraction);
    }
  }

  /** __floatundidf */
  method FloatUnDiDf(a: u64) returns (bits: u64)
    ensures Nearest(a, Unpack(bits)) && if a == 0 then bits == 0 else !Unpack(bits).negative
  {
    hide Nearest, Unpack, Pack, Unit;
    if a == 0 {
      ZeroIsExact();
      return 0;
    }
    var exponent, fraction := Round(a);
    bits := Pack(false, exponent, fraction);
    PackUnpack(false, exponent, fraction);
  }

  lemma ZeroIsExact()
    ensures Nearest(0, Unpack(0))
  {
    hide Nearest;
    NearestExact(0, Unpack(0));
  }

  // ---- double to integer

  /** q is the value of d with its fractional part dropped. */
  ghost predicate Truncation(d: Double, q: int) {
    && Abs(q) * Unit() <= d.Mag() < Abs(q) * Unit() + Unit()
    && (q < 0 ==> d.negative) && (q > 0 ==> !d.negative)
  }

  /** What a conversion to integers from lo to hi gives: 0 for a NaN, the nearer bound outside the
      range, the truncated value inside it. */
  ghost predicate Fixes(d: Double, lo: int, hi: int, r: int) {
    if d.Nan() then r == 0
    else if d.exponent == 2047 then r == if d.negative then lo else hi
    else if d.Val() >= (hi + 1) * Unit() then r == hi
    else if d.Val() <= (lo - 1) * Unit() then r == lo
    else Truncation(d, r)
  }

  lemma Pow2FiftyThree()
    ensures Pow2(52) == FRACTION && Pow2(53) == 2 * FRACTION
  {
    hide Pow2;
    Pow2Values();
    Pow2Add(32, 16);
    Pow2Add(48, 4);
    Pow2Next(52);
  }

  lemma BelowOne(d: Double)
    requires d.Valid() && d.exponent < 1023
    ensures d.Mag() < Unit()
  {
    hide Pow2;
    Pow2FiftyThree();
    if d.exponent == 0 {
      Pow2Mono(52, LEAST);
    } else {
      var e := d.exponent - 1;
      MulLess(FRACTION + d.fraction, 2 * FRACTION, Pow2(e));
      Pow2Add(53, e);
      Pow2Mono(53 + e, LEAST);
    }
  }

  lemma AtLeast(d: Double, k: nat)
    requires d.Valid() && d.exponent >= 1023 + k
    ensures d.Mag() >= Pow2(k) * Unit()
  {
    hide Pow2;
    Pow2FiftyThree();
    var e := d.exponent - 1;
    MulMono(FRACTION, FRACTION + d.fraction, Pow2(e));
    Pow2Add(52, e);
    Pow2Add(k, LEAST);
    Pow2Mono(k + LEAST, 52 + e);
    assert Unit() == Pow2(LEAST);
  }

  /** The significand shifted by the exponent is the integer part of the magnitude. */
  lemma WholePart(d: Double)
    requires d.Valid() && 1023 <= d.exponent < 1023 + 64
    ensures var exponent, sig := d.exponent - 1023, FRACTION + d.fraction;
      var q := if exponent > 52 then Shl(sig, exponent - 52) else Shr(sig, 52 - exponent);
      && q * Unit() <= d.Mag() < q * Unit() + Unit()
      && q < Pow2(exponent + 1)
  {
    hide Pow2, Shr;
    var exponent, sig := d.exponent - 1023, FRACTION + d.fraction;
    if exponent > 52 {
      WholeLeft(d, exponent - 52);
    } else {
      WholeRight(d, 52 - exponent);
    }
  }

  lemma WholeLeft(d: Double, k: nat)
    requires d.Valid() && d.exponent == 1023 + 52 + k && k <= 11
    ensures var sig := FRACTION + d.fraction;
      && Shl(sig, k) == sig * Pow2(k) < Pow2(53 + k)
      && d.Mag() == sig * Pow2(k) * Unit()
  {
    hide Pow2;
    var sig := FRACTION + d.fraction;
    Pow2FiftyThree();
    Pow2Values();
    Pow2Add(53, k);
    Pow2Mono(53 + k, 64);
    MulLess(sig, 2 * FRACTION, Pow2(k));
    Pow2Add(k, LEAST);
    MulAssoc(sig, Pow2(k), Pow2(LEAST));
  }

  lemma WholeRight(d: Double, k: nat)
    requires d.Valid() && d.exponent == 1023 + 52 - k && k <= 52
    ensures var q := Shr(FRACTION + d.fraction, k);
      && q < Pow2(53 - k)
      && q * Unit() <= d.Mag() < q * Unit() + Unit()
  {
    hide Pow2, Shr;
    var sig, q, e := FRACTION + d.fraction, Shr(FRACTION + d.fraction, k), d.exponent - 1;
    ShrIs(sig, k);
    Pow2FiftyThree();
    Pow2Add(53 - k, k);
    MulLess(q, Pow2(53 - k), Pow2(k));
    Pow2Add(k, e);
    assert Unit() == Pow2(k + e);
    MulAssoc(q, Pow2(k), Pow2(e));
    MulMono(q * Pow2(k), sig, Pow2(e));
    MulPlus(q * Pow2(k), Pow2(k), Pow2(e));
    MulLess(sig, q * Pow2(k) + Pow2(k), Pow2(e));
  }

  /** Inside the range: the truncated value, whichever the sign. */
  lemma FixInside(d: Double, q: nat, lo: int, hi: int)
    requires d.Finite() && q * Unit() <= d.Mag() < q * Unit() + Unit()
    requires lo <= 0 <= hi && (if d.negative then q <= -lo else q <= hi)
    ensures Fixes(d, lo, hi, if d.negative then 0 - q else q)
  {
    hide Double.Mag, Unit;
    MulNext(q, Unit());
    if d.negative {
      MulMono(q + 1, 1 - lo, Unit());
      assert (lo - 1) * Unit() == -((1 - lo) * Unit());
      assert (hi + 1) * Unit() >= 0;
    } else {
      MulMono(q + 1, hi + 1, Unit());
      assert (1 - lo) * Unit() > 0 by { MulMono(1, 1 - lo, Unit()); }
      assert (lo - 1) * Unit() == -((1 - lo) * Unit());
    }
  }

  /** At or beyond the bounds. */
  lemma FixOutside(d: Double, lo: int, hi: int)
    requires d.Finite() && d.Mag() >= (hi + 1) * Unit() && (lo == -(hi + 1) || lo == 0) && hi >= 0
    ensures Fixes(d, lo, hi, if d.negative then lo else hi)
  {
    hide Double.Mag, Unit;
    if d.negative {
      MulMono(1 - lo, hi + 2, Unit());
      assert (lo - 1) * Unit() == -((1 - lo) * Unit());
      MulNext(hi + 1, Unit());
      MulMono(0, hi + 1, Unit());
      if lo == 0 {
        MulMono(1, hi + 1, Unit());
      }
    }
  }

  /** __fixdfdi */
  method FixDfDi(bits: u64) returns (r: i64)
    ensures Fixes(Unpack(bits), LLONG_MIN, LLONG_MAX, r)
  {
    hide Fixes, Double.Mag, Unit, Pow2, Shr, Shl;
    var d := Unpack(bits);
    var exponent: int := d.exponent - 1023;
    if d.Nan() || d.exponent == 0x7FF {
      FixSpecial(d, LLONG_MIN, LLONG_MAX);
      return if d.Nan() then 0 else if d.negative then LLONG_MIN else LLONG_MAX;
    }
    Pow2Values();
    if exponent < 0 {
      BelowOne(d);
      FixInside(d, 0, LLONG_MIN, LLONG_MAX);
      return 0;
    }
    if exponent >= 63 {
      AtLeast(d, 63);
      FixOutside(d, LLONG_MIN, LLONG_MAX);
      return if d.negative then LLONG_MIN else LLONG_MAX;
    }
    WholePart(d);
    Pow2Mono(exponent + 1, 63);
    var result: int := if d.exponent == 0 then d.fraction else FRACTION + d.fraction;
    if exponent > 52 {
      result := Shl(result, exponent - 52);
    } else {
      result := Shr(result, 52 - exponent);
    }
    FixInside(d, result, LLONG_MIN, LLONG_MAX);
    // The code's two guards against a result of 2^63 or more are never taken.
    assert result < TWO63;
    r := if d.negative then NegateSigned(ToSigned(result)) else ToSigned(result);
  }

  lemma FixSpecial(d: Double, lo: int, hi: int)
    requires d.exponent == 2047
    ensures Fixes(d, lo, hi, if d.Nan() then 0 else if d.negative then lo else hi)
  {
  }

  lemma FixNotPositive(d: Double, hi: int)
    requires d.Finite() && d.Val() <= 0 && hi >= 0
    ensures Fixes(d, 0, hi, 0)
  {
    hide Double.Mag, Unit;
    var u: int := Unit();
    assert (0 - 1) * u == -u;
    MulMono(1, hi + 1, Unit());
  }

  /** __fixunsdfdi */
  method FixUnsDfDi(bits: u64) returns (r: u64)
    ensures Fixes(Unpack(bits), 0, ULLONG_MAX, r)
  {
    hide Fixes, Double.Mag, Unit, Pow2, Shr, Shl;
    var d := Unpack(bits);
    var exponent: int := d.exponent - 1023;
    if d.exponent == 0x7FF {
      FixSpecial(d, 0, ULLONG_MAX);
      return if d.Nan() || d.negative then 0 else ULLONG_MAX;
    }
    if NotPositive(d) {
      FixNotPositive(d, ULLONG_MAX);
      return 0;
    }
    Pow2Values();
    if exponent < 0 {
      BelowOne(d);
      FixInside(d, 0, 0, ULLONG_MAX);
      return 0;
    }
    if exponent >= 64 {
      AtLeast(d, 64);
      FixOutside(d, 0, ULLONG_MAX);
      return ULLONG_MAX;
    }
    WholePart(d);
    Pow2Mono(exponent + 1, 64);
    var result: int := if d.exponent == 0 then d.fraction else FRACTION + d.fraction;
    if exponent > 52 {
      r := Shl(result, exponent - 52);
    } else {
      r := Shr(result, 52 - exponent);
    }
    FixInside(d, r, 0, ULLONG_MAX);
  }

  // a <= 0.0, for a finite double: the sign is set or all other bits are clear.
  predicate NotPositive(d: Double)
    requires d.Finite()
    ensures NotPositive(d) <==> d.Val() <= 0
  {
    hide Pow2;
    assert d.exponent > 0 ==> d.Mag() > 0 by {
      if d.exponent > 0 {
        MulMono(1, FRACTION + d.fraction, Pow2(d.exponent - 1));
      }
    }
    d.negative || (d.exponent == 0 && d.fraction == 0)
  }

  // ---- round trip

  /** a is the value of some double. */
  ghost predicate Representable(a: int) {
    exists y: Double :: y.Finite() && y.Val() == a * Unit()
  }

  /** Every multiple of a power of two with a significand of at most 53 bits is a double. */
  lemma {:induction false} Normalised(m: nat, e: nat) returns (y: Double)
    requires m < 2 * FRACTION && e <= 2045
    ensures y.Finite() && !y.negative && y.Mag() == m * Pow2(e)
    decreases e
  {
    if m >= FRACTION {
      y := Double(false, e + 1, m - FRACTION);
    } else if e == 0 {
      y := Double(false, 0, m);
    } else {
      y := Normalised(2 * m, e - 1);
      MulAssoc(m, 2, Pow2(e - 1));
    }
  }

  lemma SmallRepresentable(a: int, m: nat, k: nat)
    requires m < 2 * FRACTION && k <= 971 && Abs(a) == m * Pow2(k)
    ensures Representable(a)
  {
    hide Pow2;
    Pow2Add(k, LEAST);
    MulAssoc(m, Pow2(k), Pow2(LEAST));
    assert Unit() == Pow2(LEAST);
    var y := Normalised(m, k + LEAST);
    var z := y.(negative := a < 0);
    SameMag(y, z);
    assert a < 0 ==> a * Unit() == -(Abs(a) * Unit());
    assert z.Val() == a * Unit();
  }

  /** Converting a representable integer to a double and back gives it back. */
  lemma RoundTrip(a: int, d: Double, lo: int, hi: int, r: int)
    requires lo <= a <= hi && Representable(a) && Nearest(a, d) && Fixes(d, lo, hi, r)
    ensures r == a
  {
    hide Double.Mag, Unit;
    var y: Double :| y.Finite() && y.Val() == a * Unit();
    assert Distance(a, d) <= Distance(a, y) == 0;
    assert d.Val() == a * Unit();
    MulLess(a - lo, a - lo + 1, Unit());
    MulPlus(a - lo + 1, lo - 1, Unit());
    MulPlus(hi + 1 - a, a, Unit());
    MulMono(1, hi + 1 - a, Unit());
    MulMono(1, a - lo + 1, Unit());
    assert Truncation(d, r);
    TruncationOnce(d, r, a);
  }

  lemma TruncationOnce(d: Double, r: int, a: int)
    requires Truncation(d, r) && d.Val() == a * Unit()
    ensures r == a
  {
    hide Double.Mag, Unit;
    MulNext(Abs(r), Unit());
    MulLess(Abs(a), Abs(r) + 1, Unit());
    MulLess(Abs(a), Abs(r), Unit());
    assert a < 0 ==> a * Unit() == -(Abs(a) * Unit());
    MulMono(0, Abs(a), Unit());
    if Abs(a) > 0 {
      MulMono(1, Abs(a), Unit());
    }
  }
}
