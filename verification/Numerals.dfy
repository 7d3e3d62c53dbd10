/** Numbers as text: printing by repeated division, parsing with clamping, and that parsing undoes
    printing. */
module Numerals {
  import opened CStrings
  import opened Words

  // ---- digits

  function DigitChar(d: nat, upper: bool): (c: char)
    requires d < 36
    ensures NUL < c < 256 as char && DigitValue(c) == d
  {
    if d < 10 then ('0' as int + d) as char else ((if upper then 'A' else 'a') as int + (d - 10)) as char
  }

  // The table of _itoa_base.
  const LOWER_TABLE := "0123456789abcdef"
  const UPPER_TABLE := "0123456789ABCDEF"

  lemma TableIs(d: nat)
    requires d < 16
    ensures LOWER_TABLE[d] == DigitChar(d, false) && UPPER_TABLE[d] == DigitChar(d, true)
  {
  }

  /** The digit a character stands for, in the largest base, or -1. */
  function DigitValue(c: char): (d: int)
    ensures -1 <= d < 36
  {
    if IsDigit(c) then c as int - '0' as int
    else if IsUpper(c) then c as int - 'A' as int + 10
    else if IsLower(c) then c as int - 'a' as int + 10
    else -1
  }

  predicate IsDigitIn(c: char, base: nat) {
    0 <= DigitValue(c) < base
  }

  function Horner(v: nat, base: nat, d: nat): nat {
    v * base + d
  }

  function DigitAt(s: CString, k: nat, base: nat): (d: nat)
    requires k < |s| && IsDigitIn(s[k], base)
    ensures d < base
  {
    DigitValue(s[k])
  }

  /** What the digits of s between i and e spell, exactly. */
  function ValueOf(s: CString, i: nat, e: nat, base: nat): (v: nat)
    requires i <= e <= |s| && forall k | i <= k < e :: IsDigitIn(s[k], base)
    decreases e
  {
    if i == e then 0
    else
      Horner(ValueOf(s, i, e - 1, base), base, DigitAt(s, e - 1, base))
  }

  function DigitsEnd(s: CString, i: nat, base: nat): (e: nat)
    requires i <= |s|
    ensures i <= e <= |s| && (forall k | i <= k < e :: IsDigitIn(s[k], base))
    ensures e < |s| ==> !IsDigitIn(s[e], base)
    decreases |s| - i
  {
    if i < |s| && IsDigitIn(s[i], base) then DigitsEnd(s, i + 1, base) else i
  }

  // ---- printing

  function Quotient(v: nat, base: nat): (q: nat)
    requires 1 <= base
    ensures q <= v && (2 <= base ==> q <= v / 2) && (v >= base ==> q > 0) && (v < base ==> q == 0)
  {
    QuotientIs(v, base);
    v / base
  }

  function Remainder(v: nat, base: nat): (r: nat)
    requires 1 <= base
    ensures r < base
  {
    v % base
  }

  lemma QuotientRemainder(v: nat, base: nat)
    requires 1 <= base
    ensures v == Quotient(v, base) * base + Remainder(v, base)
  {
  }

  lemma QuotientIs(v: nat, base: nat)
    requires 1 <= base
    ensures 0 <= v / base <= v && (2 <= base ==> v / base <= v / 2)
    ensures (v >= base ==> v / base > 0) && (v < base ==> v / base == 0)
  {
    var q, r := v / base, v % base;
    assert v == q * base + r;
    MulNegative(q, base);
    if q >= 1 {
      MulMono(1, base, q);
      if base >= 2 {
        MulMono(2, base, q);
      }
    }
  }

  lemma MulNegative(q: int, base: nat)
    ensures q < 0 ==> q * base <= -(base as int)
  {
    if q < 0 {
      MulMono(1, -q, base);
      assert q * base == -(-q * base);
    }
  }

  lemma SmallRemainder(v: nat, base: nat)
    requires v < base && 2 <= base
    ensures Remainder(v, base) == v
  {
  }

  /** The usual numeral, most significant digit first. */
  function Numeral(val: nat, base: nat, upper: bool): (s: CString)
    requires 2 <= base <= 36
    ensures |s| >= 1 && forall k | 0 <= k < |s| :: IsDigitIn(s[k], base)
  {
    if val < base then [DigitChar(val, upper)]
    else Numeral(Quotient(val, base), base, upper) + [DigitChar(Remainder(val, base), upper)]
  }

  /** The digits of a positive number, least significant first. */
  function LowFirst(val: nat, base: nat, upper: bool): string
    requires 2 <= base <= 36
  {
    if val == 0 then []
    else [DigitChar(Remainder(val, base), upper)] + LowFirst(Quotient(val, base), base, upper)
  }

  function Reversed(s: string): (r: string)
    ensures |r| == |s| && forall k | 0 <= k < |s| :: r[k] == s[|s| - 1 - k]
  {
    if s == [] then [] else [s[|s| - 1]] + Reversed(s[..|s| - 1])
  }

  lemma {:induction false} NumeralReversed(val: nat, base: nat, upper: bool)
    requires 2 <= base <= 36 && val > 0
    ensures Reversed(LowFirst(val, base, upper)) == Numeral(val, base, upper)
  {
    hide DigitChar, Quotient, Remainder, IsDigitIn, DigitValue;
    if val < base {
      SmallRemainder(val, base);
    }
    var q, d := Quotient(val, base), DigitChar(Remainder(val, base), upper);
    if val >= base {
      NumeralReversed(q, base, upper);
    } else {
      assert q == 0 && LowFirst(0, base, upper) == [];
    }
    ReversedHead(d, LowFirst(q, base, upper));
  }

  lemma ReversedHead(c: char, s: string)
    ensures Reversed([c] + s) == Reversed(s) + [c]
  {
  }

  /** The numeral spells the number. */
  lemma {:induction false} NumeralValue(val: nat, base: nat, upper: bool)
    requires 2 <= base <= 36
    ensures var s := Numeral(val, base, upper); ValueOf(s, 0, |s|, base) == val
  {
    hide DigitChar, Quotient, Remainder, IsDigitIn, DigitValue;
    var s := Numeral(val, base, upper);
    if val >= base {
      var t := Numeral(Quotient(val, base), base, upper);
      NumeralValue(Quotient(val, base), base, upper);
      ValuePrefix(s, t, 0, |t|, base);
      QuotientRemainder(val, base);
    } else {
      assert ValueOf(s, 0, 0, base) == 0;
    }
  }

  lemma {:induction false} ValuePrefix(s: CString, t: CString, i: nat, e: nat, base: nat)
    requires i <= e <= |s| && e <= |t| && s[..e] == t[..e] && forall k | i <= k < e :: IsDigitIn(s[k], base)
    ensures forall k | i <= k < e :: s[k] == t[k]
    ensures ValueOf(s, i, e, base) == ValueOf(t, i, e, base)
    decreases e
  {
    assert forall k | i <= k < e :: s[k] == s[..e][k] == t[..e][k] == t[k];
    if i < e {
      assert s[..e - 1] == s[..e][..e - 1] == t[..e][..e - 1] == t[..e - 1];
      ValuePrefix(s, t, i, e - 1, base);
    }
  }

  lemma {:induction false} ValueElsewhere(s: CString, i: nat, t: CString, e: nat, base: nat)
    requires e <= |t| && i + e <= |s| && (forall k | 0 <= k < e :: s[i + k] == t[k] && IsDigitIn(t[k], base))
    ensures forall k | i <= k < i + e :: IsDigitIn(s[k], base)
    ensures ValueOf(s, i, i + e, base) == ValueOf(t, 0, e, base)
    decreases e
  {
    hide IsDigitIn;
    forall k | i <= k < i + e ensures IsDigitIn(s[k], base) {
      assert s[i + (k - i)] == t[k - i];
    }
    if e > 0 {
      ValueElsewhere(s, i, t, e - 1, base);
    }
  }

  /** A number below 2^k has at most k digits. */
  lemma {:induction false} NumeralShort(val: nat, base: nat, upper: bool, k: nat)
    requires 2 <= base <= 36 && k >= 1 && val < Pow2(k)
    ensures |Numeral(val, base, upper)| <= k
  {
    hide DigitChar, Quotient, Remainder, IsDigitIn;
    if val >= base {
      NumeralShort(Quotient(val, base), base, upper, k - 1);
    }
  }

  /** _itoa_base: the digits of val, least significant first. */
  method ItoaBase(val: u64, base: nat, upper: bool, buf: array<char>) returns (len: nat)
    requires 2 <= base <= 16 && |LowFirst(val, base, upper)| <= buf.Length && buf.Length >= 1
    modifies buf
    ensures len <= buf.Length && buf[..len] == if val == 0 then "0" else LowFirst(val, base, upper)
    ensures forall k | len <= k < buf.Length :: buf[k] == old(buf[k])
  {
    hide DigitChar, Quotient, Remainder;
    if val == 0 {
      buf[0] := '0';
      return 1;
    }
    len := 0;
    var v: nat := val;
    ghost var done := [];
    while v > 0
      invariant len + |LowFirst(v, base, upper)| <= buf.Length
      invariant buf[..len] == done && done + LowFirst(v, base, upper) == LowFirst(val, base, upper)
      invariant forall k | len <= k < buf.Length :: buf[k] == old(buf[k])
      decreases v
    {
      var digit := Remainder(v, base);
      var c := if upper then UPPER_TABLE[digit] else LOWER_TABLE[digit];
      TableIs(digit);
      ghost var rest := LowFirst(Quotient(v, base), base, upper);
      Regroup(done, c, rest);
      buf[len] := c;
      done := done + [c];
      len := len + 1;
      v := Quotient(v, base);
    }
    assert done + [] == done;
  }

  lemma Regroup(a: string, c: char, b: string)
    ensures a + ([c] + b) == a + [c] + b
  {
  }

  /** _reverse: in place, from both ends. */
  method Reverse(s: array<char>, len: nat)
    requires len <= s.Length
    modifies s
    ensures s[..len] == Reversed(old(s[..len])) && forall k | len <= k < s.Length :: s[k] == old(s[k])
  {
    var i, j: int := 0, len - 1;
    while i < j
      invariant 0 <= i <= len && j == len - 1 - i && i <= j + 1
      invariant forall k | 0 <= k < s.Length :: s[k] == if k < i || j < k < len then old(s[len - 1 - k]) else old(s[k])
    {
      s[i], s[j] := s[j], s[i];
      i, j := i + 1, j - 1;
    }
  }

  /** What vfprintf prints for a number. */
  method Print(val: u64, base: nat, upper: bool, buf: array<char>) returns (len: nat)
    requires 2 <= base <= 16 && buf.Length >= 64
    modifies buf
    ensures len <= buf.Length && buf[..len] == Numeral(val, base, upper)
  {
    hide Numeral, LowFirst, Pow2;
    Pow2Values();
    NumeralShort(val, base, upper, 64);
    if val > 0 {
      NumeralReversed(val, base, upper);
    } else {
      NumeralZero(base, upper);
    }
    len := ItoaBase(val, base, upper, buf);
    Reverse(buf, len);
  }

  lemma NumeralZero(base: nat, upper: bool)
    requires 2 <= base <= 36
    ensures LowFirst(0, base, upper) == [] && Numeral(0, base, upper) == "0" == Reversed("0")
  {
    assert DigitChar(0, upper) == '0';
  }

  // ---- parsing

  /** Where the digits start, in which base, and whether a minus sign was read. */
  datatype Head = Head(negative: bool, start: nat, base: nat)

  function SkipSpaces(s: CString, i: nat): (j: nat)
    requires i <= |s|
    ensures i <= j <= |s|
    decreases |s| - i
  {
    if i < |s| && IsSpace(s[i]) then SkipSpaces(s, i + 1) else i
  }

  predicate InInt(x: int) {
    -0x8000_0000 <= x < 0x8000_0000
  }

  // No character is a digit in a base below 1.
  function Radix(base: int): nat {
    if base < 0 then 0 else base
  }

  /** Blanks, a sign, and the prefix that chooses or confirms base 16; then base 8 or 10 if it is open. */
  function HeadOf(s: CString, base: int): (h: Head)
    ensures h.start <= |s|
  {
    var i := SkipSpaces(s, 0);
    var signed := At(s, i) == '-' || At(s, i) == '+';
    var j := if signed then i + 1 else i;
    var hex := (base == 0 || base == 16) && At(s, j) == '0' && (At(s, j + 1) == 'x' || At(s, j + 1) == 'X');
    Head(At(s, i) == '-', if hex then j + 2 else j,
         if hex then 16 else if base == 0 then (if At(s, j) == '0' then 8 else 10) else Radix(base))
  }

  datatype Parsed = Parsed(value: int, end: nat, erange: bool)

  /** What strtoull returns: the exact value of the digits, however many, or ULLONG_MAX with ERANGE
      when it is larger; after a minus sign the exact value is negated modulo 2^64. */
  function Strtoull(s: CString, base: int): Parsed {
    var h := HeadOf(s, base);
    var e := DigitsEnd(s, h.start, h.base);
    var v := ValueOf(s, h.start, e, h.base);
    var end := if e == h.start then 0 else e;
    if v > ULLONG_MAX then Parsed(ULLONG_MAX, end, true)
    else Parsed(if h.negative && v > 0 then TWO64 - v else v, end, false)
  }

  /** What strtoll returns: the exact value, or the nearer bound with ERANGE. */
  function Strtoll(s: CString, base: int): Parsed {
    var h := HeadOf(s, base);
    var e := DigitsEnd(s, h.start, h.base);
    var v: int := ValueOf(s, h.start, e, h.base);
    var end := if e == h.start then 0 else e;
    var exact := if h.negative then -v else v;
    if exact > LLONG_MAX then Parsed(LLONG_MAX, end, true)
    else if exact < LLONG_MIN then Parsed(LLONG_MIN, end, true)
    else Parsed(exact, end, false)
  }

  /** More digits never make the value smaller. */
  lemma {:induction false} ValueGrows(s: CString, i: nat, e: nat, f: nat, base: nat)
    requires i <= e <= f <= |s| && base >= 1 && forall k | i <= k < f :: IsDigitIn(s[k], base)
    ensures ValueOf(s, i, e, base) <= ValueOf(s, i, f, base)
    decreases f
  {
    hide IsDigitIn;
    if e < f {
      ValueGrows(s, i, e, f - 1, base);
      MulMono(1, base, ValueOf(s, i, f - 1, base));
    }
  }

  /** The head both functions begin with. */
  method ScanHead(s: CString, base0: int) returns (neg: bool, i: nat, base: int)
    ensures Head(neg, i, Radix(base)) == HeadOf(s, base0) && base != 0
    ensures base == base0 || base == 8 || base == 10 || base == 16
  {
    neg, i, base := false, 0, base0;
    while IsSpace(At(s, i))
      invariant i <= |s| && SkipSpaces(s, 0) == SkipSpaces(s, i)
      decreases |s| - i
    {
      i := i + 1;
    }
    if At(s, i) == '-' {
      neg := true;
      i := i + 1;
    } else if At(s, i) == '+' {
      i := i + 1;
    }
    if (base == 0 || base == 16) && At(s, i) == '0' && (At(s, i + 1) == 'x' || At(s, i + 1) == 'X') {
      i := i + 2;
      base := 16;
    }
    if base == 0 {
      base := if At(s, i) == '0' then 8 else 10;
    }
  }

  /** The loop both functions share: `any` is 0 without digits, -1 once the value is above
      cutoff * base + cutlim. The accumulator is a 64-bit word that never wraps. */
  method Accumulate(s: CString, start: nat, base: int, cutoff: u64, cutlim: nat) returns (acc: u64, any: int, i: nat)
    requires start <= |s| && (base > 0 ==> cutlim < base && Horner(cutoff, base, cutlim) < TWO64)
    ensures i == DigitsEnd(s, start, Radix(base))
    ensures any == 0 <==> i == start
    ensures any < 0 <==> ValueOf(s, start, i, Radix(base)) > Horner(cutoff, Radix(base), cutlim)
    ensures any >= 0 ==> acc == ValueOf(s, start, i, Radix(base))
    ensures base <= 0 ==> any == 0 && acc == 0
  {
    hide DigitValue, Horner;
    NulIsNoDigit();
    ghost var radix := Radix(base);
    acc, any, i := 0, 0, start;
    while true
      invariant start <= i <= |s| && DigitsEnd(s, start, radix) == DigitsEnd(s, i, radix)
      invariant forall k | start <= k < i :: IsDigitIn(s[k], radix)
      invariant any == 0 <==> i == start
      invariant any < 0 <==> ValueOf(s, start, i, radix) > Horner(cutoff, radix, cutlim)
      invariant any >= 0 ==> acc == ValueOf(s, start, i, radix)
      invariant base <= 0 ==> any == 0 && acc == 0
      decreases |s| - i
    {
      var c := DigitValue(At(s, i));
      if c < 0 {
        break;
      }
      if c >= base {
        break;
      }
      Cut(ValueOf(s, start, i, base), base, c, cutoff, cutlim);
      if any < 0 || acc > cutoff || (acc == cutoff && c > cutlim) {
        any := -1;
      } else {
        any := 1;
        acc := Horner(acc, base, c);
      }
      i := i + 1;
    }
  }

  lemma NulIsNoDigit()
    ensures DigitValue(NUL) == -1
  {
  }

  /** The test before the multiplication: whether the next value is above the limit. */
  lemma Cut(v: nat, base: nat, c: nat, cutoff: nat, cutlim: nat)
    requires c < base && cutlim < base
    ensures Horner(v, base, c) > Horner(cutoff, base, cutlim) <==> v > cutoff || (v == cutoff && c > cutlim)
    ensures v > Horner(cutoff, base, cutlim) ==> Horner(v, base, c) > Horner(cutoff, base, cutlim)
  {
    if v > cutoff {
      MulMono(cutoff + 1, v, base);
      MulNext(cutoff, base);
    } else if v < cutoff {
      MulMono(v + 1, cutoff, base);
      MulNext(v, base);
    }
    MulMono(1, base, v);
    MulMono(1, base, cutoff);
  }

  lemma Limit(limit: nat, base: nat)
    requires 1 <= base
    ensures Horner(Quotient(limit, base), base, Remainder(limit, base)) == limit
  {
    QuotientRemainder(limit, base);
  }

  /** strtoull */
  method ParseUnsigned(s: CString, base0: int) returns (value: int, end: nat, erange: bool)
    requires InInt(base0)
    ensures Parsed(value, end, erange) == Strtoull(s, base0)
  {
    hide ValueOf, DigitsEnd, HeadOf, Horner, IsDigitIn;
    var neg, start, base := ScanHead(s, base0);
    var divisor := ToUnsigned(base);
    var cutoff, cutlim := Quotient(ULLONG_MAX, divisor), Remainder(ULLONG_MAX, divisor);
    Limit(ULLONG_MAX, divisor);
    var acc, any, i := Accumulate(s, start, base, cutoff, cutlim);
    erange := false;
    if any < 0 {
      acc := ULLONG_MAX;
      erange := true;
    } else if neg {
      acc := NegateUnsigned(acc);
    }
    value, end := acc, if any != 0 then i else 0;
  }

  /** strtoll */
  method ParseSigned(s: CString, base0: int) returns (value: int, end: nat, erange: bool)
    requires InInt(base0)
    ensures Parsed(value, end, erange) == Strtoll(s, base0)
  {
    hide ValueOf, DigitsEnd, HeadOf, Horner, IsDigitIn;
    var neg, start, base := ScanHead(s, base0);
    var limit: u64 := if neg then TWO63 else LLONG_MAX;
    var divisor := ToUnsigned(base);
    var cutoff, cutlim := Quotient(limit, divisor), Remainder(limit, divisor);
    Limit(limit, divisor);
    var acc, any, i := Accumulate(s, start, base, cutoff, cutlim);
    erange := false;
    if any < 0 {
      acc := if neg then TWO63 else LLONG_MAX;
      erange := true;
    } else if neg {
      acc := NegateUnsigned(acc);
    }
    value, end := ToSigned(acc), if any != 0 then i else 0;
  }

  // ---- how much of the text is parsed, against section 7.20.1.4 of C99

  predicate AllIn(t: string, i: nat, base: nat) {
    i < |t| && forall k | i <= k < |t| :: IsDigitIn(t[k], base)
  }

  predicate HexPrefix(t: string) {
    |t| >= 2 && t[0] == '0' && (t[1] == 'x' || t[1] == 'X')
  }

  /** The expected form behind the sign: in base 0 a decimal, octal or hexadecimal constant; otherwise digits of
      the base, and in base 16 optionally a prefix before them. */
  predicate Unsigned(t: string, base: nat) {
    if base == 0 then
      || (HexPrefix(t) && AllIn(t, 2, 16))
      || (AllIn(t, 0, 8) && t[0] == '0')
      || (AllIn(t, 0, 10) && t[0] != '0')
    else AllIn(t, 0, base) || (base == 16 && HexPrefix(t) && AllIn(t, 2, 16))
  }

  predicate Sign(c: char) {
    c == '-' || c == '+'
  }

  predicate Subject(t: string, base: nat) {
    t != "" && Unsigned(if Sign(t[0]) then t[1..] else t, base)
  }

  /** The end pointer of the standard: behind the longest stretch of the expected form that starts at the first
      character that is no blank, or the start of the text if there is none. */
  predicate StandardEnd(s: CString, base: nat, end: nat) {
    var w := SkipSpaces(s, 0);
    if end == 0 then forall f | w <= f <= |s| :: !Subject(s[w..f], base)
    else w <= end <= |s| && Subject(s[w..end], base) && forall f | end < f <= |s| :: !Subject(s[w..f], base)
  }

  /** Where the digits, or their prefix, start. */
  function BehindSign(s: CString): (j: nat)
    ensures j <= |s|
  {
    var w := SkipSpaces(s, 0);
    if Sign(At(s, w)) then w + 1 else w
  }

  predicate HexAt(s: CString, j: nat) {
    j + 2 <= |s| && HexPrefix(s[j..j + 2])
  }

  /** `0x` without a hexadecimal digit behind it, where a prefix is looked for. */
  predicate EmptyHex(s: CString, base: nat) {
    var j := BehindSign(s);
    (base == 0 || base == 16) && HexAt(s, j) && DigitsEnd(s, j + 2, 16) == j + 2
  }

  // The subject of a stretch is its part behind the sign.
  lemma SubjectBehindSign(s: CString, base: nat, f: nat)
    requires SkipSpaces(s, 0) <= f <= |s|
    ensures var j := BehindSign(s);
      Subject(s[SkipSpaces(s, 0)..f], base) <==> j <= f && Unsigned(s[j..f], base)
  {
    hide IsDigitIn;
    var w, j := SkipSpaces(s, 0), BehindSign(s);
    if w < f {
      assert s[w..f][0] == s[w];
      assert s[w..f][1..] == s[w + 1..f];
    }
  }

  // Digits from i to f, in the text.
  lemma AllInText(s: CString, j: nat, f: nat, i: nat, base: nat)
    requires j <= f <= |s|
    ensures AllIn(s[j..f], i, base) <==> j + i < f && forall k | j + i <= k < f :: IsDigitIn(s[k], base)
  {
    hide IsDigitIn;
    var t := s[j..f];
    forall k | i <= k < |t| ensures t[k] == s[j + k] {}
    if AllIn(t, i, base) {
      forall k | j + i <= k < f ensures IsDigitIn(s[k], base) {
        assert t[k - j] == s[k];
      }
    }
  }

  // The form of a stretch, in the text.
  predicate Form(s: CString, j: nat, f: nat, base: nat)
    requires j <= f <= |s|
  {
    var hex := HexAt(s, j) && j + 2 < f <= DigitsEnd(s, j + 2, 16);
    if base == 0 then
      || hex || (j < f <= DigitsEnd(s, j, 8) && s[j] == '0') || (j < f <= DigitsEnd(s, j, 10) && s[j] != '0')
    else j < f <= DigitsEnd(s, j, base) || (base == 16 && hex)
  }

  lemma UnsignedText(s: CString, j: nat, f: nat, base: nat)
    requires j <= f <= |s|
    ensures Unsigned(s[j..f], base) <==> Form(s, j, f, base)
  {
    hide IsDigitIn, AllIn, DigitsEnd;
    forall i: nat, b: nat | j + i <= |s| ensures AllIn(s[j..f], i, b) <==> j + i < f <= DigitsEnd(s, j + i, b) {
      AllInText(s, j, f, i, b);
      DigitsUpTo(s, j + i, f, b);
    }
    if j + 2 <= f {
      assert s[j..f][0] == s[j] == s[j..j + 2][0] && s[j..f][1] == s[j + 1] == s[j..j + 2][1];
    }
  }

  lemma {:induction false} DigitsUpTo(s: CString, i: nat, f: nat, base: nat)
    requires i <= |s| && f <= |s|
    ensures (forall k | i <= k < f :: IsDigitIn(s[k], base)) <==> f <= i || f <= DigitsEnd(s, i, base)
  {
    hide IsDigitIn;
  }

  // A 0 is a digit in every base, and the x of a prefix in none up to 16.
  lemma ZeroX(s: CString, j: nat, base: nat)
    requires j < |s| && s[j] == '0' && 1 <= base <= 16
    ensures j < DigitsEnd(s, j, base)
    ensures HexAt(s, j) ==> DigitsEnd(s, j, base) == j + 1
  {
    if j + 2 <= |s| {
      assert s[j..j + 2][1] == s[j + 1];
    }
  }

  // The head in terms of the text behind the sign.
  lemma HeadBehindSign(s: CString, base: nat)
    ensures var j, h := BehindSign(s), HeadOf(s, base);
      if (base == 0 || base == 16) && HexAt(s, j) then h.start == j + 2 && h.base == 16 && s[j] == '0'
      else h.start == j && h.base == if base == 0 then (if At(s, j) == '0' then 8 else 10) else base
  {
    var j := BehindSign(s);
    if j + 2 <= |s| {
      assert s[j..j + 2][0] == s[j] && s[j..j + 2][1] == s[j + 1];
    }
  }

  // Where the longest stretch of the expected form ends, behind the sign.
  lemma EndOfForm(s: CString, base: nat)
    requires base == 0 || 2 <= base <= 36
    ensures var j, h := BehindSign(s), HeadOf(s, base);
      var e := DigitsEnd(s, h.start, h.base);
      if EmptyHex(s, base) then e == h.start && j < |s| && Unsigned(s[j..j + 1], base)
      else
        && (e > h.start ==> Unsigned(s[j..e], base) && forall f | e < f <= |s| :: !Unsigned(s[j..f], base))
        && (e == h.start ==> forall f | j <= f <= |s| :: !Unsigned(s[j..f], base))
  {
    hide IsDigitIn, Unsigned, DigitsEnd, HeadOf, HexAt, BehindSign;
    var j := BehindSign(s);
    HeadBehindSign(s, base);
    if j < |s| && s[j] == '0' {
      ZeroX(s, j, 8);
      ZeroX(s, j, if base == 16 then 16 else 10);
    }
    forall f | j <= f <= |s| ensures Unsigned(s[j..f], base) <==> Form(s, j, f, base) {
      UnsignedText(s, j, f, base);
    }
  }

  /** The end pointer is the standard's, in every base the standard knows, exactly when the text is not an empty
      hexadecimal numeral: there the standard takes the 0, and the code nothing. */
  lemma EndIsStandard(s: CString, base: nat)
    requires base == 0 || 2 <= base <= 36
    ensures StandardEnd(s, base, Strtoull(s, base).end) <==> !EmptyHex(s, base)
    ensures Strtoll(s, base).end == Strtoull(s, base).end
  {
    hide IsDigitIn, Unsigned, ValueOf;
    var w, j := SkipSpaces(s, 0), BehindSign(s);
    forall f | w <= f <= |s| ensures Subject(s[w..f], base) <==> j <= f && Unsigned(s[j..f], base) {
      SubjectBehindSign(s, base, f);
    }
    EndOfForm(s, base);
    var end := Strtoull(s, base).end;
  }

  /** `0x`: the code takes nothing, where the standard takes the 0. */
  lemma EmptyHexTaken()
    ensures EmptyHex("0x", 16) && Strtoull("0x", 16).end == 0 && !StandardEnd("0x", 16, 0)
  {
    hide Strtoull, StandardEnd, Strtoll;
    var s: CString := "0x";
    NoHexBehind(s);
    EmptyHexEnd(s);
    EndIsStandard(s, 16);
  }

  lemma NoHexBehind(s: CString)
    requires s == "0x"
    ensures EmptyHex(s, 16)
  {
    assert SkipSpaces(s, 0) == 0 && DigitsEnd(s, 2, 16) == 2;
    assert s[0..2] == s;
  }

  // The end pointer then.
  lemma EmptyHexEnd(s: CString)
    requires EmptyHex(s, 16)
    ensures Strtoull(s, 16).end == 0
  {
    hide ValueOf, HeadOf, DigitsEnd, HexAt, BehindSign;
    HeadBehindSign(s, 16);
  }

  // ---- parsing what was printed

  lemma {:induction false} DigitsAll(s: CString, i: nat, base: nat)
    requires i <= |s| && forall k | i <= k < |s| :: IsDigitIn(s[k], base)
    ensures DigitsEnd(s, i, base) == |s|
    decreases |s| - i
  {
    if i < |s| {
      DigitsAll(s, i + 1, base);
    }
  }

  lemma NoHead(s: CString, base: nat)
    requires 2 <= base <= 16 && |s| >= 1 && forall k | 0 <= k < |s| :: IsDigitIn(s[k], base)
    ensures HeadOf(s, base) == Head(false, 0, base)
  {
    assert IsDigitIn(s[0], base);
    assert |s| > 1 ==> IsDigitIn(s[1], base);
  }

  /** Parsing the printed numeral of a 64-bit number gives the number, and uses all of it. */
  lemma RoundTrip(val: u64, base: nat, upper: bool)
    requires 2 <= base <= 16
    ensures var s := Numeral(val, base, upper); Strtoull(s, base) == Parsed(val, |s|, false)
  {
    hide Numeral, ValueOf, DigitsEnd, HeadOf, IsDigitIn;
    var s := Numeral(val, base, upper);
    NoHead(s, base);
    DigitsAll(s, 0, base);
    NumeralValue(val, base, upper);
  }
}
