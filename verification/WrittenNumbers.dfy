/** Numbers as they are written, and what strtoll and strtoull make of them. */
module WrittenNumbers {
  import opened CStrings
  import opened Words
  import opened Numerals

  // ---- digits

  /** The characters that stand for digits, in the order of their values; nothing else does. */
  const LOWER_DIGITS := "0123456789abcdefghijklmnopqrstuvwxyz"
  const UPPER_DIGITS := "0123456789ABCDEFGHIJKLMNOPQRSTUVWXYZ"

  lemma DigitsAre(d: nat)
    requires d < 36
    ensures LOWER_DIGITS[d] == DigitChar(d, false) && UPPER_DIGITS[d] == DigitChar(d, true)
  {
  }

  lemma OnlyDigits(c: char)
    ensures var d := DigitValue(c);
      if d < 0 then c !in LOWER_DIGITS && c !in UPPER_DIGITS else c == LOWER_DIGITS[d] || c == UPPER_DIGITS[d]
  {
    if DigitValue(c) >= 0 {
      DigitsAre(DigitValue(c));
    } else {
      forall d: nat | d < 36 ensures LOWER_DIGITS[d] != c && UPPER_DIGITS[d] != c {
        DigitsAre(d);
      }
    }
  }

  // ---- numbers

  datatype Sign = Unsigned | Plus | Minus {
    function Text(): string {
      match this
      case Unsigned => ""
      case Plus => "+"
      case Minus => "-"
    }
  }

  datatype Prefix = NoPrefix | Lower | Upper {
    function Text(): string {
      match this
      case NoPrefix => ""
      case Lower => "0x"
      case Upper => "0X"
    }
  }

  /** A number as it is written: blanks, a sign or none, a prefix or none, digits, and what stands behind. */
  datatype Written = Written(blanks: string, sign: Sign, prefix: Prefix, digits: string, tail: string) {
    function Text(): string {
      blanks + (sign.Text() + (prefix.Text() + (digits + tail)))
    }

    /** Where the digits start. */
    function Start(): nat {
      |blanks| + |sign.Text()| + |prefix.Text()|
    }

    /** The digits, of which there are some, are digits of `radix`, nothing behind them is, and that is the radix that
        `base` asks for: 16 with a prefix, and in base 0 that of an octal or decimal constant without one. */
    predicate Proper(base: int, radix: nat) {
      && (forall k | 0 <= k < |blanks| :: IsSpace(blanks[k]))
      && digits != "" && (forall k | 0 <= k < |digits| :: IsDigitIn(digits[k], radix))
      && (tail != "" ==> !IsDigitIn(tail[0], radix))
      && if prefix != NoPrefix then (base == 0 || base == 16) && radix == 16
         else
           && radix == (if base != 0 then Radix(base) else if digits[0] == '0' then 8 else 10)
           && (base == 0 || base == 16 ==> !HexPrefix(digits + tail))
    }

    /** The number with its sign, for what the digits spell. */
    function Signed(v: nat): int {
      if sign.Minus? then 0 - v else v
    }
  }

  /** The digits of a number with any number of zeros before them. */
  function ZerosBefore(n: nat, t: string): string {
    if n == 0 then t else "0" + ZerosBefore(n - 1, t)
  }

  lemma {:induction false} SpacesSkipped(s: CString, i: nat, w: nat)
    requires i <= w <= |s| && (forall k | i <= k < w :: IsSpace(s[k])) && !IsSpace(At(s, w))
    ensures SkipSpaces(s, i) == w
    decreases w - i
  {
    if i < w {
      SpacesSkipped(s, i + 1, w);
    }
  }

  lemma {:induction false} DigitsBetween(s: CString, i: nat, e: nat, base: nat)
    requires i <= e <= |s| && (forall k | i <= k < e :: IsDigitIn(s[k], base)) && (e < |s| ==> !IsDigitIn(s[e], base))
    ensures DigitsEnd(s, i, base) == e
    decreases e - i
  {
    hide IsDigitIn;
    if i < e {
      DigitsBetween(s, i + 1, e, base);
    }
  }

  /** Where the parts of a written number are in its text. */
  lemma PartsHere(w: Written, s: CString)
    requires s == w.Text()
    ensures Here(s, 0, w.blanks) && Here(s, |w.blanks|, w.sign.Text())
    ensures Here(s, |w.blanks| + |w.sign.Text()|, w.prefix.Text()) && Here(s, w.Start(), w.digits + w.tail)
    ensures Here(s, w.Start(), w.digits) && Here(s, w.Start() + |w.digits|, w.tail)
    ensures w.Start() + |w.digits| + |w.tail| == |s|
    ensures forall k | 0 <= k < |w.digits| :: NUL < w.digits[k] < 256 as char
  {
    hide Sign.Text, Prefix.Text, Here;
    var i, j := |w.blanks|, |w.blanks| + |w.sign.Text()|;
    WholeHere(s);
    HereSplit(s, 0, w.blanks, w.sign.Text() + (w.prefix.Text() + (w.digits + w.tail)));
    HereSplit(s, i, w.sign.Text(), w.prefix.Text() + (w.digits + w.tail));
    HereSplit(s, j, w.prefix.Text(), w.digits + w.tail);
    HereSplit(s, w.Start(), w.digits, w.tail);
    forall k | 0 <= k < |w.digits| ensures NUL < w.digits[k] < 256 as char {
      HereChar(s, w.Start(), w.digits, k);
    }
  }

  lemma WholeHere(s: CString)
    ensures Here(s, 0, s)
  {
    assert s[0..|s|] == s;
  }

  /** The head of a written number ends where its digits start. */
  lemma WrittenHead(w: Written, s: CString, base: int, radix: nat)
    requires s == w.Text() && w.Proper(base, radix)
    ensures HeadOf(s, base) == Head(w.sign.Minus?, w.Start(), radix)
  {
    hide IsDigitIn, SkipSpaces, Here, Written.Text, Prefix.Text;
    PartsHere(w, s);
    var i := |w.blanks|;
    AfterSign(w, s, base, radix);
    if w.sign != Unsigned {
      HereFirst(s, i, w.sign.Text());
    }
    forall k | 0 <= k < i ensures IsSpace(s[k]) {
      HereChar(s, 0, w.blanks, k);
    }
    SpacesSkipped(s, 0, i);
    PrefixLength(w.prefix);
  }

  lemma PrefixLength(p: Prefix)
    ensures |p.Text()| == if p == NoPrefix then 0 else 2
  {
  }

  predicate AnyX(c: char) {
    c == 'x' || c == 'X'
  }

  // What stands behind the sign: a digit, and an x behind it only in a prefix.
  lemma AfterSign(w: Written, s: CString, base: int, radix: nat)
    requires s == w.Text() && w.Proper(base, radix)
    ensures var j := |w.blanks| + |w.sign.Text()|;
      && j < |s| && DigitValue(s[j]) >= 0 && !IsSpace(s[j]) && s[j] != '-' && s[j] != '+'
      && (w.prefix != NoPrefix ==> s[j] == '0' && AnyX(At(s, j + 1)))
      && (w.prefix == NoPrefix ==> s[j] == w.digits[0])
      && (w.prefix == NoPrefix && (base == 0 || base == 16) ==> !(s[j] == '0' && AnyX(At(s, j + 1))))
  {
    hide Here, Written.Text, Sign.Text, DigitValue, IsSpace;
    PartsHere(w, s);
    var j, rest := |w.blanks| + |w.sign.Text()|, w.digits + w.tail;
    if w.prefix != NoPrefix {
      HereChar(s, j, w.prefix.Text(), 0);
      HereChar(s, j, w.prefix.Text(), 1);
      ZeroIsDigit();
    } else {
      HereChar(s, j, rest, 0);
      if |rest| > 1 {
        HereChar(s, j, rest, 1);
      }
    }
    DigitNoSpace(s[j]);
  }

  lemma ZeroIsDigit()
    ensures DigitValue('0') == 0
  {
  }

  lemma DigitNoSpace(c: char)
    requires DigitValue(c) >= 0
    ensures !IsSpace(c) && c != '-' && c != '+'
  {
  }

  /** The digits of a written number are all read, and nothing behind them. */
  lemma WrittenDigits(w: Written, s: CString, base: int, radix: nat)
    requires s == w.Text() && w.Proper(base, radix)
    ensures forall k | 0 <= k < |w.digits| :: NUL < w.digits[k] < 256 as char && IsDigitIn(w.digits[k], radix)
    ensures w.digits != ""
    ensures var start, d: CString := w.Start(), w.digits;
      && DigitsEnd(s, start, radix) == start + |d| == |s| - |w.tail|
      && ValueOf(s, start, start + |d|, radix) == ValueOf(d, 0, |d|, radix)
  {
    hide IsDigitIn, Here, ValueOf, DigitsEnd, Written.Text, Sign.Text, Prefix.Text;
    PartsHere(w, s);
    if w.tail != "" {
      HereFirst(s, w.Start() + |w.digits|, w.tail);
    }
    DigitsHere(s, w.Start(), w.digits, radix);
  }

  lemma DigitsHere(s: CString, start: nat, d: CString, radix: nat)
    requires Here(s, start, d) && (forall k | 0 <= k < |d| :: IsDigitIn(d[k], radix))
    requires start + |d| < |s| ==> !IsDigitIn(s[start + |d|], radix)
    ensures DigitsEnd(s, start, radix) == start + |d|
    ensures ValueOf(s, start, start + |d|, radix) == ValueOf(d, 0, |d|, radix)
  {
    hide IsDigitIn, Here, ValueOf, DigitsEnd;
    forall k | 0 <= k < |d| ensures s[start + k] == d[k] {
      HereChar(s, start, d, k);
    }
    forall k | start <= k < start + |d| ensures IsDigitIn(s[k], radix) {
      assert s[start + (k - start)] == d[k - start];
    }
    DigitsBetween(s, start, start + |d|, radix);
    ValueElsewhere(s, start, d, |d|, radix);
  }

  /** x, or the nearer end of the range, and whether it had to be. */
  function Clamped(x: int, end: nat): Parsed {
    if x > LLONG_MAX then Parsed(LLONG_MAX, end, true)
    else if x < LLONG_MIN then Parsed(LLONG_MIN, end, true)
    else Parsed(x, end, false)
  }

  /** A written number is parsed up to what stands behind it. strtoll gives the number with its sign, or the nearer
      bound with ERANGE; strtoull gives ULLONG_MAX with ERANGE when the digits spell more, and otherwise the number,
      or what is left of its negative modulo 2^64. */
  lemma WrittenParsed(w: Written, s: CString, base: int, radix: nat)
    requires s == w.Text() && w.Proper(base, radix)
    ensures forall k | 0 <= k < |w.digits| :: NUL < w.digits[k] < 256 as char
    ensures var d: CString, end := w.digits, |s| - |w.tail|;
      var v := ValueOf(d, 0, |d|, radix);
      && Strtoll(s, base) == Clamped(w.Signed(v), end)
      && Strtoull(s, base) ==
           if v > ULLONG_MAX then Parsed(ULLONG_MAX, end, true)
           else Parsed(w.Signed(v) % TWO64, end, false)
  {
    hide IsDigitIn, ValueOf, DigitsEnd, HeadOf, Written.Text, Written.Proper;
    WrittenHead(w, s, base, radix);
    WrittenDigits(w, s, base, radix);
    var d: CString := w.digits;
    var v := ValueOf(d, 0, |d|, radix);
    assert v <= ULLONG_MAX ==> (0 - v) % TWO64 == (if v > 0 then TWO64 - v else 0) && v % TWO64 == v;
  }

  // Zeros before its digits do not change a number.
  lemma {:induction false} ZerosIgnored(n: nat, t: CString, z: CString, base: nat)
    requires z == ZerosBefore(n, t) && base >= 1 && forall k | 0 <= k < |t| :: IsDigitIn(t[k], base)
    ensures forall k | 0 <= k < |z| :: IsDigitIn(z[k], base)
    ensures ValueOf(z, 0, |z|, base) == ValueOf(t, 0, |t|, base)
    decreases n
  {
    if n > 0 {
      var y: CString := z[1..];
      assert y == ZerosBefore(n - 1, t) && z == "0" + y;
      ZerosIgnored(n - 1, t, y, base);
      ZeroIgnored(y, z, |z|, base);
    }
  }

  lemma {:induction false} ZeroIgnored(y: CString, z: CString, e: nat, base: nat)
    requires z == "0" + y && base >= 1 && 1 <= e <= |z| && forall k | 0 <= k < |y| :: IsDigitIn(y[k], base)
    ensures forall k | 0 <= k < |z| :: IsDigitIn(z[k], base)
    ensures ValueOf(z, 0, e, base) == ValueOf(y, 0, e - 1, base)
    decreases e
  {
    assert forall k | 0 < k < |z| :: z[k] == y[k - 1];
    if e > 1 {
      ZeroIgnored(y, z, e - 1, base);
    } else {
      assert ValueOf(z, 0, 0, base) == 0;
    }
  }

  /** So the usual numeral of a number, in either case and with any zeros before it, is parsed as the number. */
  lemma NumeralParsed(w: Written, s: CString, base: int, radix: nat, zeros: nat, val: nat, upper: bool)
    requires 2 <= radix <= 36 && w.digits == ZerosBefore(zeros, Numeral(val, radix, upper))
    requires s == w.Text() && w.Proper(base, radix)
    ensures |w.tail| <= |s| && Strtoll(s, base) == Clamped(w.Signed(val), |s| - |w.tail|)
    ensures Strtoull(s, base) ==
      if val > ULLONG_MAX then Parsed(ULLONG_MAX, |s| - |w.tail|, true)
      else Parsed(w.Signed(val) % TWO64, |s| - |w.tail|, false)
  {
    hide IsDigitIn, ValueOf, Numeral, Strtoll, Strtoull;
    WrittenParsed(w, s, base, radix);
    var t := Numeral(val, radix, upper);
    NumeralValue(val, radix, upper);
    ZerosIgnored(zeros, t, w.digits, radix);
  }
}
