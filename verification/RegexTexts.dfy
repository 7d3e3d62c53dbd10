/** Repeat counts and bracket expressions in the text of a pattern. */
module RegexTexts {
  import opened RegexSemantics
  import opened RegexGrammar
  import opened CStrings
  import opened Numerals

  // ---- numbers and bounds

  /** The text from a to b is a decimal number, and its value is n. */
  predicate SpellsNumber(pat: CString, a: nat, b: nat, n: nat) {
    a < b <= |pat| && (forall k | a <= k < b :: IsDigitIn(pat[k], 10)) && ValueOf(pat, a, b, 10) == n
  }

  /** The text from a to b is a number, a number and a comma, or two numbers. */
  predicate BoundCut(pat: CString, a: nat, b: nat, min: nat, max: int, comma: nat)
    requires b <= |pat|
  {
    && a < comma <= b && SpellsNumber(pat, a, comma, min)
    && if comma == b then max == min
       else pat[comma] == ',' && if comma + 1 == b then max == -1 else max >= 0 && SpellsNumber(pat, comma + 1, b, max)
  }

  ghost predicate SpellsBound(pat: CString, a: nat, b: nat, min: nat, max: int)
    requires b <= |pat|
  {
    exists comma: nat :: BoundCut(pat, a, b, min, max, comma)
  }

  predicate SmallBound(min: nat, max: int) {
    min <= MAX_COUNT && (max == -1 || min <= max <= MAX_COUNT)
  }

  // What closes a bound.
  predicate Closes(pat: CString, p: nat, ere: bool) {
    p < |pat| && if ere then pat[p] == '}' else pat[p] == '\\' && At(pat, p + 1) == '}'
  }

  lemma DecimalDigit(c: char)
    ensures IsDigitIn(c, 10) <==> IsDigit(c)
    ensures IsDigit(c) ==> DigitValue(c) == c as int - '0' as int
  {
  }

  lemma {:induction false} DigitsOn(pat: CString, pos: nat, k: nat)
    requires pos <= k <= |pat| && forall i | pos <= i < k :: IsDigitIn(pat[i], 10)
    ensures var (e, v) := Digits(pat, k, ValueOf(pat, pos, k, 10));
      && k <= e <= |pat| && (forall i | pos <= i < e :: IsDigitIn(pat[i], 10)) && !IsDigit(At(pat, e))
      && v == ValueOf(pat, pos, e, 10)
    decreases |pat| - k
  {
    hide IsDigitIn, DigitValue;
    DecimalDigit(At(pat, k));
    if IsDigit(At(pat, k)) {
      DigitsOn(pat, pos, k + 1);
    }
  }

  /** The digits found at a position are the number spelled there. */
  lemma NumberAt(pat: CString, pos: nat, e: nat, n: nat)
    requires pos <= |pat|
    ensures Digits(pat, pos, 0) == (e, n) && pos < e <==> SpellsNumber(pat, pos, e, n) && !IsDigit(At(pat, e))
  {
    hide IsDigitIn, DigitValue, Digits;
    DigitsOn(pat, pos, pos);
    assert ValueOf(pat, pos, pos, 10) == 0;
    var (d, v) := Digits(pat, pos, 0);
    if SpellsNumber(pat, pos, e, n) && !IsDigit(At(pat, e)) {
      if d < e {
        DecimalDigit(pat[d]);
      } else if e < d {
        DecimalDigit(pat[e]);
      }
    }
  }

  /** The text from `pos` on spells the bound, up to what closes it before `end`, and the counts are small enough. */
  ghost predicate BoundTo(pat: CString, pos: nat, ere: bool, min: nat, max: int, end: nat) {
    && end <= |pat| && SmallBound(min, max) && pos + (if ere then 1 else 2) <= end
    && var close := if ere then end - 1 else end - 2;
    && Closes(pat, close, ere) && SpellsBound(pat, pos, close, min, max)
  }

  /** Exactly then a bound is read. */
  lemma BoundRead(pat: CString, pos: nat, ere: bool, min: nat, max: int, end: nat)
    requires pos <= |pat|
    ensures BoundsAt(pat, pos, ere) == Between(min, max, end) <==> BoundTo(pat, pos, ere, min, max, end)
  {
    hide Digits, SpellsNumber;
    var close := if ere then end - 1 else end - 2;
    if BoundsAt(pat, pos, ere) == Between(min, max, end) {
      var comma := Digits(pat, pos, 0).0;
      NumberAt(pat, pos, comma, min);
      if At(pat, comma) == ',' && max != -1 {
        NumberAt(pat, comma + 1, close, max);
      }
      assert BoundCut(pat, pos, close, min, max, comma);
    } else if BoundTo(pat, pos, ere, min, max, end) {
      var comma: nat :| BoundCut(pat, pos, close, min, max, comma);
      CutRead(pat, pos, ere, min, max, close, comma);
    }
  }

  /** Where the text spells no such bound the error is REG_BADBR, unless a count is too large for an int. */
  lemma BoundFails(pat: CString, pos: nat, ere: bool)
    requires pos <= |pat|
    ensures BoundsAt(pat, pos, ere).BadBounds? <==>
      forall min: nat, max: int, end: nat :: !BoundTo(pat, pos, ere, min, max, end)
    ensures var b := BoundsAt(pat, pos, ere);
      b.BadBounds? && b.err != REG_BADBR ==>
        b.err == OVERFLOW && exists a: nat, e: nat, n: nat :: SpellsNumber(pat, a, e, n) && n > INT_MAX
  {
    hide Digits, SpellsNumber, BoundTo;
    forall min: nat, max: int, end: nat
      ensures BoundsAt(pat, pos, ere) == Between(min, max, end) <==> BoundTo(pat, pos, ere, min, max, end)
    {
      BoundRead(pat, pos, ere, min, max, end);
    }
    var (p1, min) := Digits(pat, pos, 0);
    if p1 > pos {
      NumberAt(pat, pos, p1, min);
    }
    if At(pat, p1) == ',' {
      var (p2, max) := Digits(pat, p1 + 1, 0);
      if p2 > p1 + 1 {
        NumberAt(pat, p1 + 1, p2, max);
      } else {
        NoNumber(pat, p1 + 1);
      }
    }
  }

  lemma CutRead(pat: CString, pos: nat, ere: bool, min: nat, max: int, close: nat, comma: nat)
    requires pos <= close <= |pat| && Closes(pat, close, ere) && SmallBound(min, max)
    requires BoundCut(pat, pos, close, min, max, comma)
    ensures BoundsAt(pat, pos, ere) == Between(min, max, close + if ere then 1 else 2)
  {
    hide Digits, SpellsNumber;
    NumberAt(pat, pos, comma, min);
    if comma < close {
      if max == -1 {
        NoNumber(pat, close);
      } else {
        NumberAt(pat, comma + 1, close, max);
      }
    }
  }

  lemma NoNumber(pat: CString, pos: nat)
    requires pos <= |pat| && (!IsDigit(At(pat, pos)) || Digits(pat, pos, 0).0 == pos)
    ensures Digits(pat, pos, 0) == (pos, 0)
  {
  }

  // ---- bracket expressions: what stands behind the closing bracket does not change how they are read

  lemma {:induction false} SameClassEnd(pat: CString, pos: nat, t: CString, k: nat, c: char)
    requires Here(pat, pos, t) && k <= |t| && (ClassEnd(t, k, c) < |t| || ClassEnd(pat, pos + k, c) + 2 <= pos + |t|)
    ensures ClassEnd(pat, pos + k, c) == pos + ClassEnd(t, k, c) && ClassEnd(t, k, c) < |t|
    decreases |t| - k
  {
    hide Here;
    if k < |t| {
      HereChar(pat, pos, t, k);
      if k + 1 < |t| {
        HereChar(pat, pos, t, k + 1);
      }
      if t[k] != c || At(t, k + 1) != ']' {
        SameClassEnd(pat, pos, t, k + 1, c);
      }
    }
  }

  lemma SameStretch(pat: CString, pos: nat, t: CString, a: nat, b: nat)
    requires Here(pat, pos, t) && a <= b <= |t|
    ensures pat[pos + a..pos + b] == t[a..b]
  {
    forall k | 0 <= k < b - a ensures pat[pos + a..pos + b][k] == t[a..b][k] {
      HereChar(pat, pos, t, a + k);
    }
  }

  // A class at k, which both scans skip in the same way.
  lemma SameClass(pat: CString, pos: nat, t: CString, k: nat, last: int)
    requires Here(pat, pos, t) && k + 1 < |t| && OpensClass(t, k)
    requires Members(t, k, last) == ScanTo(|t| - 1) || Members(pat, pos + k, last) == ScanTo(pos + |t| - 1)
    ensures var end := ClassEnd(t, k + 2, t[k + 1]);
      && end + 2 <= |t| && OpensClass(pat, pos + k)
      && Members(t, k, last) == Members(t, end + 2, -1)
      && Members(pat, pos + k, last) == Members(pat, pos + end + 2, -1)
  {
    hide Here, ClassEnd, CLASSES;
    HereChar(pat, pos, t, k);
    HereChar(pat, pos, t, k + 1);
    var c := t[k + 1];
    SameClassEnd(pat, pos, t, k + 2, c);
    SameStretch(pat, pos, t, k + 2, ClassEnd(t, k + 2, c));
  }

  // Any other member at k but the last, likewise.
  lemma SameChar(pat: CString, pos: nat, t: CString, k: nat, last: int) returns (next: nat, last': int)
    requires Here(pat, pos, t) && k + 1 < |t| && t[k] != ']' && !OpensClass(t, k)
    ensures k < next <= |t| && Members(t, k, last) == Members(t, next, last')
    ensures Members(pat, pos + k, last) == Members(pat, pos + next, last')
  {
    hide Here, ClassEnd, SignedChar, CLASSES;
    HereChar(pat, pos, t, k);
    HereChar(pat, pos, t, k + 1);
    if t[k] == '-' && t[k + 1] != ']' && last != -1 {
      next, last' := k + 2, -1;
    } else {
      next, last' := k + 1, SignedChar(t[k]);
    }
  }

  lemma {:induction false} SameMembers(pat: CString, pos: nat, t: CString, k: nat, last: int)
    requires Here(pat, pos, t) && k <= |t| && t != ""
    requires Members(t, k, last) == ScanTo(|t| - 1) || Members(pat, pos + k, last) == ScanTo(pos + |t| - 1)
    ensures Members(pat, pos + k, last) == ScanTo(pos + |t| - 1) && Members(t, k, last) == ScanTo(|t| - 1)
    decreases |t| - k
  {
    hide Here, ClassEnd, SignedChar, CLASSES;
    assert k < |t|;
    HereChar(pat, pos, t, k);
    if t[k] != ']' {
      assert k + 1 < |t|;
      hide Members;
      if OpensClass(t, k) {
        SameClass(pat, pos, t, k, last);
        SameMembers(pat, pos, t, ClassEnd(t, k + 2, t[k + 1]) + 2, -1);
      } else {
        var next, last' := SameChar(pat, pos, t, k, last);
        SameMembers(pat, pos, t, next, last');
      }
    }
  }

  /** The text of a bracket expression that is closed, with only classes that exist. */
  predicate BracketText(text: string) {
    && (forall k | 0 <= k < |text| :: NUL < text[k] < 256 as char)
    && var t: CString := "[" + text + "]";
      BracketAt(t, 0, 0) == Done(|t|, 0, Leaf(Bracket(0, |t| - 1)))
  }

  /** A bracket expression is read where it stands exactly as it would be alone. */
  lemma BracketRead(pat: CString, pos: nat, text: string, gid: nat)
    requires Here(pat, pos, "[" + text + "]")
    ensures pos < |pat| && pat[pos] == '['
    ensures BracketAt(pat, pos, gid) == Done(pos + |text| + 2, gid, Leaf(Bracket(pos, pos + |text| + 1)))
      <==> BracketText(text)
  {
    hide Here, Members;
    var t := "[" + text + "]";
    BracketChars(pat, pos, text);
    HereChar(pat, pos, t, 0);
    HereChar(pat, pos, t, 1);
    var k := if t[1] == '^' then 2 else 1;
    if k < |t| {
      HereChar(pat, pos, t, k);
      var k' := if t[k] == ']' then k + 1 else k;
      if Members(t, k', -1) == ScanTo(|t| - 1) || Members(pat, pos + k', -1) == ScanTo(pos + |t| - 1) {
        SameMembers(pat, pos, t, k', -1);
      }
    }
  }

  lemma BracketChars(pat: CString, pos: nat, text: string)
    requires Here(pat, pos, "[" + text + "]")
    ensures forall k | 0 <= k < |text| :: NUL < text[k] < 256 as char
  {
    forall k | 0 <= k < |text| ensures NUL < text[k] < 256 as char {
      HereChar(pat, pos, "[" + text + "]", k + 1);
    }
  }

  /** What is read as a bracket expression is the text between its brackets. */
  lemma BracketIs(pat: CString, pos: nat, gid: nat) returns (text: string)
    requires pos < |pat| && pat[pos] == '[' && BracketAt(pat, pos, gid).Done?
    ensures Here(pat, pos, "[" + text + "]") && BracketText(text)
    ensures BracketAt(pat, pos, gid) == Done(pos + |text| + 2, gid, Leaf(Bracket(pos, pos + |text| + 1)))
  {
    var end := BracketAt(pat, pos, gid).pos;
    text := pat[pos + 1..end - 1];
    var t := "[" + text + "]";
    assert |t| == end - pos && t[0] == pat[pos] && t[end - pos - 1] == pat[end - 1];
    assert forall k | 0 < k < end - pos - 1 :: t[k] == text[k - 1] == pat[pos + k];
    assert pat[pos..end] == t;
    BracketRead(pat, pos, text, gid);
  }
}
