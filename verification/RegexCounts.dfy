/** When the repeat counts of a pattern fit an int: then what regcomp does is defined. */
module RegexCounts {
  import opened RegexGrammar
  import opened RegexVerdict
  import opened CStrings

  /** No run of digits spells more than an int holds. */
  predicate CountsFit(pat: CString) {
    forall pos | 0 <= pos <= |pat| :: Digits(pat, pos, 0).1 <= INT_MAX
  }

  predicate Defined(p: Parse) {
    p.Fail? ==> p.err != OVERFLOW
  }

  lemma BoundsDefined(pat: CString, pos: nat, ere: bool)
    requires pos <= |pat| && CountsFit(pat)
    ensures var b := BoundsAt(pat, pos, ere); b.BadBounds? ==> b.err == REG_BADBR
  {
  }

  lemma {:induction false} EreDefined(pat: CString, pos: nat, depth: nat, can: bool)
    requires pos <= |pat| && CountsFit(pat)
    ensures EreVerdict(pat, pos, depth, can) != OVERFLOW
    decreases |pat| - pos
  {
    hide CountsFit, BoundsAt, BracketAt;
    forall next: nat, d: nat, c: bool | pos < next <= |pat| ensures EreVerdict(pat, next, d, c) != OVERFLOW {
      EreDefined(pat, next, d, c);
    }
    if pos < |pat| {
      BoundsDefined(pat, pos + 1, true);
    }
  }

  lemma {:induction false} BreDefined(pat: CString, pos: nat, depth: nat, gid: nat, can: bool)
    requires pos <= |pat| && CountsFit(pat)
    ensures BreVerdict(pat, pos, depth, gid, can) != OVERFLOW
    decreases |pat| - pos
  {
    hide CountsFit, BoundsAt, BracketAt;
    forall next: nat, d: nat, g: nat, c: bool | pos < next <= |pat|
      ensures BreVerdict(pat, next, d, g, c) != OVERFLOW
    {
      BreDefined(pat, next, d, g, c);
    }
    if pos + 2 <= |pat| {
      BoundsDefined(pat, pos + 2, false);
    }
  }

  /** Then compiling the pattern never overflows an int: it yields a tree or one of the error codes. */
  lemma PatternDefined(pat: CString, ere: bool)
    requires CountsFit(pat)
    ensures Defined(Pattern(pat, ere))
  {
    hide CountsFit, Pattern, EreVerdict, BreVerdict;
    VerdictRight(pat, ere);
    if ere {
      EreDefined(pat, 0, 0, false);
    } else {
      BreDefined(pat, 0, 0, 0, false);
    }
  }
}
