/** C strings, and the character classes of the C locale. */
module CStrings {

  const NUL: char := '\0'

  /** A C string without its terminator. */
  type CString = s: string | forall i | 0 <= i < |s| :: NUL < s[i] < 256 as char

  /** The character the C code reads at `i`; nothing beyond the terminator is ever read. */
  function At(s: CString, i: nat): (c: char)
    requires i <= |s|
    ensures c == NUL <==> i == |s|
  {
    if i < |s| then s[i] else NUL
  }

  // A C char, as the int it converts to.
  function SignedChar(c: char): int {
    if c < 128 as char then c as int else c as int - 256
  }

  // ---- ctype.h

  predicate IsDigit(c: char) {
    '0' <= c <= '9'
  }

  predicate IsUpper(c: char) {
    'A' <= c <= 'Z'
  }

  predicate IsLower(c: char) {
    'a' <= c <= 'z'
  }

  predicate IsAlpha(c: char) {
    IsUpper(c) || IsLower(c)
  }

  predicate IsAlnum(c: char) {
    IsAlpha(c) || IsDigit(c)
  }

  predicate IsBlank(c: char) {
    c == ' ' || c == '\t'
  }

  predicate IsSpace(c: char) {
    c == ' ' || 9 as char <= c <= 13 as char
  }

  predicate IsCntrl(c: char) {
    c <= 31 as char || c == 127 as char
  }

  predicate IsGraph(c: char) {
    '!' <= c <= '~'
  }

  predicate IsPrint(c: char) {
    ' ' <= c <= '~'
  }

  predicate IsPunct(c: char) {
    IsGraph(c) && !IsAlnum(c)
  }

  predicate IsXdigit(c: char) {
    IsDigit(c) || 'A' <= c <= 'F' || 'a' <= c <= 'f'
  }

  // ---- the same, character by character, as section 7.3.1 of POSIX.1-2017 Base Definitions lists them

  const UPPER := "ABCDEFGHIJKLMNOPQRSTUVWXYZ"
  const LOWER := "abcdefghijklmnopqrstuvwxyz"
  const DIGITS := "0123456789"

  lemma UpperListed(c: char)
    ensures IsUpper(c) <==> c in UPPER
  {
    assert IsUpper(c) ==> UPPER[c as int - 'A' as int] == c;
  }

  lemma LowerListed(c: char)
    ensures IsLower(c) <==> c in LOWER
  {
    assert IsLower(c) ==> LOWER[c as int - 'a' as int] == c;
  }

  lemma DigitListed(c: char)
    ensures IsDigit(c) <==> c in DIGITS
    ensures IsXdigit(c) <==> c in DIGITS || c in "ABCDEFabcdef"
  {
    assert IsDigit(c) ==> DIGITS[c as int - '0' as int] == c;
    assert 'A' <= c <= 'F' ==> "ABCDEFabcdef"[c as int - 'A' as int] == c;
    assert 'a' <= c <= 'f' ==> "ABCDEFabcdef"[c as int - 'a' as int + 6] == c;
  }

  lemma PunctListed(c: char)
    ensures IsPunct(c) <==> c in "!\"#$%&'()*+,-./" || c in ":;<=>?@" || c in "[\\]^_`" || c in "{|}~"
  {
    assert '!' <= c <= '/' ==> "!\"#$%&'()*+,-./"[c as int - '!' as int] == c;
  }

  lemma SpaceListed(c: char)
    ensures IsBlank(c) <==> c in " \t"
    ensures IsSpace(c) <==> c in " \t\n\r" || c as int == 11 || c as int == 12
  {
  }

  /** The other classes: alpha is upper and lower, alnum alpha and digit, graph alnum and punct, print graph and the
      space, and cntrl the ASCII characters that are not print. */
  lemma OthersMade(c: char)
    ensures IsAlpha(c) <==> IsUpper(c) || IsLower(c)
    ensures IsAlnum(c) <==> IsAlpha(c) || IsDigit(c)
    ensures IsGraph(c) <==> IsAlnum(c) || IsPunct(c)
    ensures IsPrint(c) <==> IsGraph(c) || c == ' '
    ensures IsCntrl(c) <==> c < 128 as char && !IsPrint(c)
  {
  }

  // ---- [: :], [. .] and [= =] inside bracket expressions

  predicate OpensClass(s: CString, pos: nat)
    requires pos <= |s|
  {
    At(s, pos) == '[' && (At(s, pos + 1) == ':' || At(s, pos + 1) == '.' || At(s, pos + 1) == '=')
  }

  /** The position of the `t]` that closes a class, or of the terminator. */
  function ClassEnd(s: CString, pos: nat, t: char): (end: nat)
    requires pos <= |s|
    ensures pos <= end <= |s| && (end < |s| ==> end + 2 <= |s|)
    decreases |s| - pos
  {
    if pos == |s| || (s[pos] == t && At(s, pos + 1) == ']') then pos else ClassEnd(s, pos + 1, t)
  }

  const CLASSES: set<string> := {
    "alnum", "alpha", "blank", "cntrl", "digit", "graph",
    "lower", "print", "punct", "space", "upper", "xdigit"}

  // ---- a text at a position of a string

  /** The text t stands in s at `pos`. */
  predicate Here(s: CString, pos: nat, t: string): (here: bool)
    ensures here ==> pos + |t| <= |s|
  {
    pos + |t| <= |s| && s[pos..pos + |t|] == t
  }

  lemma HereSplit(s: CString, pos: nat, a: string, b: string)
    requires Here(s, pos, a + b)
    ensures Here(s, pos, a) && Here(s, pos + |a|, b)
  {
    var t := s[pos..pos + |a + b|];
    assert t[..|a|] == a && t[|a|..] == b;
  }

  lemma HereChar(s: CString, pos: nat, t: string, k: nat)
    requires Here(s, pos, t) && k < |t|
    ensures At(s, pos + k) == t[k]
  {
    assert s[pos..pos + |t|][k] == t[k];
  }

  lemma HereFirst(s: CString, pos: nat, t: string)
    requires Here(s, pos, t) && |t| > 0
    ensures At(s, pos) == t[0]
  {
    HereChar(s, pos, t, 0);
  }
}
