/** The meaning of a regular expression, independent of how it is compiled or run.

    `Regex` is the tree that a node array of regcomp denotes; `Matches(s, r, i, j)` says that
    `r` matches the subject text from position `i` to position `j`: CONCAT is composition,
    ALT is union, STAR is the reflexive-transitive closure, and the two anchors are guarded
    identities. */
module RegexSemantics {
  import opened CStrings

  datatype Atom =
    | Chr(c: int)
    | Any
    | Bol
    | Eol
    | Bracket(first: int, last: int)
    | Backref(id: int)
    | GroupEnd(id: int)

  datatype Regex =
    | Empty
    | Leaf(atom: Atom)
    | Concat(left: Regex, right: Regex)
    | Alt(left: Regex, right: Regex)
    | Star(body: Regex)
    | Group(gid: int, body: Regex)

  /** What a match depends on besides the expression: the text, the flags of regcomp and
      regexec, and which characters each bracket expression (named by its source range) admits. */
  datatype Subject = Subject(
    text: string,
    icase: bool,
    newline: bool,
    notBol: bool,
    notEol: bool,
    brackets: set<(int, int, char)>)

  // tolower of the C locale, on character codes.
  function ToLower(c: int): int {
    if 'A' as int <= c <= 'Z' as int then c + 32 else c
  }

  predicate CharMatches(s: Subject, x: char, v: int) {
    if s.icase then ToLower(x as int) == ToLower(v) else x as int == v
  }

  /** The two characters are the two cases of the k-th letter. */
  predicate TwoCases(x: char, v: char, k: nat) {
    k < 26 && ((x == UPPER[k] && v == LOWER[k]) || (x == LOWER[k] && v == UPPER[k]))
  }

  lemma CaseIgnored(s: Subject, x: char, v: char)
    ensures CharMatches(s, x, v as int) <==> x == v || (s.icase && exists k: nat :: TwoCases(x, v, k))
  {
    hide UPPER, LOWER;
    if s.icase && x != v && CharMatches(s, x, v as int) {
      var k: nat := (if IsUpper(x) then x else v) as int - 'A' as int;
      LetterIs(k);
      assert TwoCases(x, v, k);
    }
    if k: nat :| TwoCases(x, v, k) {
      LetterIs(k);
    }
  }

  lemma LetterIs(k: nat)
    requires k < 26
    ensures UPPER[k] as int == 'A' as int + k && LOWER[k] as int == 'a' as int + k
  {
  }

  predicate AnyMatches(s: Subject, x: char) {
    !(s.newline && x == '\n')
  }

  predicate BracketMatches(s: Subject, first: int, last: int, x: char) {
    (first, last, x) in s.brackets
  }

  predicate AtBol(s: Subject, i: nat)
    requires i <= |s.text|
  {
    if i == 0 then !s.notBol else s.newline && s.text[i - 1] == '\n'
  }

  predicate AtEol(s: Subject, i: nat)
    requires i <= |s.text|
  {
    if i == |s.text| then !s.notEol else s.newline && s.text[i] == '\n'
  }

  predicate AtomMatches(s: Subject, a: Atom, i: nat, j: nat)
    requires i <= |s.text|
  {
    match a
    case Chr(c) => i < |s.text| && j == i + 1 && CharMatches(s, s.text[i], c)
    case Any => i < |s.text| && j == i + 1 && AnyMatches(s, s.text[i])
    case Bol => i == j && AtBol(s, i)
    case Eol => i == j && AtEol(s, i)
    case Bracket(first, last) => i < |s.text| && j == i + 1 && BracketMatches(s, first, last, s.text[i])
    case Backref(_) => false
    case GroupEnd(_) => i == j
  }

  ghost predicate Matches(s: Subject, r: Regex, i: nat, j: nat)
    requires i <= |s.text|
    decreases r, 0
  {
    match r
    case Empty => i == j
    case Leaf(a) => AtomMatches(s, a, i, j)
    case Concat(a, b) => exists k: nat :: k <= |s.text| && Matches(s, a, i, k) && Matches(s, b, k, j)
    case Alt(a, b) => Matches(s, a, i, j) || Matches(s, b, i, j)
    case Star(b) => exists n: nat :: Power(s, b, n, i, j)
    case Group(_, b) => Matches(s, b, i, j)
  }

  /** The n-fold composition of `Matches(s, r, _, _)` with itself. */
  ghost predicate Power(s: Subject, r: Regex, n: nat, i: nat, j: nat)
    requires i <= |s.text|
    decreases r, n
  {
    if n == 0 then i == j
    else exists k: nat :: k <= |s.text| && Matches(s, r, i, k) && Power(s, r, n - 1, k, j)
  }

  /** The first factor of a power. */
  lemma PowerCut(s: Subject, r: Regex, n: nat, i: nat, j: nat) returns (k: nat)
    requires i <= |s.text| && n > 0 && Power(s, r, n, i, j)
    ensures k <= |s.text| && Matches(s, r, i, k) && Power(s, r, n - 1, k, j)
  {
    k :| k <= |s.text| && Matches(s, r, i, k) && Power(s, r, n - 1, k, j);
  }

  lemma PowerCons(s: Subject, r: Regex, n: nat, i: nat, k: nat, j: nat)
    requires i <= |s.text| && k <= |s.text|
    requires Matches(s, r, i, k) && Power(s, r, n, k, j)
    ensures Power(s, r, n + 1, i, j)
  {
  }

  lemma PowerNone(s: Subject, r: Regex, i: nat, j: nat)
    requires i <= |s.text|
    ensures Power(s, r, 0, i, j) <==> i == j
  {
  }

  lemma ConcatCut(s: Subject, a: Regex, b: Regex, i: nat, j: nat) returns (k: nat)
    requires i <= |s.text| && Matches(s, Concat(a, b), i, j)
    ensures k <= |s.text| && Matches(s, a, i, k) && Matches(s, b, k, j)
  {
    k :| k <= |s.text| && Matches(s, a, i, k) && Matches(s, b, k, j);
  }

  lemma ConcatJoin(s: Subject, a: Regex, b: Regex, i: nat, k: nat, j: nat)
    requires i <= |s.text| && k <= |s.text| && Matches(s, a, i, k) && Matches(s, b, k, j)
    ensures Matches(s, Concat(a, b), i, j)
  {
  }

  lemma StarCut(s: Subject, b: Regex, i: nat, j: nat) returns (n: nat)
    requires i <= |s.text| && Matches(s, Star(b), i, j)
    ensures Power(s, b, n, i, j)
  {
    n :| Power(s, b, n, i, j);
  }

  lemma StarFrom(s: Subject, b: Regex, n: nat, i: nat, j: nat)
    requires i <= |s.text| && Power(s, b, n, i, j)
    ensures Matches(s, Star(b), i, j)
  {
  }

  predicate NoBackref(r: Regex) {
    match r
    case Empty => true
    case Leaf(a) => !a.Backref?
    case Concat(a, b) => NoBackref(a) && NoBackref(b)
    case Alt(a, b) => NoBackref(a) && NoBackref(b)
    case Star(b) => NoBackref(b)
    case Group(_, b) => NoBackref(b)
  }

  /** A match never moves left and never leaves the text. */
  lemma {:induction false} MatchSpan(s: Subject, r: Regex, i: nat, j: nat)
    requires i <= |s.text|
    requires Matches(s, r, i, j)
    ensures i <= j <= |s.text|
    decreases r, 0
  {
    match r
    case Empty =>
    case Leaf(_) =>
    case Concat(a, b) =>
      var k: nat :| k <= |s.text| && Matches(s, a, i, k) && Matches(s, b, k, j);
      MatchSpan(s, a, i, k);
      MatchSpan(s, b, k, j);
    case Alt(a, b) =>
      if Matches(s, a, i, j) { MatchSpan(s, a, i, j); } else { MatchSpan(s, b, i, j); }
    case Star(b) =>
      var n: nat :| Power(s, b, n, i, j);
      PowerSpan(s, b, n, i, j);
    case Group(_, b) => MatchSpan(s, b, i, j);
  }

  lemma {:induction false} PowerSpan(s: Subject, r: Regex, n: nat, i: nat, j: nat)
    requires i <= |s.text|
    requires Power(s, r, n, i, j)
    ensures i <= j <= |s.text|
    decreases r, n
  {
    if n > 0 {
      var k: nat :| k <= |s.text| && Matches(s, r, i, k) && Power(s, r, n - 1, k, j);
      MatchSpan(s, r, i, k);
      PowerSpan(s, r, n - 1, k, j);
    }
  }
}
