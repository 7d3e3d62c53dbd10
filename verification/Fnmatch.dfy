/** fnmatch: the backtracking matcher against what a pattern means, a way to cut the string into
    one piece for each token of the pattern. */
module Fnmatch {
  import opened CStrings

  const FNM_NOMATCH: int := 1

  /** FNM_NOESCAPE, FNM_PATHNAME, FNM_PERIOD. */
  datatype Flags = Flags(noEscape: bool, pathname: bool, period: bool)

  /** What a pattern is made of. A bracket holds the members between `first` and `close`; `Never` is a
      backslash with nothing behind it. */
  datatype Token = Literal(c: char) | One | Bracket(first: nat, close: nat, negated: bool) | Star | Never

  // ---- bracket expressions

  // Where the member at `p` ends, for finding the closing bracket: classes are skipped whole.
  function NextMember(pat: CString, p: nat): (n: nat)
    requires p < |pat|
    ensures p < n <= |pat|
  {
    if OpensClass(pat, p) then
      var e := ClassEnd(pat, p + 2, pat[p + 1]);
      if e < |pat| then e + 2 else e
    else p + 1
  }

  /** The position of the bracket that closes an expression, or of the terminator. */
  function CloseFrom(pat: CString, p: nat): (e: nat)
    requires p <= |pat|
    ensures p <= e <= |pat| && (e < |pat| ==> pat[e] == ']')
    decreases |pat| - p
  {
    if p == |pat| || pat[p] == ']' then p else CloseFrom(pat, NextMember(pat, p))
  }

  // A first ']' or '-' is a member.
  function AfterFirst(pat: CString, p: nat): (q: nat)
    requires p <= |pat|
    ensures p <= q <= |pat|
  {
    if At(pat, p) == ']' || At(pat, p) == '-' then p + 1 else p
  }

  predicate Negates(pat: CString, p: nat)
    requires p <= |pat|
  {
    At(pat, p) == '!' || At(pat, p) == '^'
  }

  /** check_class */
  predicate InClass(name: string, c: char) {
    match name
    case "alnum" => IsAlnum(c)
    case "alpha" => IsAlpha(c)
    case "blank" => IsBlank(c)
    case "cntrl" => IsCntrl(c)
    case "digit" => IsDigit(c)
    case "graph" => IsGraph(c)
    case "lower" => IsLower(c)
    case "print" => IsPrint(c)
    case "punct" => IsPunct(c)
    case "space" => IsSpace(c)
    case "upper" => IsUpper(c)
    case "xdigit" => IsXdigit(c)
    case _ => false
  }

  /** What one member contributes: whether it has c, and where the next one starts. */
  datatype Member = Member(has: bool, next: nat)

  function MemberAt(pat: CString, p: nat, close: nat, c: char): (m: Member)
    requires p < close <= |pat|
    ensures p < m.next <= |pat|
  {
    var e := if OpensClass(pat, p) then ClassEnd(pat, p + 2, pat[p + 1]) else |pat|;
    if e < |pat| then
      Member(if pat[p + 1] == ':' then InClass(pat[p + 2..e], c) else e == p + 3 && c == pat[p + 2], e + 2)
    else if p + 1 < close && pat[p + 1] == '-' && p + 2 < close then
      Member(pat[p] <= c <= pat[p + 2], p + 3)
    else Member(c == pat[p], p + 1)
  }

  /** Whether one of the members from `p` on has c. */
  predicate InMembers(pat: CString, p: nat, close: nat, c: char)
    requires p <= |pat| && close <= |pat|
    decreases |pat| - p
  {
    p < close && (MemberAt(pat, p, close, c).has || InMembers(pat, MemberAt(pat, p, close, c).next, close, c))
  }

  predicate InBracket(pat: CString, first: nat, close: nat, c: char)
    requires first <= close <= |pat|
  {
    (AfterFirst(pat, first) != first && c == pat[first]) || InMembers(pat, AfterFirst(pat, first), close, c)
  }

  // ---- the meaning of a pattern

  /** The token at `p`, and where the next one starts. */
  datatype Lexeme = Lexeme(token: Token, next: nat)

  function TokenAt(pat: CString, p: nat, flags: Flags): (l: Lexeme)
    requires p < |pat|
    ensures p < l.next <= |pat|
  {
    if !flags.noEscape && pat[p] == '\\' then
      if p + 1 == |pat| then Lexeme(Never, p + 1) else Lexeme(Literal(pat[p + 1]), p + 2)
    else if pat[p] == '[' then
      var first := if Negates(pat, p + 1) then p + 2 else p + 1;
      var close := CloseFrom(pat, AfterFirst(pat, first));
      if close == |pat| then Lexeme(Literal('['), p + 1)
      else Lexeme(Bracket(first, close, Negates(pat, p + 1)), close + 1)
    else if pat[p] == '?' then Lexeme(One, p + 1)
    else if pat[p] == '*' then Lexeme(Star, p + 1)
    else Lexeme(Literal(pat[p]), p + 1)
  }

  function Tokens(pat: CString, p: nat, flags: Flags): (ts: seq<Token>)
    requires p <= |pat|
    decreases |pat| - p
  {
    if p == |pat| then []
    else [TokenAt(pat, p, flags).token] + Tokens(pat, TokenAt(pat, p, flags).next, flags)
  }

  /** Position `i` starts the string or, with FNM_PATHNAME, a component of it. */
  predicate Leading(str: CString, i: nat, flags: Flags)
    requires i <= |str|
  {
    i == 0 || (flags.pathname && str[i - 1] == '/')
  }

  // A period that only a literal one matches.
  predicate Guarded(str: CString, i: nat, flags: Flags)
    requires i <= |str|
  {
    flags.period && Leading(str, i, flags) && At(str, i) == '.'
  }

  // A single character that is not a slash to be matched literally, nor a guarded period.
  predicate Single(str: CString, i: nat, j: nat, flags: Flags)
    requires i <= j <= |str|
  {
    j == i + 1 && !(flags.pathname && str[i] == '/') && !Guarded(str, i, flags)
  }

  predicate SlashFree(str: CString, i: nat, j: nat)
    requires i <= j <= |str|
  {
    forall k | i <= k < j :: str[k] != '/'
  }

  /** Whether the piece of the string between `i` and `j` is one the token stands for. */
  predicate Fits(pat: CString, t: Token, str: CString, i: nat, j: nat, flags: Flags)
    requires i <= j <= |str|
  {
    match t
    case Literal(c) => j == i + 1 && str[i] == c
    case One => Single(str, i, j, flags)
    case Bracket(first, close, negated) =>
      && first <= close <= |pat|
      && Single(str, i, j, flags) && InBracket(pat, first, close, str[i]) != negated
    case Star => (flags.pathname ==> SlashFree(str, i, j)) && (Guarded(str, i, flags) ==> i == j)
    case Never => false
  }

  /** The string from `i` on splits into pieces that fit the tokens. */
  ghost predicate Match(pat: CString, ts: seq<Token>, str: CString, i: nat, flags: Flags)
    requires i <= |str|
    decreases |ts|
  {
    if ts == [] then i == |str|
    else exists j {:trigger Match(pat, ts[1..], str, j, flags)} ::
      i <= j <= |str| && Fits(pat, ts[0], str, i, j, flags) && Match(pat, ts[1..], str, j, flags)
  }

  /** The cut points are a splitting: piece k fits token k. */
  ghost predicate Splitting(pat: CString, ts: seq<Token>, str: CString, cuts: seq<nat>, flags: Flags) {
    && |cuts| == |ts| + 1 && cuts[|ts|] == |str|
    && (forall k {:trigger cuts[k]} | 0 <= k < |cuts| :: cuts[k] <= |str|)
    && forall k {:trigger ts[k]} | 0 <= k < |ts| :: cuts[k] <= cuts[k + 1]
        && Fits(pat, ts[k], str, cuts[k], cuts[k + 1], flags)
  }

  lemma {:induction false} MatchHasSplitting(pat: CString, ts: seq<Token>, str: CString, i: nat, flags: Flags)
      returns (cuts: seq<nat>)
    requires i <= |str| && Match(pat, ts, str, i, flags)
    ensures Splitting(pat, ts, str, cuts, flags) && cuts[0] == i
    decreases |ts|
  {
    if ts == [] {
      cuts := [i];
    } else {
      var j :| i <= j <= |str| && Fits(pat, ts[0], str, i, j, flags) && Match(pat, ts[1..], str, j, flags);
      var rest := MatchHasSplitting(pat, ts[1..], str, j, flags);
      cuts := [i] + rest;
      forall k | 0 <= k < |ts| ensures cuts[k] <= cuts[k + 1] && Fits(pat, ts[k], str, cuts[k], cuts[k + 1], flags) {
        if k > 0 {
          assert ts[k] == ts[1..][k - 1];
        }
      }
    }
  }

  lemma {:induction false} SplittingMatches(pat: CString, ts: seq<Token>, str: CString, cuts: seq<nat>, flags: Flags)
    requires Splitting(pat, ts, str, cuts, flags)
    ensures Match(pat, ts, str, cuts[0], flags)
    decreases |ts|
  {
    if ts != [] {
      assert Fits(pat, ts[0], str, cuts[0], cuts[1], flags);
      forall k | 0 <= k < |ts[1..]|
        ensures cuts[1..][k] <= cuts[1..][k + 1] && Fits(pat, ts[1..][k], str, cuts[1..][k], cuts[1..][k + 1], flags)
      {
        assert ts[1..][k] == ts[k + 1];
      }
      SplittingMatches(pat, ts[1..], str, cuts[1..], flags);
    }
  }

  /** A match is a splitting of the string along the tokens of the pattern. */
  lemma MatchIsSplitting(pat: CString, ts: seq<Token>, str: CString, i: nat, flags: Flags)
    requires i <= |str|
    ensures Match(pat, ts, str, i, flags) <==> exists cuts :: Splitting(pat, ts, str, cuts, flags) && cuts[0] == i
  {
    if Match(pat, ts, str, i, flags) {
      var _ := MatchHasSplitting(pat, ts, str, i, flags);
    }
    if cuts :| Splitting(pat, ts, str, cuts, flags) && cuts[0] == i {
      SplittingMatches(pat, ts, str, cuts, flags);
    }
  }

  // ---- one token at a time

  /** A token other than a star takes one character, or the match fails. */
  lemma MatchOne(pat: CString, t: Token, ts: seq<Token>, str: CString, i: nat, flags: Flags)
    requires i <= |str| && !t.Star?
    ensures Match(pat, [t] + ts, str, i, flags) <==>
      i < |str| && Fits(pat, t, str, i, i + 1, flags) && Match(pat, ts, str, i + 1, flags)
  {
    assert ([t] + ts)[1..] == ts;
  }

  lemma MatchCut(pat: CString, t: Token, ts: seq<Token>, str: CString, i: nat, flags: Flags) returns (j: nat)
    requires i <= |str| && Match(pat, [t] + ts, str, i, flags)
    ensures i <= j <= |str| && Fits(pat, t, str, i, j, flags) && Match(pat, ts, str, j, flags)
  {
    assert ([t] + ts)[1..] == ts;
    j :| i <= j <= |str| && Fits(pat, t, str, i, j, flags) && Match(pat, ts, str, j, flags);
  }

  lemma MatchJoin(pat: CString, t: Token, ts: seq<Token>, str: CString, i: nat, j: nat, flags: Flags)
    requires i <= j <= |str| && Fits(pat, t, str, i, j, flags) && Match(pat, ts, str, j, flags)
    ensures Match(pat, [t] + ts, str, i, flags)
  {
    assert ([t] + ts)[1..] == ts;
  }

  /** A star takes nothing, or one more character. */
  lemma MatchStar(pat: CString, ts: seq<Token>, str: CString, i: nat, flags: Flags)
    requires i <= |str|
    ensures Match(pat, [Star] + ts, str, i, flags) <==>
      || Match(pat, ts, str, i, flags)
      || (i < |str| && !Guarded(str, i, flags) && !(flags.pathname && str[i] == '/')
          && Match(pat, [Star] + ts, str, i + 1, flags))
  {
    hide Match;
    if Match(pat, [Star] + ts, str, i, flags) {
      var j := MatchCut(pat, Star, ts, str, i, flags);
      if i < j {
        assert flags.pathname ==> SlashFree(str, i, j) && str[i] != '/';
        MatchJoin(pat, Star, ts, str, i + 1, j, flags);
      }
    }
    if Match(pat, ts, str, i, flags) {
      MatchJoin(pat, Star, ts, str, i, i, flags);
    }
    if i < |str| && !Guarded(str, i, flags) && !(flags.pathname && str[i] == '/')
        && Match(pat, [Star] + ts, str, i + 1, flags) {
      var j := MatchCut(pat, Star, ts, str, i + 1, flags);
      MatchJoin(pat, Star, ts, str, i, j, flags);
    }
  }

  /** Several stars in a row are one. */
  lemma {:induction false} StarStar(pat: CString, ts: seq<Token>, str: CString, i: nat, flags: Flags)
    requires i <= |str|
    ensures Match(pat, [Star] + ([Star] + ts), str, i, flags) <==> Match(pat, [Star] + ts, str, i, flags)
    decreases |str| - i
  {
    MatchStar(pat, [Star] + ts, str, i, flags);
    MatchStar(pat, ts, str, i, flags);
    if i < |str| {
      StarStar(pat, ts, str, i + 1, flags);
    }
  }

  // ---- two consequences

  predicate Plain(c: char, flags: Flags) {
    (c != '\\' || flags.noEscape) && c != '[' && c != '?' && c != '*'
  }

  /** A pattern without special characters matches itself and nothing else; with FNM_NOESCAPE a backslash is none. */
  lemma {:induction false} PlainMatchesItself(pat: CString, p: nat, str: CString, s: nat, flags: Flags)
    requires p <= |pat| && s <= |str| && forall k | p <= k < |pat| :: Plain(pat[k], flags)
    ensures Match(pat, Tokens(pat, p, flags), str, s, flags) <==> pat[p..] == str[s..]
    decreases |pat| - p
  {
    if p < |pat| {
      MatchOne(pat, Literal(pat[p]), Tokens(pat, p + 1, flags), str, s, flags);
      assert pat[p..] == [pat[p]] + pat[p + 1..];
      if s < |str| {
        PlainMatchesItself(pat, p + 1, str, s + 1, flags);
        assert str[s..] == [str[s]] + str[s + 1..];
      }
    }
  }

  /** Any characters, stars and question marks, written as a pattern. */
  function Written(ts: seq<Token>): string {
    if ts == [] then ""
    else (match ts[0]
          case Literal(c) => ['\\', c]
          case One => "?"
          case Star => "*"
          case _ => "") + Written(ts[1..])
  }

  /** Without FNM_NOESCAPE a backslash makes every character an ordinary one: what is written is read back. */
  lemma {:induction false} WrittenRead(pat: CString, p: nat, ts: seq<Token>, flags: Flags)
    requires !flags.noEscape && p <= |pat| && pat[p..] == Written(ts)
    requires forall k | 0 <= k < |ts| :: ts[k].Literal? || ts[k].One? || ts[k].Star?
    ensures Tokens(pat, p, flags) == ts
    decreases |ts|
  {
    if ts != [] {
      var n := if ts[0].Literal? then 2 else 1;
      assert pat[p] == pat[p..][0] && (n == 2 ==> pat[p + 1] == pat[p..][1]);
      assert pat[p + n..] == pat[p..][n..] == Written(ts[1..]);
      WrittenRead(pat, p + n, ts[1..], flags);
    }
  }

  /** One of the members from `p` on starts at `q`. */
  predicate MemberStart(pat: CString, p: nat, q: nat)
    requires p <= |pat|
    decreases |pat| - p
  {
    p == q || (p < |pat| && MemberStart(pat, NextMember(pat, p), q))
  }

  /** A bracket is an ordinary character exactly when no `]` stands where a member could start, a first one aside. */
  lemma UnclosedIsLiteral(pat: CString, p: nat, flags: Flags)
    requires p < |pat| && pat[p] == '['
    ensures var first := AfterFirst(pat, if Negates(pat, p + 1) then p + 2 else p + 1);
      TokenAt(pat, p, flags) == Lexeme(Literal('['), p + 1) <==>
        forall q: nat | q < |pat| && MemberStart(pat, first, q) :: pat[q] != ']'
  {
    ClosesAtMember(pat, AfterFirst(pat, if Negates(pat, p + 1) then p + 2 else p + 1));
  }

  lemma {:induction false} ClosesAtMember(pat: CString, p: nat)
    requires p <= |pat|
    ensures CloseFrom(pat, p) == |pat| <==> forall q: nat | q < |pat| && MemberStart(pat, p, q) :: pat[q] != ']'
    decreases |pat| - p
  {
    hide NextMember;
    if p < |pat| && pat[p] != ']' {
      ClosesAtMember(pat, NextMember(pat, p));
    }
  }

  // ---- the code

  // The loop that looks for the `t]` that ends a class.
  method FindClassEnd(pat: CString, p: nat, t: char) returns (e: nat)
    requires p <= |pat|
    ensures e == ClassEnd(pat, p, t)
  {
    e := p;
    while At(pat, e) != NUL && !(pat[e] == t && At(pat, e + 1) == ']')
      invariant p <= e <= |pat| && ClassEnd(pat, e, t) == ClassEnd(pat, p, t)
      decreases |pat| - e
    {
      e := e + 1;
    }
  }

  method FindClose(pat: CString, p: nat) returns (e: nat)
    requires p <= |pat|
    ensures e == CloseFrom(pat, p)
  {
    e := p;
    while At(pat, e) != NUL && pat[e] != ']'
      invariant p <= e <= |pat| && CloseFrom(pat, e) == CloseFrom(pat, p)
      decreases |pat| - e
    {
      if pat[e] == '[' && (At(pat, e + 1) == ':' || At(pat, e + 1) == '.' || At(pat, e + 1) == '=') {
        var t := pat[e + 1];
        e := FindClassEnd(pat, e + 2, t);
        if At(pat, e) != NUL {
          e := e + 2;
        }
      } else {
        e := e + 1;
      }
    }
  }

  /** One round of the scan over the members of a bracket expression. */
  method ScanMember(pat: CString, p: nat, close: nat, c: char) returns (has: bool, scan: nat)
    requires p < close < |pat|
    ensures Member(has, scan) == MemberAt(pat, p, close, c)
  {
    hide InClass;
    has, scan := false, p;
    if pat[scan] == '[' && (At(pat, scan + 1) == ':' || At(pat, scan + 1) == '.' || At(pat, scan + 1) == '=') {
      var e := FindClassEnd(pat, scan + 2, pat[scan + 1]);
      if At(pat, e) != NUL {
        if pat[scan + 1] == ':' {
          if InClass(pat[scan + 2..e], c) {
            has := true;
          }
        } else {
          if e - (scan + 2) == 1 && c == pat[scan + 2] {
            has := true;
          }
        }
        scan := e + 2;
        return;
      }
    }
    var start := pat[scan];
    scan := scan + 1;
    if scan < close && pat[scan] == '-' && scan + 1 < close {
      if start <= c <= pat[scan + 1] {
        has := true;
      }
      scan := scan + 2;
    } else {
      if c == start {
        has := true;
      }
    }
  }

  /** The scan over the members of a bracket expression. */
  method Scan(pat: CString, first: nat, close: nat, c: char) returns (found: bool)
    requires first <= close < |pat|
    ensures found <==> InBracket(pat, first, close, c)
  {
    hide MemberAt;
    found := false;
    var scan := first;
    if At(pat, scan) == ']' || At(pat, scan) == '-' {
      if c == pat[scan] {
        found := true;
      }
      scan := scan + 1;
    }
    while scan < close
      invariant scan <= |pat|
      invariant (found || InMembers(pat, scan, close, c)) <==> InBracket(pat, first, close, c)
      decreases |pat| - scan
    {
      var has: bool;
      has, scan := ScanMember(pat, scan, close, c);
      if has {
        found := true;
      }
    }
  }

  /** What one token, other than a star, makes of the rest of the match. */
  lemma Step(pat: CString, p: nat, str: CString, s: nat, flags: Flags)
    requires p < |pat| && s <= |str| && !TokenAt(pat, p, flags).token.Star?
    ensures var l := TokenAt(pat, p, flags);
      Match(pat, Tokens(pat, p, flags), str, s, flags) <==>
        s < |str| && Fits(pat, l.token, str, s, s + 1, flags)
            && Match(pat, Tokens(pat, l.next, flags), str, s + 1, flags)
  {
    hide Match, TokenAt, Fits;
    MatchOne(pat, TokenAt(pat, p, flags).token, Tokens(pat, TokenAt(pat, p, flags).next, flags), str, s, flags);
  }

  lemma StepStar(pat: CString, p: nat, flags: Flags)
    requires p < |pat| && TokenAt(pat, p, flags).token.Star?
    ensures Tokens(pat, p, flags) == [Star] + Tokens(pat, TokenAt(pat, p, flags).next, flags)
  {
    hide TokenAt;
  }

  /** fnmatch_internal: 0 exactly when the rest of the string splits along the rest of the pattern. */
  method FnmatchInternal(pat: CString, str: CString, p0: nat, s0: nat, flags: Flags, isStart0: bool) returns (r: int)
    requires p0 <= |pat| && s0 <= |str| && (isStart0 <==> Leading(str, s0, flags))
    ensures r == 0 || r == FNM_NOMATCH
    ensures r == 0 <==> Match(pat, Tokens(pat, p0, flags), str, s0, flags)
    decreases |pat| - p0, 0
  {
    hide Match, InBracket, CloseFrom, Tokens;
    var p: nat, s: nat, isStart := p0, s0, isStart0;
    while At(pat, p) != NUL
      invariant p0 <= p <= |pat| && s <= |str| && (isStart <==> Leading(str, s, flags))
      invariant Match(pat, Tokens(pat, p0, flags), str, s0, flags) <==> Match(pat, Tokens(pat, p, flags), str, s, flags)
      decreases |pat| - p
    {
      var c := pat[p];
      if TokenAt(pat, p, flags).token.Star? {
        StepStar(pat, p, flags);
      } else {
        Step(pat, p, str, s, flags);
      }
      p := p + 1;
      if !flags.noEscape && c == '\\' {
        if At(pat, p) == NUL {
          return FNM_NOMATCH;
        }
        c := pat[p];
        p := p + 1;
        if c != At(str, s) {
          return FNM_NOMATCH;
        }
        isStart := flags.pathname && c == '/';
        s := s + 1;
        continue;
      }
      if c == '[' {
        r := MatchBracket(pat, str, p, s, flags, isStart);
        return;
      }
      if c == '?' {
        if At(str, s) == NUL {
          return FNM_NOMATCH;
        }
        if flags.pathname && At(str, s) == '/' {
          return FNM_NOMATCH;
        }
        if flags.period && isStart && At(str, s) == '.' {
          return FNM_NOMATCH;
        }
        s := s + 1;
        isStart := false;
        continue;
      }
      if c == '*' {
        r := MatchStars(pat, str, p, s, flags, isStart);
        return;
      }
      if c != At(str, s) {
        return FNM_NOMATCH;
      }
      isStart := flags.pathname && c == '/';
      s := s + 1;
    }
    AtEnd(pat, str, s, flags);
    return if At(str, s) == NUL then 0 else FNM_NOMATCH;
  }

  lemma AtEnd(pat: CString, str: CString, s: nat, flags: Flags)
    requires s <= |str|
    ensures Match(pat, Tokens(pat, |pat|, flags), str, s, flags) <==> s == |str|
  {
  }

  /** The part of fnmatch_internal behind a '['. */
  method MatchBracket(pat: CString, str: CString, p0: nat, s: nat, flags: Flags, isStart: bool) returns (r: int)
    requires 0 < p0 <= |pat| && pat[p0 - 1] == '[' && s <= |str| && (isStart <==> Leading(str, s, flags))
    ensures r == 0 || r == FNM_NOMATCH
    ensures r == 0 <==> Match(pat, Tokens(pat, p0 - 1, flags), str, s, flags)
    decreases |pat| - p0, 1
  {
    hide Match, InBracket, CloseFrom, Tokens;
    Step(pat, p0 - 1, str, s, flags);
    var p: nat, negate := p0, false;
    if At(pat, p) == '!' || At(pat, p) == '^' {
      negate := true;
      p := p + 1;
    }
    var scanEnd: nat := p;
    if At(pat, scanEnd) == ']' || At(pat, scanEnd) == '-' {
      scanEnd := scanEnd + 1;
    }
    scanEnd := FindClose(pat, scanEnd);
    if At(pat, scanEnd) != ']' {
      if At(str, s) != '[' {
        return FNM_NOMATCH;
      }
      r := FnmatchInternal(pat, str, p0, s + 1, flags, flags.pathname && str[s] == '/');
      return;
    }
    if flags.pathname && At(str, s) == '/' {
      return FNM_NOMATCH;
    }
    if flags.period && isStart && At(str, s) == '.' {
      return FNM_NOMATCH;
    }
    if At(str, s) == NUL {
      return FNM_NOMATCH;
    }
    var found := Scan(pat, p, scanEnd, str[s]);
    if negate {
      found := !found;
    }
    if !found {
      return FNM_NOMATCH;
    }
    r := FnmatchInternal(pat, str, scanEnd + 1, s + 1, flags, false);
  }

  lemma StarsAgain(pat: CString, p: nat, str: CString, s: nat, flags: Flags)
    requires p < |pat| && pat[p] == '*' && s <= |str|
    ensures Match(pat, [Star] + Tokens(pat, p, flags), str, s, flags) <==>
        Match(pat, [Star] + Tokens(pat, p + 1, flags), str, s, flags)
  {
    hide Match;
    StarStar(pat, Tokens(pat, p + 1, flags), str, s, flags);
  }

  // A last star takes the whole rest, if it may.
  lemma LastStar(pat: CString, str: CString, s: nat, flags: Flags)
    requires s <= |str|
    ensures Match(pat, [Star] + Tokens(pat, |pat|, flags), str, s, flags) <==>
      (flags.pathname ==> SlashFree(str, s, |str|)) && (Guarded(str, s, flags) ==> s == |str|)
  {
    hide Match;
    var ts := Tokens(pat, |pat|, flags);
    if Match(pat, [Star] + ts, str, s, flags) {
      var j := MatchCut(pat, Star, ts, str, s, flags);
      AtEnd(pat, str, j, flags);
    }
    AtEnd(pat, str, |str|, flags);
    if (flags.pathname ==> SlashFree(str, s, |str|)) && (Guarded(str, s, flags) ==> s == |str|) {
      MatchJoin(pat, Star, ts, str, s, |str|, flags);
    }
  }

  /** The part of fnmatch_internal behind a '*'. */
  method MatchStars(pat: CString, str: CString, p0: nat, s0: nat, flags: Flags, isStart0: bool) returns (r: int)
    requires p0 <= |pat| && s0 <= |str| && (isStart0 <==> Leading(str, s0, flags))
    ensures r == 0 || r == FNM_NOMATCH
    ensures r == 0 <==> Match(pat, [Star] + Tokens(pat, p0, flags), str, s0, flags)
    decreases |pat| - p0, 2
  {
    hide Match, Tokens;
    var p: nat, s: nat := p0, s0;
    while At(pat, p) == '*'
      invariant p0 <= p <= |pat|
      invariant Match(pat, [Star] + Tokens(pat, p0, flags), str, s0, flags) <==>
          Match(pat, [Star] + Tokens(pat, p, flags), str, s0, flags)
      decreases |pat| - p
    {
      StarsAgain(pat, p, str, s, flags);
      p := p + 1;
    }
    MatchStar(pat, Tokens(pat, p, flags), str, s, flags);
    LastStar(pat, str, s, flags);
    if flags.period && isStart0 && At(str, s) == '.' {
      if At(pat, p) == NUL {
        return FNM_NOMATCH;
      }
      r := FnmatchInternal(pat, str, p, s, flags, isStart0);
      return;
    }
    if At(pat, p) == NUL {
      if flags.pathname {
        while At(str, s) != NUL
          invariant s0 <= s <= |str| && SlashFree(str, s0, s)
          decreases |str| - s
        {
          if str[s] == '/' {
            return FNM_NOMATCH;
          }
          s := s + 1;
        }
      }
      return 0;
    }
    r := TryEach(pat, str, p, s, flags, isStart0);
  }

  /** The loop of fnmatch_internal that tries every length for a star. */
  method TryEach(pat: CString, str: CString, p: nat, s0: nat, flags: Flags, isStart0: bool) returns (r: int)
    requires p <= |pat| && s0 <= |str| && (isStart0 <==> Leading(str, s0, flags)) && !Guarded(str, s0, flags)
    ensures r == 0 || r == FNM_NOMATCH
    ensures r == 0 <==> Match(pat, [Star] + Tokens(pat, p, flags), str, s0, flags)
    decreases |pat| - p, 1
  {
    hide Match, Tokens;
    var s: nat, isStart := s0, isStart0;
    ghost var ts := Tokens(pat, p, flags);
    while true
      invariant s0 <= s <= |str| && (isStart <==> Leading(str, s, flags)) && !Guarded(str, s, flags)
      invariant Match(pat, [Star] + ts, str, s0, flags) <==> Match(pat, [Star] + ts, str, s, flags)
      decreases |str| - s
    {
      MatchStar(pat, ts, str, s, flags);
      r := FnmatchInternal(pat, str, p, s, flags, isStart);
      if r == 0 {
        return;
      }
      if At(str, s) == NUL {
        break;
      }
      if flags.pathname && str[s] == '/' {
        break;
      }
      s := s + 1;
      isStart := false;
    }
    return FNM_NOMATCH;
  }

  /** fnmatch */
  method Fnmatch(pat: CString, str: CString, flags: Flags) returns (r: int)
    ensures r == 0 || r == FNM_NOMATCH
    ensures r == 0 <==> Match(pat, Tokens(pat, 0, flags), str, 0, flags)
  {
    r := FnmatchInternal(pat, str, 0, 0, flags, true);
  }
}
