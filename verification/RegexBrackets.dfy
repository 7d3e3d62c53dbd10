/** The texts of bracket expressions: which are closed where, and with which error the others end. */
module RegexBrackets {
  import opened RegexSemantics
  import opened RegexGrammar
  import opened CStrings

  /** The class, symbol or equivalence class that opens at `pos` ends before `next`, where it is closed first. */
  predicate ClassTo(pat: CString, pos: nat, next: nat) {
    && pos + 4 <= next <= |pat| && OpensClass(pat, pos) && pat[next - 2] == pat[pos + 1] && pat[next - 1] == ']'
    && forall k | pos + 2 <= k < next - 2 :: !(pat[k] == pat[pos + 1] && pat[k + 1] == ']')
  }

  /** What is wrong with a class, or 0: its name is unknown, or a symbol is empty. */
  function ClassError(kind: char, name: string): int {
    if kind == ':' then if name in CLASSES then 0 else REG_ECTYPE
    else if name == "" then REG_ECOLLATE else 0
  }

  /** A hyphen and the end of a range; before the closing bracket a hyphen is a member. */
  predicate EndsRange(pat: CString, pos: nat) {
    pos + 1 < |pat| && pat[pos] == '-' && pat[pos + 1] != ']'
  }

  /** One member: a class that exists, the end of a range if one has begun, or any other character. */
  predicate Member(pat: CString, pos: nat, next: nat, range: bool)
    requires pos < |pat|
  {
    if OpensClass(pat, pos) then ClassTo(pat, pos, next) && ClassError(pat[pos + 1], pat[pos + 2..next - 2]) == 0
    else if range && EndsRange(pat, pos) then next == pos + 2
    else next == pos + 1 && pat[pos] != ']'
  }

  // A single character begins a range, but for the one that a char holds as -1.
  predicate BeginsRange(pat: CString, pos: nat, next: nat)
    requires pos < |pat|
  {
    next == pos + 1 && pat[pos] != 255 as char
  }

  predicate ListCut(pat: CString, pos: nat, end: nat, range: bool, next: nat)
    requires pos < |pat|
  {
    pos < next <= end && Member(pat, pos, next, range)
  }

  /** The text from pos to end is a list of members. */
  ghost predicate Listed(pat: CString, pos: nat, end: nat, range: bool)
    requires end <= |pat|
    decreases end - pos
  {
    pos == end || (pos < end &&
      exists next: nat :: ListCut(pat, pos, end, range, next) && Listed(pat, next, end, BeginsRange(pat, pos, next)))
  }

  predicate ClassFails(pat: CString, pos: nat, next: nat, err: int) {
    ClassTo(pat, pos, next) && err != 0 && err == ClassError(pat[pos + 1], pat[pos + 2..next - 2])
  }

  /** What ends a list with an error: the end of the pattern, or a class that is not closed or does not exist. */
  ghost predicate FailsAt(pat: CString, pos: nat, err: int)
    requires pos <= |pat|
  {
    if pos == |pat| then err == REG_EBRACK
    else
      && OpensClass(pat, pos)
      && ((err == REG_EBRACK && forall next: nat :: !ClassTo(pat, pos, next))
          || exists next: nat :: ClassFails(pat, pos, next, err))
  }

  // ---- the scan

  lemma {:induction false} ClassEnds(pat: CString, pos: nat, k: nat, next: nat)
    requires pos + 2 <= k <= |pat| && OpensClass(pat, pos)
    requires forall i | pos + 2 <= i < k :: !(pat[i] == pat[pos + 1] && At(pat, i + 1) == ']')
    ensures var end := ClassEnd(pat, k, pat[pos + 1]); end < |pat| && next == end + 2 <==> ClassTo(pat, pos, next)
    decreases |pat| - k
  {
    if k < |pat| && !(pat[k] == pat[pos + 1] && At(pat, k + 1) == ']') {
      ClassEnds(pat, pos, k + 1, next);
    }
  }

  // One class: it is skipped, or the scan fails there.
  lemma ClassStep(pat: CString, pos: nat, last: int)
    requires pos < |pat| && OpensClass(pat, pos)
    ensures var close := ClassEnd(pat, pos + 2, pat[pos + 1]);
      && (forall next: nat :: ClassTo(pat, pos, next) <==> close < |pat| && next == close + 2)
      && Members(pat, pos, last) ==
        if close == |pat| then BadScan(REG_EBRACK)
        else var e := ClassError(pat[pos + 1], pat[pos + 2..close]);
          if e != 0 then BadScan(e) else Members(pat, close + 2, -1)
  {
    hide CLASSES;
    forall next: nat
      ensures ClassTo(pat, pos, next)
        <==> ClassEnd(pat, pos + 2, pat[pos + 1]) < |pat| && next == ClassEnd(pat, pos + 2, pat[pos + 1]) + 2
    {
      ClassEnds(pat, pos, pos + 2, next);
    }
  }

  // One member: the scan goes on behind it, or fails.
  lemma ScanStep(pat: CString, pos: nat, last: int, range: bool) returns (ok: bool, next: nat, last': int)
    requires pos < |pat| && pat[pos] != ']' && (range <==> last != -1)
    ensures forall k: nat :: Member(pat, pos, k, range) <==> ok && k == next
    ensures ok ==> pos < next <= |pat| && Members(pat, pos, last) == Members(pat, next, last')
    ensures ok ==> (last' != -1 <==> BeginsRange(pat, pos, next))
    ensures ok ==> forall e :: !FailsAt(pat, pos, e)
    ensures !ok ==> Members(pat, pos, last).BadScan? && forall e :: FailsAt(pat, pos, e) <==>
      e == Members(pat, pos, last).err
  {
    hide CLASSES, ClassTo, ClassError;
    if OpensClass(pat, pos) {
      ClassStep(pat, pos, last);
      hide ClassEnd;
      var close := ClassEnd(pat, pos + 2, pat[pos + 1]);
      ok := close < |pat| && ClassError(pat[pos + 1], pat[pos + 2..close]) == 0;
      next, last' := close + 2, -1;
      if close < |pat| {
        var e := ClassError(pat[pos + 1], pat[pos + 2..close]);
        assert ClassTo(pat, pos, close + 2) && (e == 0 || ClassFails(pat, pos, close + 2, e));
      }
    } else if pat[pos] == '-' && At(pat, pos + 1) != NUL && pat[pos + 1] != ']' && last != -1 {
      ok, next, last' := true, pos + 2, -1;
    } else {
      ok, next, last' := true, pos + 1, SignedChar(pat[pos]);
    }
  }

  /** The scan ends at a bracket exactly when the text up to there is a list of members. */
  lemma {:induction false} MembersListed(pat: CString, pos: nat, last: int, end: nat)
    requires pos <= |pat|
    ensures Members(pat, pos, last) == ScanTo(end) <==>
      pos <= end < |pat| && pat[end] == ']' && Listed(pat, pos, end, last != -1)
    decreases |pat| - pos
  {
    if pos < |pat| && pat[pos] != ']' {
      var ok, next, last' := ScanStep(pat, pos, last, last != -1);
      hide Members, Member, BeginsRange;
      if ok {
        MembersListed(pat, next, last', end);
      }
    }
  }

  ghost predicate FailsBehind(pat: CString, pos: nat, range: bool, k: nat, err: int) {
    pos <= k <= |pat| && Listed(pat, pos, k, range) && FailsAt(pat, k, err)
  }

  /** A list of members from `pos` on ends with the error. */
  ghost predicate ListFails(pat: CString, pos: nat, range: bool, err: int) {
    exists k: nat :: FailsBehind(pat, pos, range, k, err)
  }

  /** It fails exactly where a list of members cannot go on, with the error that is due there. */
  lemma {:induction false} MembersFail(pat: CString, pos: nat, last: int, err: int)
    requires pos <= |pat|
    ensures Members(pat, pos, last) == BadScan(err) <==> ListFails(pat, pos, last != -1, err)
    decreases |pat| - pos
  {
    var range := last != -1;
    if pos < |pat| && pat[pos] != ']' {
      var ok, next, last' := ScanStep(pat, pos, last, range);
      hide Members, Member, BeginsRange, FailsAt;
      if ok {
        var goesOn := last' != -1;
        MembersFail(pat, next, last', err);
        if k: nat :| FailsBehind(pat, next, goesOn, k, err) {
          assert ListCut(pat, pos, k, range, next);
          assert FailsBehind(pat, pos, range, k, err);
        }
        if k: nat :| FailsBehind(pat, pos, range, k, err) {
          assert FailsBehind(pat, next, goesOn, k, err);
        }
      } else if Members(pat, pos, last) == BadScan(err) {
        assert FailsBehind(pat, pos, range, pos, err);
      }
    } else if pos == |pat| {
      assert FailsBehind(pat, pos, range, pos, REG_EBRACK);
    }
  }

  // ---- whole bracket expressions

  /** The members begin behind the bracket, a caret behind that, and a bracket behind these, which is a member. */
  predicate Opened(pat: CString, pos: nat, first: nat) {
    if Here(pat, pos, "[^]") then first == pos + 3
    else if Here(pat, pos, "[^") || Here(pat, pos, "[]") then first == pos + 2
    else Here(pat, pos, "[") && first == pos + 1
  }

  /** A bracket expression ends at the first bracket that is no part of a member. */
  lemma BracketListed(pat: CString, pos: nat, first: nat, gid: nat, end: nat)
    requires pos < |pat| && pat[pos] == '[' && Opened(pat, pos, first)
    ensures BracketAt(pat, pos, gid) == Done(end + 1, gid, Leaf(Bracket(pos, end))) <==>
      first <= end < |pat| && pat[end] == ']' && Listed(pat, first, end, false)
    ensures forall e :: BracketAt(pat, pos, gid) == Fail(e) <==> ListFails(pat, first, false, e)
  {
    hide Members, Listed, ListFails;
    MembersListed(pat, first, -1, end);
    forall e ensures Members(pat, first, -1) == BadScan(e) <==> ListFails(pat, first, false, e) {
      MembersFail(pat, first, -1, e);
    }
  }
}
