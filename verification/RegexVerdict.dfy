/** Which error regcomp gives for which pattern: one pass over the text from left to right, with the number of groups
    open and of groups so far, and whether what stands before can be repeated. */
module RegexVerdict {
  import opened RegexSemantics
  import opened RegexGrammar
  import opened CStrings

  // ---- extended expressions

  /** The error in the pattern from `pos` on, or 0: with `depth` groups open, and behind something to repeat or not. */
  function EreVerdict(pat: CString, pos: nat, depth: nat, can: bool): int
    requires pos <= |pat|
    decreases |pat| - pos
  {
    var x := At(pat, pos);
    if x == NUL then if depth > 0 then REG_EPAREN else 0
    else if x == '(' then if depth >= MAX_DEPTH then REG_ESPACE else EreVerdict(pat, pos + 1, depth + 1, false)
    else if x == ')' then if depth == 0 then REG_EPAREN else EreVerdict(pat, pos + 1, depth - 1, true)
    else if x == '|' then EreVerdict(pat, pos + 1, depth, false)
    else if x == '*' || x == '+' || x == '?' then
      if can then EreVerdict(pat, pos + 1, depth, false) else REG_BADRPT
    else if x == '{' then
      if !can then REG_BADRPT else
      match BoundsAt(pat, pos + 1, true)
      case BadBounds(e) => e
      case Between(_, _, end) => EreVerdict(pat, end, depth, false)
    else if x == '[' then
      match BracketAt(pat, pos, 0)
      case Fail(e) => e
      case Done(end, _, _) => EreVerdict(pat, end, depth, true)
    else if x == '\\' then
      if At(pat, pos + 1) == NUL then REG_EESCAPE else EreVerdict(pat, pos + 2, depth, true)
    else EreVerdict(pat, pos + 1, depth, true)
  }

  lemma {:induction false} AtomVerdict(pat: CString, pos: nat, gid: nat, depth: nat)
    requires pos < |pat| && !BranchEnds(pat, pos) && depth <= MAX_DEPTH
    ensures match EreAtom(pat, pos, gid, depth)
            case Fail(e) => e != 0 && EreVerdict(pat, pos, depth, false) == e
            case Done(end, _, _) => EreVerdict(pat, pos, depth, false) == EreVerdict(pat, end, depth, true)
    decreases |pat| - pos, 0
  {
    hide Ere, Members;
    if pat[pos] == '(' && depth < MAX_DEPTH {
      ExprVerdict(pat, pos + 1, gid + 1, depth + 1, Nothing);
    }
  }

  lemma {:induction false} PieceVerdict(pat: CString, pos: nat, gid: nat, depth: nat)
    requires pos < |pat| && !BranchEnds(pat, pos) && depth <= MAX_DEPTH
    ensures match ErePiece(pat, pos, gid, depth)
            case Fail(e) => e != 0 && EreVerdict(pat, pos, depth, false) == e
            case Done(end, _, _) => EreVerdict(pat, pos, depth, false) == EreVerdict(pat, end, depth, false)
    decreases |pat| - pos, 1
  {
    hide EreAtom, BoundsAt, BracketAt;
    AtomVerdict(pat, pos, gid, depth);
  }

  lemma {:induction false} BranchVerdict(pat: CString, pos: nat, gid: nat, depth: nat, acc: Partial)
    requires pos <= |pat| && depth <= MAX_DEPTH
    ensures match EreBranch(pat, pos, gid, depth, acc)
            case Fail(e) => e != 0 && EreVerdict(pat, pos, depth, false) == e
            case Done(end, _, _) => EreVerdict(pat, pos, depth, false) == EreVerdict(pat, end, depth, false)
    decreases |pat| - pos, 2
  {
    hide ErePiece, EreVerdict;
    if !BranchEnds(pat, pos) {
      PieceVerdict(pat, pos, gid, depth);
      var a := ErePiece(pat, pos, gid, depth);
      if a.Done? {
        BranchVerdict(pat, a.pos, a.gid, depth, Something(Then(acc, a.re)));
      }
    }
  }

  lemma {:induction false} ExprVerdict(pat: CString, pos: nat, gid: nat, depth: nat, acc: Partial)
    requires pos <= |pat| && depth <= MAX_DEPTH
    ensures match Ere(pat, pos, gid, depth, acc)
            case Fail(e) => e != 0 && EreVerdict(pat, pos, depth, false) == e
            case Done(end, _, _) => EreVerdict(pat, pos, depth, false) == EreVerdict(pat, end, depth, false)
    decreases |pat| - pos, 3
  {
    hide EreBranch, BracketAt, BoundsAt;
    if !EreEnds(pat, pos) {
      BranchVerdict(pat, pos, gid, depth, Nothing);
      var a := EreBranch(pat, pos, gid, depth, Nothing);
      if a.Done? {
        var next := if At(pat, a.pos) == '|' then a.pos + 1 else a.pos;
        ExprVerdict(pat, next, a.gid, depth, Something(OrElse(acc, a.re)));
      }
    }
  }

  // ---- basic expressions

  /** A star with nothing before it to repeat is an ordinary character, and cannot be repeated. */
  function BreVerdict(pat: CString, pos: nat, depth: nat, gid: nat, can: bool): int
    requires pos <= |pat|
    decreases |pat| - pos
  {
    var x := At(pat, pos);
    if x == NUL then if depth > 0 then REG_EPAREN else 0
    else if x == '*' then BreVerdict(pat, pos + 1, depth, gid, false)
    else if x == '[' then
      match BracketAt(pat, pos, 0)
      case Fail(e) => e
      case Done(end, _, _) => BreVerdict(pat, end, depth, gid, true)
    else if x != '\\' then BreVerdict(pat, pos + 1, depth, gid, true)
    else
      var nx := At(pat, pos + 1);
      if nx == NUL then REG_EESCAPE
      else if nx == '(' then
        if depth >= MAX_DEPTH then REG_ESPACE else BreVerdict(pat, pos + 2, depth + 1, gid + 1, false)
      else if nx == ')' then if depth == 0 then REG_EPAREN else BreVerdict(pat, pos + 2, depth - 1, gid, true)
      else if nx == '{' then
        if !can then REG_BADRPT else
        match BoundsAt(pat, pos + 2, false)
        case BadBounds(e) => e
        case Between(_, _, end) => BreVerdict(pat, end, depth, gid, false)
      else if '1' <= nx <= '9' && nx as int - '0' as int > gid then REG_ESUBREG
      else BreVerdict(pat, pos + 2, depth, gid, true)
  }

  lemma {:induction false} BasicAtomVerdict(pat: CString, pos: nat, gid: nat, depth: nat)
    requires pos < |pat| && pat[pos] != '*' && !BreEnds(pat, pos) && depth <= MAX_DEPTH
    ensures match BreAtom(pat, pos, gid, depth)
            case Fail(e) => e != 0 && BreVerdict(pat, pos, depth, gid, false) == e
            case Done(end, gid', _) =>
              BreVerdict(pat, pos, depth, gid, false) == BreVerdict(pat, end, depth, gid', true)
    decreases |pat| - pos, 0
  {
    hide Bre, Members;
    if pat[pos] == '\\' && At(pat, pos + 1) == '(' && depth < MAX_DEPTH {
      RunVerdict(pat, pos + 2, gid + 1, depth + 1, Nothing);
    }
  }

  lemma {:induction false} BasicPieceVerdict(pat: CString, pos: nat, gid: nat, depth: nat)
    requires pos < |pat| && !BreEnds(pat, pos) && depth <= MAX_DEPTH
    ensures match BrePiece(pat, pos, gid, depth)
            case Fail(e) => e != 0 && BreVerdict(pat, pos, depth, gid, false) == e
            case Done(end, gid', _) =>
              BreVerdict(pat, pos, depth, gid, false) == BreVerdict(pat, end, depth, gid', false)
    decreases |pat| - pos, 1
  {
    hide BreAtom, BoundsAt, BracketAt;
    if pat[pos] != '*' {
      BasicAtomVerdict(pat, pos, gid, depth);
    }
  }

  lemma {:induction false} RunVerdict(pat: CString, pos: nat, gid: nat, depth: nat, acc: Partial)
    requires pos <= |pat| && depth <= MAX_DEPTH
    ensures match Bre(pat, pos, gid, depth, acc)
            case Fail(e) => e != 0 && BreVerdict(pat, pos, depth, gid, false) == e
            case Done(end, gid', _) =>
              BreVerdict(pat, pos, depth, gid, false) == BreVerdict(pat, end, depth, gid', false)
    decreases |pat| - pos, 2
  {
    hide BrePiece, BreVerdict;
    if !BreEnds(pat, pos) {
      BasicPieceVerdict(pat, pos, gid, depth);
      var a := BrePiece(pat, pos, gid, depth);
      if a.Done? {
        RunVerdict(pat, a.pos, a.gid, depth, Something(Then(acc, a.re)));
      }
    }
  }

  // ---- whole patterns

  function Verdict(pat: CString, ere: bool): int {
    if ere then EreVerdict(pat, 0, 0, false) else BreVerdict(pat, 0, 0, 0, false)
  }

  /** A pattern is refused exactly with the error the pass over its text ends with, and accepted if that is 0. */
  lemma VerdictRight(pat: CString, ere: bool)
    ensures match Pattern(pat, ere)
            case Fail(e) => e != 0 && Verdict(pat, ere) == e
            case Done(_, _, _) => Verdict(pat, ere) == 0
  {
    hide Ere, Bre, BracketAt, BoundsAt;
    if ere {
      ExprVerdict(pat, 0, 0, 0, Nothing);
    } else {
      RunVerdict(pat, 0, 0, 0, Nothing);
    }
  }
}
