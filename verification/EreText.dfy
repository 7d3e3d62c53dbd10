/** The texts that spell an extended expression, and that regcomp accepts exactly those: what each of them is
    read as, and that nothing else is accepted. */
module EreText {
  import opened RegexSemantics
  import opened RegexGrammar
  import opened RegexTexts
  import opened EreSyntax
  import opened CStrings

  predicate Special(c: char) {
    c in {'\\', '^', '.', '[', '$', '(', ')', '|', '*', '+', '?', '{'}
  }

  // What a piece cannot begin with, and what may not come behind one.
  predicate Repeats(c: char) {
    c == '*' || c == '+' || c == '?' || c == '{'
  }

  // ---- spelling

  /** The text of the pattern from pos to end spells the primary: an ordinary character stands for itself unless it
      is special, and any character may have a backslash before it. */
  ghost predicate SpellsPrimary(pat: CString, pos: nat, end: nat, p: Primary)
    requires end <= |pat|
    decreases p, 0
  {
    match p
    case Ordinary(c) =>
      || (end == pos + 1 && pat[pos] == c && !Special(c))
      || (end == pos + 2 && pat[pos] == '\\' && pat[pos + 1] == c)
    case Dot => end == pos + 1 && pat[pos] == '.'
    case Caret => end == pos + 1 && pat[pos] == '^'
    case Dollar => end == pos + 1 && pat[pos] == '$'
    case Brackets(text, at) => at == pos && end == pos + |text| + 2 && Here(pat, pos, "[" + text + "]")
    case Reference(_) => false
    case Closing => end == pos + 1 && pat[pos] == ')'
    case Paren(e) =>
      pos + 2 <= end && pat[pos] == '(' && pat[end - 1] == ')' && SpellsExpr(pat, pos + 1, end - 1, e, false)
  }

  ghost predicate SpellsRepeat(pat: CString, pos: nat, end: nat, x: Piece)
    requires end <= |pat|
  {
    match x
    case Once(_) => end == pos
    case ZeroOrMore(_) => end == pos + 1 && pat[pos] == '*'
    case OneOrMore(_) => end == pos + 1 && pat[pos] == '+'
    case Optional(_) => end == pos + 1 && pat[pos] == '?'
    case Counted(_, min, max) =>
      pos + 2 <= end && pat[pos] == '{' && pat[end - 1] == '}' && SpellsBound(pat, pos + 1, end - 1, min, max)
  }

  ghost predicate PieceCut(pat: CString, pos: nat, end: nat, x: Piece, mid: nat)
    requires end <= |pat|
    decreases x, 0
  {
    pos <= mid <= end && SpellsPrimary(pat, pos, mid, x.p) && SpellsRepeat(pat, mid, end, x)
  }

  ghost predicate SpellsPiece(pat: CString, pos: nat, end: nat, x: Piece)
    requires end <= |pat|
    decreases x, 1
  {
    exists mid: nat :: PieceCut(pat, pos, end, x, mid)
  }

  ghost predicate BranchCut(pat: CString, pos: nat, end: nat, b: Branch, mid: nat)
    requires end <= |pat| && b.Followed?
    decreases b, 0
  {
    pos <= mid <= end && SpellsPiece(pat, pos, mid, b.first) && SpellsBranch(pat, mid, end, b.rest)
  }

  ghost predicate SpellsBranch(pat: CString, pos: nat, end: nat, b: Branch)
    requires end <= |pat|
    decreases b, 1
  {
    if b.End? then pos == end else exists mid: nat :: BranchCut(pat, pos, end, b, mid)
  }

  ghost predicate ExprCut(pat: CString, pos: nat, end: nat, e: Expr, mid: nat)
    requires end <= |pat| && e.Or?
    decreases e, 0
  {
    && pos <= mid < end && SpellsBranch(pat, pos, mid, e.branch)
    && pat[mid] == '|' && SpellsExpr(pat, mid + 1, end, e.rest, true)
  }

  /** Alternatives have bars between them. The last one may have a bar behind it, which the code drops; an empty last
      one `behind` others needs it, because without it the code drops the bar before it. Section 9.4.3 of POSIX.1-2017
      Base Definitions leaves bars with nothing beside them undefined. */
  ghost predicate SpellsExpr(pat: CString, pos: nat, end: nat, e: Expr, behind: bool)
    requires end <= |pat|
    decreases e, 1
  {
    match e
    case Only(b) =>
      || (SpellsBranch(pat, pos, end, b) && !(behind && b.End?))
      || (pos < end && pat[end - 1] == '|' && SpellsBranch(pat, pos, end - 1, b))
    case Or(_, _) => exists mid: nat :: ExprCut(pat, pos, end, e, mid)
  }

  // ---- one step of each loop

  lemma BranchStop(pat: CString, pos: nat, gid: nat, depth: nat, acc: Partial)
    requires pos <= |pat| && BranchEnds(pat, pos)
    ensures EreBranch(pat, pos, gid, depth, acc) == Done(pos, gid, Whole(acc))
  {
  }

  lemma BranchNext(pat: CString, pos: nat, gid: nat, depth: nat, acc: Partial, end: nat, t: Tree)
    requires pos < |pat| && !BranchEnds(pat, pos) && end <= |pat|
    requires ErePiece(pat, pos, gid, depth) == Done(end, t.gid, t.re)
    ensures EreBranch(pat, pos, gid, depth, acc) == EreBranch(pat, end, t.gid, depth, Something(Then(acc, t.re)))
  {
    hide ErePiece;
  }

  lemma EreStop(pat: CString, pos: nat, gid: nat, depth: nat, acc: Partial)
    requires pos <= |pat| && EreEnds(pat, pos)
    ensures Ere(pat, pos, gid, depth, acc) == Done(pos, gid, Whole(acc))
  {
  }

  lemma EreNext(pat: CString, pos: nat, gid: nat, depth: nat, acc: Partial, end: nat, t: Tree)
    requires pos <= |pat| && !EreEnds(pat, pos) && end <= |pat|
    requires EreBranch(pat, pos, gid, depth, Nothing) == Done(end, t.gid, t.re)
    ensures Ere(pat, pos, gid, depth, acc) ==
      Ere(pat, if At(pat, end) == '|' then end + 1 else end, t.gid, depth, Something(OrElse(acc, t.re)))
  {
    hide EreBranch;
  }

  // A group whose inside has been read up to `end`.
  lemma GroupAtom(pat: CString, pos: nat, gid: nat, depth: nat, end: nat, t: Tree)
    requires pos < end < |pat| && depth < MAX_DEPTH && pat[pos] == '(' && pat[end] == ')'
    requires Ere(pat, pos + 1, gid + 1, depth + 1, Nothing) == Done(end, t.gid, t.re)
    ensures EreAtom(pat, pos, gid, depth) ==
      Done(end + 1, t.gid, Group(gid + 1, Concat(t.re, Leaf(GroupEnd(gid + 1)))))
  {
    hide Ere;
  }

  // ---- what is spelled is read

  // The first character of a primary.
  lemma PrimaryStart(pat: CString, pos: nat, end: nat, p: Primary)
    requires pos <= end <= |pat| && SpellsPrimary(pat, pos, end, p)
    ensures pos < end && pat[pos] != '|' && !Repeats(pat[pos]) && (pat[pos] == ')' <==> p.Closing?)
  {
    hide SpellsExpr;
    if p.Brackets? {
      HereFirst(pat, pos, "[" + p.text + "]");
    }
  }

  lemma {:induction false} ReadPrimary(pat: CString, pos: nat, end: nat, p: Primary, gid: nat, depth: nat)
    requires pos <= end <= |pat| && GoodPrimary(p) && SpellsPrimary(pat, pos, end, p) && !p.Closing?
    requires depth + PrimaryDepth(p) <= MAX_DEPTH
    ensures pos < end
    ensures var t := PrimaryTree(p, gid); EreAtom(pat, pos, gid, depth) == Done(end, t.gid, t.re)
    decreases p, 0
  {
    if p.Paren? {
      ReadGroup(pat, pos, end, p.expr, gid, depth);
    } else {
      ReadSimple(pat, pos, end, p, gid, depth);
    }
  }

  lemma ReadSimple(pat: CString, pos: nat, end: nat, p: Primary, gid: nat, depth: nat)
    requires pos <= end <= |pat| && GoodPrimary(p) && SpellsPrimary(pat, pos, end, p) && !p.Closing? && !p.Paren?
    ensures pos < end
    ensures var t := PrimaryTree(p, gid); EreAtom(pat, pos, gid, depth) == Done(end, t.gid, t.re)
  {
    hide Ere, BracketAt, BracketText, Here;
    if p.Brackets? {
      BracketRead(pat, pos, p.text, gid);
    }
  }

  lemma {:induction false} ReadGroup(pat: CString, pos: nat, end: nat, e: Expr, gid: nat, depth: nat)
    requires pos + 2 <= end <= |pat| && pat[pos] == '(' && pat[end - 1] == ')'
    requires SpellsExpr(pat, pos + 1, end - 1, e, false)
    requires GoodExpr(e) && PlainExpr(e) && depth + 1 + ExprDepth(e) <= MAX_DEPTH
    ensures var t := PrimaryTree(Paren(e), gid); EreAtom(pat, pos, gid, depth) == Done(end, t.gid, t.re)
    decreases e, 2
  {
    hide Ere, EreAtom, ExprTree, SpellsExpr;
    ReadExpr(pat, pos + 1, end - 1, e, false, gid + 1, depth + 1, Nothing);
    GroupAtom(pat, pos, gid, depth, end - 1, ExprTree(e, gid + 1, Nothing));
  }

  lemma {:induction false} ReadPiece(pat: CString, pos: nat, end: nat, x: Piece, gid: nat, depth: nat)
    requires pos <= end <= |pat| && GoodPiece(x) && SpellsPiece(pat, pos, end, x) && !x.p.Closing?
    requires depth + PrimaryDepth(x.p) <= MAX_DEPTH && !Repeats(At(pat, end))
    ensures pos < end
    ensures var t := PieceTree(x, gid); ErePiece(pat, pos, gid, depth) == Done(end, t.gid, t.re)
    decreases x, 1
  {
    hide EreAtom, ErePiece, SpellsPrimary, SpellsRepeat, PrimaryTree, PieceTree, PrimaryDepth;
    assert GoodPrimary(x.p);
    var mid: nat :| PieceCut(pat, pos, end, x, mid);
    ReadPrimary(pat, pos, mid, x.p, gid, depth);
    ReadRepeat(pat, pos, mid, end, x, gid, depth);
  }

  lemma ReadRepeat(pat: CString, pos: nat, mid: nat, end: nat, x: Piece, gid: nat, depth: nat)
    requires pos < mid <= end <= |pat| && GoodPiece(x) && SpellsRepeat(pat, mid, end, x) && !Repeats(At(pat, end))
    requires var t := PrimaryTree(x.p, gid); EreAtom(pat, pos, gid, depth) == Done(mid, t.gid, t.re)
    ensures var t := PieceTree(x, gid); ErePiece(pat, pos, gid, depth) == Done(end, t.gid, t.re)
  {
    hide EreAtom, PrimaryTree, BoundsAt, BoundsTree, SpellsBound;
    if x.Counted? {
      BoundRead(pat, mid + 1, true, x.min, x.max, end);
    }
  }

  // What follows a piece inside a branch is no repetition sign.
  lemma BranchStart(pat: CString, pos: nat, end: nat, b: Branch)
    requires pos <= end <= |pat| && SpellsBranch(pat, pos, end, b) && BranchEnds(pat, end)
    ensures pos <= end && !Repeats(At(pat, pos))
    ensures b.Followed? ==> At(pat, pos) != '|' && (BranchEnds(pat, pos) <==> b.first.p.Closing?)
    ensures b.Followed? && b.first.p.Closing? ==> At(pat, pos) == ')'
  {
    if b.Followed? {
      hide SpellsPrimary, SpellsRepeat;
      var mid: nat :| BranchCut(pat, pos, end, b, mid);
      assert SpellsPiece(pat, pos, mid, b.first);
      var m: nat :| PieceCut(pat, pos, mid, b.first, m);
      PrimaryStart(pat, pos, m, b.first.p);
    }
  }

  lemma {:induction false} ReadBranch(pat: CString, pos: nat, end: nat, b: Branch, gid: nat, depth: nat, acc: Partial)
    requires pos <= end <= |pat| && GoodBranch(b) && SpellsBranch(pat, pos, end, b) && PlainBranch(b)
    requires depth + BranchDepth(b) <= MAX_DEPTH && BranchEnds(pat, end)
    ensures var t := BranchTree(b, gid, acc); EreBranch(pat, pos, gid, depth, acc) == Done(end, t.gid, t.re)
    decreases b, 1
  {
    hide EreBranch, ErePiece, PieceTree, SpellsPiece, PrimaryDepth, BranchEnds, GoodPiece;
    BranchStart(pat, pos, end, b);
    if b.End? {
      BranchStop(pat, pos, gid, depth, acc);
    } else {
      var mid: nat :| BranchCut(pat, pos, end, b, mid);
      BranchStart(pat, mid, end, b.rest);
      ReadPiece(pat, pos, mid, b.first, gid, depth);
      var t := PieceTree(b.first, gid);
      BranchNext(pat, pos, gid, depth, acc, mid, t);
      ReadBranch(pat, mid, end, b.rest, t.gid, depth, Something(Then(acc, t.re)));
    }
  }

  /** An expression is read up to the end of its text, where the pattern or its group ends. */
  lemma {:induction false} ReadExpr(pat: CString, pos: nat, end: nat, e: Expr, behind: bool, gid: nat, depth: nat,
          acc: Partial)
    requires pos <= end <= |pat| && GoodExpr(e) && SpellsExpr(pat, pos, end, e, behind) && PlainExpr(e)
    requires depth + ExprDepth(e) <= MAX_DEPTH && EreEnds(pat, end) && (behind <==> acc.Something?)
    ensures var t := ExprTree(e, gid, acc); Ere(pat, pos, gid, depth, acc) == Done(end, t.gid, t.re)
    decreases e, 1
  {
    hide Ere, BranchTree, SpellsBranch, BranchDepth, GoodBranch, PlainBranch;
    match e
    case Only(b) =>
      if pos < end && pat[end - 1] == '|' && SpellsBranch(pat, pos, end - 1, b) {
        ReadBar(pat, pos, end - 1, b, gid, depth, acc);
        var t := BranchTree(b, gid, Nothing);
        EreStop(pat, end, t.gid, depth, Something(OrElse(acc, t.re)));
      } else {
        ReadLast(pat, pos, end, b, gid, depth, acc);
      }
    case Or(b, rest) =>
      var mid: nat :| ExprCut(pat, pos, end, e, mid);
      ReadBar(pat, pos, mid, b, gid, depth, acc);
      var t := BranchTree(b, gid, Nothing);
      ReadExpr(pat, mid + 1, end, rest, true, t.gid, depth, Something(OrElse(acc, t.re)));
  }

  lemma {:induction false} ReadLast(pat: CString, pos: nat, end: nat, b: Branch, gid: nat, depth: nat, acc: Partial)
    requires pos <= end <= |pat| && GoodBranch(b) && SpellsBranch(pat, pos, end, b) && PlainBranch(b)
    requires depth + BranchDepth(b) <= MAX_DEPTH && EreEnds(pat, end) && (acc.Something? ==> b != End)
    ensures var t := BranchTree(b, gid, Nothing);
      Ere(pat, pos, gid, depth, acc) == Done(end, t.gid, OrElse(acc, t.re))
    decreases b, 2
  {
    hide Ere, EreBranch, SpellsBranch, BranchDepth, GoodBranch;
    BranchStart(pat, pos, end, b);
    var t := BranchTree(b, gid, Nothing);
    if b.End? {
      EmptySpelled(pat, pos, end);
      EreStop(pat, pos, gid, depth, acc);
    } else {
      hide BranchTree;
      ReadBranch(pat, pos, end, b, gid, depth, Nothing);
      EreNext(pat, pos, gid, depth, acc, end, t);
      EreStop(pat, end, t.gid, depth, Something(OrElse(acc, t.re)));
    }
  }

  lemma EmptySpelled(pat: CString, pos: nat, end: nat)
    requires end <= |pat|
    ensures SpellsBranch(pat, pos, end, End) <==> pos == end
  {
  }

  // An alternative with a bar behind it.
  lemma {:induction false} ReadBar(pat: CString, pos: nat, bar: nat, b: Branch, gid: nat, depth: nat, acc: Partial)
    requires pos <= bar < |pat| && GoodBranch(b) && SpellsBranch(pat, pos, bar, b) && PlainBranch(b) && pat[bar] == '|'
    requires depth + BranchDepth(b) <= MAX_DEPTH
    ensures var t := BranchTree(b, gid, Nothing);
      Ere(pat, pos, gid, depth, acc) == Ere(pat, bar + 1, t.gid, depth, Something(OrElse(acc, t.re)))
    decreases b, 2
  {
    hide Ere, EreBranch, BranchTree, SpellsBranch, BranchDepth, GoodBranch;
    BranchStart(pat, pos, bar, b);
    if b.End? {
      EmptySpelled(pat, pos, bar);
    }
    ReadBranch(pat, pos, bar, b, gid, depth, Nothing);
    EreNext(pat, pos, gid, depth, acc, bar, BranchTree(b, gid, Nothing));
  }

  // ---- an unmatched parenthesis

  /** Reading a branch ends at its first unmatched parenthesis. */
  lemma {:induction false} StopsInBranch(pat: CString, pos: nat, end: nat, b: Branch, gid: nat, depth: nat,
          acc: Partial)
    returns (stop: nat, t: Tree)
    requires pos <= end <= |pat| && GoodBranch(b) && SpellsBranch(pat, pos, end, b) && !PlainBranch(b)
    requires depth + BranchDepth(b) <= MAX_DEPTH && BranchEnds(pat, end)
    ensures EreBranch(pat, pos, gid, depth, acc) == Done(stop, t.gid, t.re)
    ensures pos <= stop < |pat| && pat[stop] == ')' && At(pat, pos) != '|'
    decreases b, 1
  {
    hide EreBranch, ErePiece, PieceTree, SpellsPiece, PrimaryDepth, GoodPiece;
    BranchStart(pat, pos, end, b);
    if b.first.p.Closing? {
      BranchStop(pat, pos, gid, depth, acc);
      stop, t := pos, Tree(Whole(acc), gid);
    } else {
      var mid: nat :| BranchCut(pat, pos, end, b, mid);
      BranchStart(pat, mid, end, b.rest);
      ReadPiece(pat, pos, mid, b.first, gid, depth);
      t := PieceTree(b.first, gid);
      BranchNext(pat, pos, gid, depth, acc, mid, t);
      stop, t := StopsInBranch(pat, mid, end, b.rest, t.gid, depth, Something(Then(acc, t.re)));
    }
  }

  /** So does reading an expression. */
  lemma {:induction false} StopsInExpr(pat: CString, pos: nat, end: nat, e: Expr, behind: bool, gid: nat, depth: nat,
          acc: Partial)
    returns (stop: nat, t: Tree)
    requires pos <= end <= |pat| && GoodExpr(e) && SpellsExpr(pat, pos, end, e, behind) && !PlainExpr(e)
    requires depth + ExprDepth(e) <= MAX_DEPTH && EreEnds(pat, end)
    ensures Ere(pat, pos, gid, depth, acc) == Done(stop, t.gid, t.re)
    ensures stop < |pat| && pat[stop] == ')'
    decreases e, 1
  {
    hide EreBranch, BranchTree, SpellsBranch, BranchDepth, Ere, GoodBranch, PlainBranch;
    var b, stopAt := e.branch, end;
    match e
    case Only(_) =>
      if !SpellsBranch(pat, pos, end, b) {
        stopAt := end - 1;
      }
      stop, t := StopsInBranch(pat, pos, stopAt, b, gid, depth, Nothing);
      t := StopAtParen(pat, pos, gid, depth, acc, stop, t);
    case Or(_, rest) =>
      var mid: nat :| ExprCut(pat, pos, end, e, mid);
      if PlainBranch(b) {
        t := BranchTree(b, gid, Nothing);
        ReadBar(pat, pos, mid, b, gid, depth, acc);
        stop, t := StopsInExpr(pat, mid + 1, end, rest, true, t.gid, depth, Something(OrElse(acc, t.re)));
      } else {
        stop, t := StopsInBranch(pat, pos, mid, b, gid, depth, Nothing);
        t := StopAtParen(pat, pos, gid, depth, acc, stop, t);
      }
  }

  // An alternative that is read up to a right parenthesis is the last.
  lemma StopAtParen(pat: CString, pos: nat, gid: nat, depth: nat, acc: Partial, end: nat, t: Tree)
    returns (last: Tree)
    requires pos <= end < |pat| && pat[end] == ')' && EreBranch(pat, pos, gid, depth, Nothing) == Done(end, t.gid, t.re)
    ensures Ere(pat, pos, gid, depth, acc) == Done(end, last.gid, last.re)
  {
    hide Ere, EreBranch;
    if EreEnds(pat, pos) {
      BranchStop(pat, pos, gid, depth, Nothing);
      EreStop(pat, pos, gid, depth, acc);
      last := Tree(Whole(acc), gid);
    } else {
      EreNext(pat, pos, gid, depth, acc, end, t);
      last := Tree(OrElse(acc, t.re), t.gid);
      EreStop(pat, end, t.gid, depth, Something(last.re));
    }
  }

  // ---- what is read is spelled

  lemma {:induction false} AtomSpelled(pat: CString, pos: nat, gid: nat, depth: nat) returns (p: Primary)
    requires pos < |pat| && !BranchEnds(pat, pos) && EreAtom(pat, pos, gid, depth).Done? && depth <= MAX_DEPTH
    ensures var r := EreAtom(pat, pos, gid, depth);
      && GoodPrimary(p) && !p.Closing? && SpellsPrimary(pat, pos, r.pos, p) && depth + PrimaryDepth(p) <= MAX_DEPTH
      && PrimaryTree(p, gid) == Tree(r.re, r.gid)
    decreases |pat| - pos, 1
  {
    if pat[pos] == '(' {
      p := GroupSpelled(pat, pos, gid, depth);
    } else {
      p := SimpleSpelled(pat, pos, gid, depth);
    }
  }

  lemma SimpleSpelled(pat: CString, pos: nat, gid: nat, depth: nat) returns (p: Primary)
    requires pos < |pat| && !BranchEnds(pat, pos) && EreAtom(pat, pos, gid, depth).Done? && pat[pos] != '('
    ensures var r := EreAtom(pat, pos, gid, depth);
      && GoodPrimary(p) && !p.Closing? && !p.Paren? && SpellsPrimary(pat, pos, r.pos, p)
      && PrimaryTree(p, gid) == Tree(r.re, r.gid)
  {
    hide Ere, BracketAt, BracketText, Here;
    var x := pat[pos];
    if x == '^' {
      p := Caret;
    } else if x == '$' {
      p := Dollar;
    } else if x == '.' {
      p := Dot;
    } else if x == '[' {
      var text := BracketIs(pat, pos, gid);
      p := Brackets(text, pos);
    } else if x == '\\' {
      p := Ordinary(pat[pos + 1]);
    } else {
      p := Ordinary(x);
    }
  }

  lemma {:induction false} GroupSpelled(pat: CString, pos: nat, gid: nat, depth: nat) returns (p: Primary)
    requires pos < |pat| && pat[pos] == '(' && EreAtom(pat, pos, gid, depth).Done? && depth <= MAX_DEPTH
    ensures var r := EreAtom(pat, pos, gid, depth);
      && p.Paren? && GoodPrimary(p) && SpellsPrimary(pat, pos, r.pos, p) && depth + PrimaryDepth(p) <= MAX_DEPTH
      && PrimaryTree(p, gid) == Tree(r.re, r.gid)
    decreases |pat| - pos, 0
  {
    hide Ere, SpellsExpr, ExprTree, GoodExpr, PlainExpr;
    var inner := Ere(pat, pos + 1, gid + 1, depth + 1, Nothing);
    var e := ExprSpelled(pat, pos + 1, gid + 1, depth + 1, Nothing);
    p := Paren(e);
  }

  lemma {:induction false} PieceSpelled(pat: CString, pos: nat, gid: nat, depth: nat) returns (x: Piece)
    requires pos < |pat| && !BranchEnds(pat, pos) && ErePiece(pat, pos, gid, depth).Done? && depth <= MAX_DEPTH
    ensures var r := ErePiece(pat, pos, gid, depth);
      && GoodPiece(x) && !x.p.Closing? && SpellsPiece(pat, pos, r.pos, x) && depth + PrimaryDepth(x.p) <= MAX_DEPTH
      && PieceTree(x, gid) == Tree(r.re, r.gid)
    decreases |pat| - pos, 2
  {
    hide EreAtom, BoundsAt, BoundsTree, SpellsPrimary, SpellsBound, GoodPrimary, PrimaryTree, PrimaryDepth;
    var a, r := EreAtom(pat, pos, gid, depth), ErePiece(pat, pos, gid, depth);
    var p := AtomSpelled(pat, pos, gid, depth);
    var sign := At(pat, a.pos);
    if sign == '*' {
      x := ZeroOrMore(p);
    } else if sign == '+' {
      x := OneOrMore(p);
    } else if sign == '?' {
      x := Optional(p);
    } else if sign == '{' {
      var b := BoundsAt(pat, a.pos + 1, true);
      BoundRead(pat, a.pos + 1, true, b.min, b.max, b.pos);
      x := Counted(p, b.min, b.max);
    } else {
      x := Once(p);
    }
    assert PieceCut(pat, pos, r.pos, x, a.pos);
  }

  lemma {:induction false} BranchSpelled(pat: CString, pos: nat, gid: nat, depth: nat, acc: Partial) returns (b: Branch)
    requires pos <= |pat| && EreBranch(pat, pos, gid, depth, acc).Done? && depth <= MAX_DEPTH
    ensures var r := EreBranch(pat, pos, gid, depth, acc);
      && GoodBranch(b) && PlainBranch(b) && SpellsBranch(pat, pos, r.pos, b) && depth + BranchDepth(b) <= MAX_DEPTH
      && BranchTree(b, gid, acc) == Tree(r.re, r.gid)
    decreases |pat| - pos, 3
  {
    hide ErePiece, SpellsPiece, GoodPiece, PieceTree, PrimaryDepth;
    if BranchEnds(pat, pos) {
      b := End;
    } else {
      var a := ErePiece(pat, pos, gid, depth);
      var x := PieceSpelled(pat, pos, gid, depth);
      var rest := BranchSpelled(pat, a.pos, a.gid, depth, Something(Then(acc, a.re)));
      b := Followed(x, rest);
      assert BranchCut(pat, pos, EreBranch(pat, pos, gid, depth, acc).pos, b, a.pos);
    }
  }

  /** Whatever an expression is read from spells one with that tree. */
  lemma {:induction false} ExprSpelled(pat: CString, pos: nat, gid: nat, depth: nat, acc: Partial) returns (e: Expr)
    requires pos <= |pat| && Ere(pat, pos, gid, depth, acc).Done? && depth <= MAX_DEPTH
    requires acc.Something? ==> !EreEnds(pat, pos)
    ensures var r := Ere(pat, pos, gid, depth, acc);
      && GoodExpr(e) && PlainExpr(e) && SpellsExpr(pat, pos, r.pos, e, acc.Something?)
      && depth + ExprDepth(e) <= MAX_DEPTH && ExprTree(e, gid, acc) == Tree(r.re, r.gid)
    decreases |pat| - pos, 4
  {
    hide Ere, EreBranch, BranchTree, SpellsBranch, GoodBranch, PlainBranch, BranchDepth;
    if EreEnds(pat, pos) {
      EreStop(pat, pos, gid, depth, acc);
      e := Only(End);
      EmptyIs(pat, pos, gid);
    } else {
      var a := EreBranch(pat, pos, gid, depth, Nothing);
      EreFails(pat, pos, gid, depth, acc);
      var t := Tree(a.re, a.gid);
      var b := BranchSpelled(pat, pos, gid, depth, Nothing);
      EreNext(pat, pos, gid, depth, acc, a.pos, t);
      var next := Something(OrElse(acc, t.re));
      if At(pat, a.pos) != '|' {
        EreStop(pat, a.pos, t.gid, depth, next);
        NotEmpty(pat, pos, a.pos, b);
        e := Only(b);
      } else if EreEnds(pat, a.pos + 1) {
        EreStop(pat, a.pos + 1, t.gid, depth, next);
        e := Only(b);
      } else {
        var rest := ExprSpelled(pat, a.pos + 1, t.gid, depth, next);
        e := Or(b, rest);
        assert ExprCut(pat, pos, Ere(pat, pos, gid, depth, acc).pos, e, a.pos);
      }
    }
  }

  lemma EreFails(pat: CString, pos: nat, gid: nat, depth: nat, acc: Partial)
    requires pos <= |pat| && !EreEnds(pat, pos) && Ere(pat, pos, gid, depth, acc).Done?
    ensures EreBranch(pat, pos, gid, depth, Nothing).Done?
  {
    hide EreBranch;
  }

  lemma EmptyIs(pat: CString, pos: nat, gid: nat)
    requires pos <= |pat|
    ensures SpellsBranch(pat, pos, pos, End) && BranchTree(End, gid, Nothing) == Tree(Empty, gid)
    ensures GoodBranch(End) && PlainBranch(End) && BranchDepth(End) == 0
  {
  }

  // A branch that ends elsewhere than at a bar, and does not start there, is not empty.
  lemma NotEmpty(pat: CString, pos: nat, end: nat, b: Branch)
    requires pos <= end <= |pat| && SpellsBranch(pat, pos, end, b) && !EreEnds(pat, pos) && EreEnds(pat, end)
    ensures b != End
  {
  }

  // ---- whole patterns

  /** The pattern spells the expression, which is one regcomp takes. */
  ghost predicate Spells(pat: CString, e: Expr) {
    GoodExpr(e) && PlainExpr(e) && ExprDepth(e) <= MAX_DEPTH && SpellsExpr(pat, 0, |pat|, e, false)
  }

  /** regcomp accepts exactly the patterns that spell an expression, and makes of each the tree of that expression. */
  lemma AcceptedIsSpelled(pat: CString) returns (e: Expr)
    ensures Pattern(pat, true).Done? <==> exists f :: Spells(pat, f)
    ensures Pattern(pat, true).Done? ==> Spells(pat, e)
    ensures forall f | Spells(pat, f) ::
      var t := ExprTree(f, 0, Nothing); Pattern(pat, true) == Done(|pat|, t.gid, t.re)
  {
    hide Ere, ExprTree, SpellsExpr, GoodExpr, PlainExpr;
    if Pattern(pat, true).Done? {
      e := ExprSpelled(pat, 0, 0, 0, Nothing);
      assert Spells(pat, e);
    } else {
      e := Only(End);
    }
    forall f | Spells(pat, f)
      ensures var t := ExprTree(f, 0, Nothing); Pattern(pat, true) == Done(|pat|, t.gid, t.re)
    {
      ReadExpr(pat, 0, |pat|, f, false, 0, 0, Nothing);
    }
  }

  /** With a right parenthesis outside all groups, however it is spelled, an expression is refused. */
  lemma UnmatchedRefused(pat: CString, e: Expr)
    requires GoodExpr(e) && !PlainExpr(e) && ExprDepth(e) <= MAX_DEPTH && SpellsExpr(pat, 0, |pat|, e, false)
    ensures Pattern(pat, true) == Fail(REG_EPAREN)
  {
    hide Ere, SpellsExpr, GoodExpr, PlainExpr;
    var stop, t := StopsInExpr(pat, 0, |pat|, e, false, 0, 0, Nothing);
  }
}
