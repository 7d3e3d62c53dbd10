/** The texts that spell a basic expression, and that regcomp accepts exactly those: what each of them is read as,
    and that nothing else is accepted. Texts for which section 9.3 of POSIX.1-2017 Base Definitions defines nothing
    are among them, such as `a**`, `\\a` and anchors at the ends of groups; back references are read as such. */
module BreText {
  import opened RegexSemantics
  import opened RegexGrammar
  import opened RegexTexts
  import opened EreSyntax
  import opened BreSyntax
  import opened CStrings

  /** Where the code takes a caret for an anchor. */
  predicate Opening(pat: CString, pos: nat)
    requires pos <= |pat|
  {
    pos == 0 || (pos >= 2 && pat[pos - 1] == '(' && pat[pos - 2] == '\\')
  }

  // What would repeat the piece before it.
  predicate RepeatsBasic(pat: CString, pos: nat)
    requires pos <= |pat|
  {
    At(pat, pos) == '*' || (At(pat, pos) == '\\' && At(pat, pos + 1) == '{')
  }

  // ---- spelling

  /** The text of the pattern from pos to end spells the primary, `gid` groups having been opened before. A caret is an
      anchor where the pattern or a group opens, a dollar where one ends. Every character may have a backslash before
      it with which it would not be something else. */
  ghost predicate SpellsAtom(pat: CString, pos: nat, end: nat, p: Primary, gid: nat)
    requires end <= |pat|
    decreases p, 0
  {
    match p
    case Ordinary(c) =>
      || (end == pos + 1 && pat[pos] == c && c !in {'\\', '.', '[', '*'}
          && (c == '^' ==> !Opening(pat, pos)) && (c == '$' ==> !BreEnds(pat, end)))
      || (end == pos + 2 && pat[pos] == '\\' && pat[pos + 1] == c && c !in {'(', ')', '{'} && !('1' <= c <= '9'))
    case Dot => end == pos + 1 && pat[pos] == '.'
    case Caret => end == pos + 1 && pat[pos] == '^' && Opening(pat, pos)
    case Dollar => end == pos + 1 && pat[pos] == '$' && BreEnds(pat, end)
    case Brackets(text, at) =>
      at == pos && end == pos + |text| + 2 && Here(pat, pos, "[" + text + "]") && BracketText(text)
    case Reference(n) =>
      end == pos + 2 && pat[pos] == '\\' && 1 <= n <= 9 && n <= gid && pat[pos + 1] as int == '0' as int + n
    case Closing => false
    case Paren(e) =>
      && e.Only? && pos + 4 <= end && pat[pos] == '\\' && pat[pos + 1] == '('
      && pat[end - 2] == '\\' && pat[end - 1] == ')' && SpellsRun(pat, pos + 2, end - 2, e.branch, gid + 1)
  }

  ghost predicate SpellsTimes(pat: CString, pos: nat, end: nat, x: Piece)
    requires end <= |pat|
  {
    match x
    case Once(_) => end == pos && !RepeatsBasic(pat, end)
    case ZeroOrMore(_) => end == pos + 1 && pat[pos] == '*'
    case Counted(_, min, max) =>
      && pos + 4 <= end && pat[pos] == '\\' && pat[pos + 1] == '{' && pat[end - 2] == '\\' && pat[end - 1] == '}'
      && SmallBound(min, max) && SpellsBound(pat, pos + 2, end - 2, min, max)
    case OneOrMore(_) | Optional(_) => false
  }

  ghost predicate ItemCut(pat: CString, pos: nat, end: nat, x: Piece, gid: nat, mid: nat)
    requires end <= |pat|
    decreases x, 0
  {
    pos <= mid <= end && SpellsAtom(pat, pos, mid, x.p, gid) && SpellsTimes(pat, mid, end, x)
  }

  // A star that has nothing to repeat.
  predicate LoneStar(pat: CString, pos: nat, end: nat, x: Piece)
    requires end <= |pat|
  {
    x == Once(Ordinary('*')) && end == pos + 1 && pat[pos] == '*'
  }

  ghost predicate SpellsItem(pat: CString, pos: nat, end: nat, x: Piece, gid: nat)
    requires end <= |pat|
    decreases x, 1
  {
    LoneStar(pat, pos, end, x) || exists mid: nat :: ItemCut(pat, pos, end, x, gid, mid)
  }

  ghost predicate RunCut(pat: CString, pos: nat, end: nat, b: Branch, gid: nat, mid: nat)
    requires end <= |pat| && b.Followed?
    decreases b, 0
  {
    && pos <= mid <= end && SpellsItem(pat, pos, mid, b.first, gid)
    && SpellsRun(pat, mid, end, b.rest, gid + PrimaryGroups(b.first.p))
  }

  ghost predicate SpellsRun(pat: CString, pos: nat, end: nat, b: Branch, gid: nat)
    requires end <= |pat|
    decreases b, 1
  {
    if b.End? then pos == end else exists mid: nat :: RunCut(pat, pos, end, b, gid, mid)
  }

  // ---- one step of the loop

  // One piece of a branch.
  lemma BreStep(pat: CString, pos: nat, gid: nat, depth: nat, acc: Partial, end: nat, t: Tree)
    requires pos < |pat| && !BreEnds(pat, pos) && end <= |pat|
    requires BrePiece(pat, pos, gid, depth) == Done(end, t.gid, t.re)
    ensures Bre(pat, pos, gid, depth, acc) == Bre(pat, end, t.gid, depth, Something(Then(acc, t.re)))
  {
    hide BrePiece;
  }

  lemma BreStop(pat: CString, pos: nat, gid: nat, depth: nat, acc: Partial)
    requires pos <= |pat| && BreEnds(pat, pos)
    ensures Bre(pat, pos, gid, depth, acc) == Done(pos, gid, Whole(acc))
  {
  }

  // A group whose inside has been read up to `end`.
  lemma GroupAtom(pat: CString, pos: nat, gid: nat, depth: nat, end: nat, t: Tree)
    requires pos + 2 <= end <= |pat| && depth < MAX_DEPTH && pat[pos] == '\\' && pat[pos + 1] == '('
    requires Bre(pat, pos + 2, gid + 1, depth + 1, Nothing) == Done(end, t.gid, t.re)
    requires At(pat, end) == '\\' && At(pat, end + 1) == ')'
    ensures BreAtom(pat, pos, gid, depth)
      == Done(end + 2, t.gid, Group(gid + 1, Concat(t.re, Leaf(GroupEnd(gid + 1)))))
  {
    hide Bre;
  }

  // ---- what is spelled is read

  lemma AtomStart(pat: CString, pos: nat, end: nat, p: Primary, gid: nat)
    requires end <= |pat| && SpellsAtom(pat, pos, end, p, gid)
    ensures pos < end && pat[pos] != '*' && !BreEnds(pat, pos) && !RepeatsBasic(pat, pos)
  {
    hide SpellsRun, BracketText;
    if p.Brackets? {
      HereFirst(pat, pos, "[" + p.text + "]");
    }
  }

  lemma ItemStart(pat: CString, pos: nat, end: nat, x: Piece, gid: nat)
    requires end <= |pat| && SpellsItem(pat, pos, end, x, gid)
    ensures pos < end && !BreEnds(pat, pos)
  {
    if !LoneStar(pat, pos, end, x) {
      var mid: nat :| ItemCut(pat, pos, end, x, gid, mid);
      AtomStart(pat, pos, mid, x.p, gid);
    }
  }

  lemma {:induction false} ReadAtom(pat: CString, pos: nat, end: nat, p: Primary, gid: nat, depth: nat)
    requires pos < end <= |pat| && SpellsAtom(pat, pos, end, p, gid) && depth + PrimaryDepth(p) <= MAX_DEPTH
    ensures var t := PrimaryTree(p, gid); BreAtom(pat, pos, gid, depth) == Done(end, t.gid, t.re)
    decreases p, 0
  {
    if p.Paren? {
      ReadGroup(pat, pos, end, p.expr, gid, depth);
    } else {
      ReadSimple(pat, pos, end, p, gid, depth);
    }
  }

  lemma ReadSimple(pat: CString, pos: nat, end: nat, p: Primary, gid: nat, depth: nat)
    requires pos < end <= |pat| && SpellsAtom(pat, pos, end, p, gid) && !p.Paren?
    ensures var t := PrimaryTree(p, gid); BreAtom(pat, pos, gid, depth) == Done(end, t.gid, t.re)
  {
    hide Bre, BracketAt, BracketText, Here;
    if p.Brackets? {
      BracketRead(pat, pos, p.text, gid);
    }
  }

  lemma {:induction false} ReadGroup(pat: CString, pos: nat, end: nat, e: Expr, gid: nat, depth: nat)
    requires pos < end <= |pat| && SpellsAtom(pat, pos, end, Paren(e), gid) && depth + 1 + ExprDepth(e) <= MAX_DEPTH
    ensures var t := PrimaryTree(Paren(e), gid); BreAtom(pat, pos, gid, depth) == Done(end, t.gid, t.re)
    decreases e, 2
  {
    hide Bre, BreAtom, BranchTree, SpellsRun, BranchDepth;
    var b := e.branch;
    assert ExprTree(e, gid + 1, Nothing) == BranchTree(b, gid + 1, Nothing);
    ReadRun(pat, pos + 2, end - 2, b, gid + 1, depth + 1, Nothing);
    GroupAtom(pat, pos, gid, depth, end - 2, BranchTree(b, gid + 1, Nothing));
  }

  lemma {:induction false} ReadItem(pat: CString, pos: nat, end: nat, x: Piece, gid: nat, depth: nat)
    requires end <= |pat| && SpellsItem(pat, pos, end, x, gid) && depth + PrimaryDepth(x.p) <= MAX_DEPTH
    ensures pos < end
    ensures var t := PieceTree(x, gid); BrePiece(pat, pos, gid, depth) == Done(end, t.gid, t.re)
    decreases x, 1
  {
    hide BreAtom, BrePiece, SpellsAtom, SpellsTimes, PrimaryTree, PieceTree, PrimaryDepth;
    if LoneStar(pat, pos, end, x) {
      StarRead(pat, pos, gid, depth);
    } else {
      var mid: nat :| ItemCut(pat, pos, end, x, gid, mid);
      AtomStart(pat, pos, mid, x.p, gid);
      ReadAtom(pat, pos, mid, x.p, gid, depth);
      ReadTimes(pat, pos, mid, end, x, gid, depth);
    }
  }

  lemma StarRead(pat: CString, pos: nat, gid: nat, depth: nat)
    requires pos < |pat| && pat[pos] == '*'
    ensures var t := PieceTree(Once(Ordinary('*')), gid); BrePiece(pat, pos, gid, depth) == Done(pos + 1, t.gid, t.re)
  {
  }

  lemma ReadTimes(pat: CString, pos: nat, mid: nat, end: nat, x: Piece, gid: nat, depth: nat)
    requires pos < mid <= end <= |pat| && pat[pos] != '*' && SpellsTimes(pat, mid, end, x)
    requires var t := PrimaryTree(x.p, gid); BreAtom(pat, pos, gid, depth) == Done(mid, t.gid, t.re)
    ensures var t := PieceTree(x, gid); BrePiece(pat, pos, gid, depth) == Done(end, t.gid, t.re)
  {
    hide BreAtom, PrimaryTree, BoundsAt, BoundsTree, SpellsBound;
    if x.Counted? {
      BoundRead(pat, mid + 2, false, x.min, x.max, end);
    }
  }

  /** A run of pieces is read up to the end of its text, where the pattern or its group ends. */
  lemma {:induction false} ReadRun(pat: CString, pos: nat, end: nat, b: Branch, gid: nat, depth: nat, acc: Partial)
    requires end <= |pat| && SpellsRun(pat, pos, end, b, gid) && depth + BranchDepth(b) <= MAX_DEPTH
    requires BreEnds(pat, end)
    ensures pos <= end
    ensures var t := BranchTree(b, gid, acc); Bre(pat, pos, gid, depth, acc) == Done(end, t.gid, t.re)
    decreases b, 1
  {
    hide Bre, BrePiece, PieceTree, SpellsItem, PrimaryDepth, BreEnds;
    if b.End? {
      BreStop(pat, pos, gid, depth, acc);
    } else {
      var mid: nat :| RunCut(pat, pos, end, b, gid, mid);
      ItemStart(pat, pos, mid, b.first, gid);
      ReadItem(pat, pos, mid, b.first, gid, depth);
      var t := PieceTree(b.first, gid);
      PieceCounted(b.first, gid);
      BreStep(pat, pos, gid, depth, acc, mid, t);
      ReadRun(pat, mid, end, b.rest, t.gid, depth, Something(Then(acc, t.re)));
    }
  }

  // ---- what is read is spelled

  lemma {:induction false} AtomSpelled(pat: CString, pos: nat, gid: nat, depth: nat) returns (p: Primary)
    requires pos < |pat| && pat[pos] != '*' && !BreEnds(pat, pos) && BreAtom(pat, pos, gid, depth).Done?
    requires depth <= MAX_DEPTH
    ensures var r := BreAtom(pat, pos, gid, depth);
      && SpellsAtom(pat, pos, r.pos, p, gid) && depth + PrimaryDepth(p) <= MAX_DEPTH
      && PrimaryTree(p, gid) == Tree(r.re, r.gid)
    decreases |pat| - pos, 1
  {
    if pat[pos] == '\\' && At(pat, pos + 1) == '(' {
      p := GroupSpelled(pat, pos, gid, depth);
    } else {
      p := SimpleSpelled(pat, pos, gid, depth);
    }
  }

  lemma SimpleSpelled(pat: CString, pos: nat, gid: nat, depth: nat) returns (p: Primary)
    requires pos < |pat| && pat[pos] != '*' && !BreEnds(pat, pos) && BreAtom(pat, pos, gid, depth).Done?
    requires !(pat[pos] == '\\' && At(pat, pos + 1) == '(')
    ensures var r := BreAtom(pat, pos, gid, depth);
      !p.Paren? && SpellsAtom(pat, pos, r.pos, p, gid) && PrimaryTree(p, gid) == Tree(r.re, r.gid)
  {
    hide Bre, BracketAt, BracketText, Here;
    var x := pat[pos];
    if x == '^' {
      p := if Opening(pat, pos) then Caret else Ordinary('^');
    } else if x == '$' {
      p := if BreEnds(pat, pos + 1) then Dollar else Ordinary('$');
    } else if x == '.' {
      p := Dot;
    } else if x == '[' {
      var text := BracketIs(pat, pos, gid);
      p := Brackets(text, pos);
    } else if x == '\\' {
      var nx := pat[pos + 1];
      p := if '1' <= nx <= '9' then Reference(nx as int - '0' as int) else Ordinary(nx);
    } else {
      p := Ordinary(x);
    }
  }

  lemma {:induction false} GroupSpelled(pat: CString, pos: nat, gid: nat, depth: nat) returns (p: Primary)
    requires pos < |pat| && pat[pos] == '\\' && At(pat, pos + 1) == '(' && BreAtom(pat, pos, gid, depth).Done?
    requires depth <= MAX_DEPTH
    ensures var r := BreAtom(pat, pos, gid, depth);
      && SpellsAtom(pat, pos, r.pos, p, gid) && depth + PrimaryDepth(p) <= MAX_DEPTH
      && PrimaryTree(p, gid) == Tree(r.re, r.gid)
    decreases |pat| - pos, 0
  {
    hide Bre, SpellsRun, BranchTree, BranchDepth;
    var b := RunSpelled(pat, pos + 2, gid + 1, depth + 1, Nothing);
    p := Paren(Only(b));
    assert ExprTree(Only(b), gid + 1, Nothing) == BranchTree(b, gid + 1, Nothing);
  }

  lemma {:induction false} ItemSpelled(pat: CString, pos: nat, gid: nat, depth: nat) returns (x: Piece)
    requires pos < |pat| && !BreEnds(pat, pos) && BrePiece(pat, pos, gid, depth).Done? && depth <= MAX_DEPTH
    ensures var r := BrePiece(pat, pos, gid, depth);
      && SpellsItem(pat, pos, r.pos, x, gid) && depth + PrimaryDepth(x.p) <= MAX_DEPTH
      && PieceTree(x, gid) == Tree(r.re, r.gid)
    decreases |pat| - pos, 2
  {
    hide BreAtom, BoundsAt, BoundsTree, SpellsAtom, SpellsBound, PrimaryTree, PrimaryDepth;
    if pat[pos] == '*' {
      x := Once(Ordinary('*'));
      StarRead(pat, pos, gid, depth);
      NoDepth('*');
    } else {
      var a, r := BreAtom(pat, pos, gid, depth), BrePiece(pat, pos, gid, depth);
      var p := AtomSpelled(pat, pos, gid, depth);
      if At(pat, a.pos) == '*' {
        x := ZeroOrMore(p);
      } else if RepeatsBasic(pat, a.pos) {
        var b := BoundsAt(pat, a.pos + 2, false);
        BoundRead(pat, a.pos + 2, false, b.min, b.max, b.pos);
        x := Counted(p, b.min, b.max);
      } else {
        x := Once(p);
      }
      assert ItemCut(pat, pos, r.pos, x, gid, a.pos);
    }
  }

  lemma NoDepth(c: char)
    ensures PrimaryDepth(Ordinary(c)) == 0
  {
  }

  /** Whatever a run is read from spells one with that tree. */
  lemma {:induction false} RunSpelled(pat: CString, pos: nat, gid: nat, depth: nat, acc: Partial) returns (b: Branch)
    requires pos <= |pat| && Bre(pat, pos, gid, depth, acc).Done? && depth <= MAX_DEPTH
    ensures var r := Bre(pat, pos, gid, depth, acc);
      && SpellsRun(pat, pos, r.pos, b, gid) && depth + BranchDepth(b) <= MAX_DEPTH
      && BranchTree(b, gid, acc) == Tree(r.re, r.gid)
    decreases |pat| - pos, 3
  {
    hide BrePiece, SpellsItem, PieceTree, PrimaryDepth;
    if BreEnds(pat, pos) {
      b := End;
    } else {
      var a := BrePiece(pat, pos, gid, depth);
      var x := ItemSpelled(pat, pos, gid, depth);
      PieceCounted(x, gid);
      var rest := RunSpelled(pat, a.pos, a.gid, depth, Something(Then(acc, a.re)));
      b := Followed(x, rest);
      assert RunCut(pat, pos, Bre(pat, pos, gid, depth, acc).pos, b, gid, a.pos);
    }
  }

  // ---- whole patterns

  ghost predicate SpellsBasic(pat: CString, b: Branch) {
    BranchDepth(b) <= MAX_DEPTH && SpellsRun(pat, 0, |pat|, b, 0)
  }

  /** regcomp accepts exactly the patterns that spell a basic expression, and makes of each the tree of that
      expression. */
  lemma BasicIsSpelled(pat: CString) returns (b: Branch)
    ensures Pattern(pat, false).Done? <==> exists c :: SpellsBasic(pat, c)
    ensures Pattern(pat, false).Done? ==> SpellsBasic(pat, b)
    ensures forall c | SpellsBasic(pat, c) ::
      var t := BranchTree(c, 0, Nothing); Pattern(pat, false) == Done(|pat|, t.gid, t.re)
  {
    hide Bre, BranchTree, SpellsRun, BranchDepth;
    if Pattern(pat, false).Done? {
      b := RunSpelled(pat, 0, 0, 0, Nothing);
      assert SpellsBasic(pat, b);
    } else {
      b := End;
    }
    forall c | SpellsBasic(pat, c)
      ensures var t := BranchTree(c, 0, Nothing); Pattern(pat, false) == Done(|pat|, t.gid, t.re)
    {
      ReadRun(pat, 0, |pat|, c, 0, 0, Nothing);
    }
  }
}
