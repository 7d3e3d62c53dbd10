/** regcomp and regexec one after the other, on the text of an expression: the answer in terms of what
    the expression means. */
module RegexChain {
  import opened RegexSemantics
  import opened RegexRecords
  import opened RegexGrammar
  import opened RegexCompile
  import opened RegexExec
  import opened RegexVerdict
  import opened EreSyntax
  import opened EreText
  import opened BreSyntax
  import opened BreText
  import opened BreRoundTrip
  import opened CStrings

  /** `so`..`eo` matches, nothing further left does, and nothing that starts there ends further right. */
  ghost predicate Found(s: Subject, e: Expr, so: int, eo: int) {
    && 0 <= so <= eo <= |s.text| && ExprMeans(s, e, so, eo)
    && (forall i: nat, j: nat | i < so :: !ExprMeans(s, e, i, j))
    && (forall j: nat | eo < j :: !ExprMeans(s, e, so, j))
  }

  ghost predicate FoundSomewhere(s: Subject, e: Expr) {
    exists i: nat, j: nat :: i <= |s.text| && ExprMeans(s, e, i, j)
  }

  /** What is promised of an answer, in terms of the tree and of an expression that means the same. */
  lemma AnswerMeans(s: Subject, r: Regex, e: Expr, nsub: nat, report: bool, nmatch: nat, before: seq<Span>, ret: int,
          after: seq<Span>)
    requires |before| == |after| && (report ==> 0 < nmatch <= |after|)
    requires Answer(s, r, nsub, report, nmatch, before, ret, after)
    requires forall i: nat, j: nat | i <= |s.text| :: Matches(s, r, i, j) <==> ExprMeans(s, e, i, j)
    ensures ret == 0 || ret == REG_NOMATCH
    ensures ret == 0 <==> FoundSomewhere(s, e)
    ensures ret == 0 && report ==> Found(s, e, after[0].so, after[0].eo)
  {
    hide Matches, ExprMeans, Records;
  }

  // ---- groups

  /** The parentheses numbered `g`, in the order in which they open, have `inner` between them; `gid` are opened
      before. */
  predicate PrimaryParen(p: Primary, gid: nat, g: int, inner: Expr)
    decreases p, 0
  {
    p.Paren? && ((g == gid + 1 && inner == p.expr) || ExprParen(p.expr, gid + 1, g, inner))
  }

  predicate BranchParen(b: Branch, gid: nat, g: int, inner: Expr)
    decreases b, 0
  {
    b.Followed? &&
      (PrimaryParen(b.first.p, gid, g, inner) || BranchParen(b.rest, gid + PrimaryGroups(b.first.p), g, inner))
  }

  predicate ExprParen(e: Expr, gid: nat, g: int, inner: Expr)
    decreases e, 0
  {
    BranchParen(e.branch, gid, g, inner) || (e.Or? && ExprParen(e.rest, gid + BranchGroups(e.branch), g, inner))
  }

  lemma {:induction false} CopiesCaptures(acc: Partial, r: Regex, n: nat, g: int, body: Regex)
    requires Captures(Whole(Copies(acc, r, n)), g, body)
    ensures Captures(Whole(acc), g, body) || Captures(r, g, body)
  {
    if n > 0 && !Captures(r, g, body) {
      CopiesCaptures(acc, r, n - 1, g, body);
    }
  }

  lemma BoundsCaptures(r: Regex, min: nat, max: int, g: int, body: Regex)
    requires (max == -1 || min <= max) && Captures(BoundsTree(r, min, max), g, body)
    ensures Captures(r, g, body)
  {
    var front := Copies(Nothing, r, min);
    if max != -1 {
      CopiesCaptures(front, Alt(r, Empty), max - min, g, body);
    }
    if Captures(Whole(front), g, body) {
      CopiesCaptures(Nothing, r, min, g, body);
    }
  }

  lemma {:induction false} PieceCaptures(x: Piece, gid: nat, g: int, body: Regex) returns (inner: Expr)
    requires GoodPiece(x) && Captures(PieceTree(x, gid).re, g, body)
    ensures PrimaryParen(x.p, gid, g, inner) && GoodExpr(inner) && 0 <= g && body == ExprTree(inner, g, Nothing).re
    decreases x, 1
  {
    var r := PrimaryTree(x.p, gid).re;
    if x.Counted? {
      BoundsCaptures(r, x.min, x.max, g, body);
    }
    assert Captures(r, g, body);
    var e := x.p.expr;
    var t := ExprTree(e, gid + 1, Nothing);
    assert Captures(Concat(t.re, Leaf(GroupEnd(gid + 1))), g, body) <==> Captures(t.re, g, body);
    if g == gid + 1 && body == t.re {
      inner := e;
    } else {
      inner := ExprCaptures(e, gid + 1, Nothing, g, body);
    }
  }

  lemma {:induction false} BranchCaptures(b: Branch, gid: nat, acc: Partial, g: int, body: Regex)
    returns (inner: Expr)
    requires GoodBranch(b) && Captures(BranchTree(b, gid, acc).re, g, body) && !Captures(Whole(acc), g, body)
    ensures BranchParen(b, gid, g, inner) && GoodExpr(inner) && 0 <= g && body == ExprTree(inner, g, Nothing).re
    decreases b, 1
  {
    hide PieceTree;
    if b.Followed? {
      var t := PieceTree(b.first, gid);
      PieceCounted(b.first, gid);
      if Captures(t.re, g, body) {
        inner := PieceCaptures(b.first, gid, g, body);
      } else {
        inner := BranchCaptures(b.rest, t.gid, Something(Then(acc, t.re)), g, body);
      }
    }
  }

  lemma {:induction false} ExprCaptures(e: Expr, gid: nat, acc: Partial, g: int, body: Regex)
    returns (inner: Expr)
    requires GoodExpr(e) && Captures(ExprTree(e, gid, acc).re, g, body) && !Captures(Whole(acc), g, body)
    ensures ExprParen(e, gid, g, inner) && GoodExpr(inner) && 0 <= g && body == ExprTree(inner, g, Nothing).re
    decreases e, 1
  {
    hide BranchTree;
    var t := BranchTree(e.branch, gid, Nothing);
    BranchCounted(e.branch, gid, Nothing);
    if Captures(t.re, g, body) {
      inner := BranchCaptures(e.branch, gid, Nothing, g, body);
    } else {
      inner := ExprCaptures(e.rest, t.gid, Something(OrElse(acc, t.re)), g, body);
    }
  }

  /** What is between the parentheses numbered `g` means the text from so to eo. */
  ghost predicate GroupMeans(s: Subject, e: Expr, g: int, so: int, eo: int) {
    0 <= so <= eo <= |s.text| && exists inner :: ExprParen(e, 0, g, inner) && ExprMeans(s, inner, so, eo)
  }

  lemma CapturedMeans(s: Subject, e: Expr, g: int, so: int, eo: int)
    requires GoodExpr(e) && Captured(s, ExprTree(e, 0, Nothing).re, g, so, eo)
    ensures GroupMeans(s, e, g, so, eo)
  {
    hide Captures, ExprTree, ExprMeans, Matches, GoodExpr;
    var body :| Captures(ExprTree(e, 0, Nothing).re, g, body) && Matches(s, body, so, eo);
    NoCaptures(g, body);
    var inner := ExprCaptures(e, 0, Nothing, g, body);
    ExprMeaning(s, inner, g, Nothing, so, eo);
  }

  lemma NoCaptures(g: int, body: Regex)
    ensures !Captures(Whole(Nothing), g, body)
  {
  }

  /** The parentheses numbered `g` are under no alternative and no repetition that may be none. */
  predicate PieceCertain(x: Piece, gid: nat, g: int)
    decreases x, 0
  {
    Least(x) >= 1 && x.p.Paren? && (g == gid + 1 || ExprCertain(x.p.expr, gid + 1, g))
  }

  predicate BranchCertain(b: Branch, gid: nat, g: int)
    decreases b, 0
  {
    b.Followed? && (PieceCertain(b.first, gid, g) || BranchCertain(b.rest, gid + PrimaryGroups(b.first.p), g))
  }

  predicate ExprCertain(e: Expr, gid: nat, g: int)
    decreases e, 0
  {
    e.Only? && BranchCertain(e.branch, gid, g)
  }

  lemma {:induction false} CopiesCertain(acc: Partial, r: Regex, n: nat, g: int)
    requires Certain(Whole(acc), g) || (n > 0 && Certain(r, g))
    ensures Certain(Whole(Copies(acc, r, n)), g)
  {
    if n > 0 && (n > 1 || Certain(Whole(acc), g)) {
      CopiesCertain(acc, r, n - 1, g);
    }
  }

  lemma {:induction false} PieceIsCertain(x: Piece, gid: nat, g: int)
    requires GoodPiece(x) && PieceCertain(x, gid, g)
    ensures Certain(PieceTree(x, gid).re, g)
    decreases x, 1
  {
    var r, t := PrimaryTree(x.p, gid).re, ExprTree(x.p.expr, gid + 1, Nothing);
    if g != gid + 1 {
      ExprIsCertain(x.p.expr, gid + 1, g);
    }
    assert Certain(Concat(t.re, Leaf(GroupEnd(gid + 1))), g) <==> Certain(t.re, g);
    assert Certain(r, g);
    if x.Counted? {
      CopiesCertain(Nothing, r, x.min, g);
      if x.max != -1 {
        CopiesCertain(Copies(Nothing, r, x.min), Alt(r, Empty), x.max - x.min, g);
      }
    }
  }

  lemma {:induction false} BranchIsCertain(b: Branch, gid: nat, acc: Partial, g: int)
    requires GoodBranch(b) && (BranchCertain(b, gid, g) || Certain(Whole(acc), g))
    ensures Certain(BranchTree(b, gid, acc).re, g)
    decreases b, 1
  {
    hide PieceTree, PieceCertain;
    if b.Followed? {
      var t := PieceTree(b.first, gid);
      PieceCounted(b.first, gid);
      if PieceCertain(b.first, gid, g) {
        PieceIsCertain(b.first, gid, g);
      }
      BranchIsCertain(b.rest, t.gid, Something(Then(acc, t.re)), g);
    }
  }

  lemma {:induction false} ExprIsCertain(e: Expr, gid: nat, g: int)
    requires GoodExpr(e) && ExprCertain(e, gid, g)
    ensures Certain(ExprTree(e, gid, Nothing).re, g)
    decreases e, 1
  {
    BranchIsCertain(e.branch, gid, Nothing, g);
  }

  /** The groups reported are what a match of the expression there records: each is unset, or inside the match and what
      its parentheses hold means the text there; and it is set if they are passed in every match. */
  ghost predicate GroupsFound(s: Subject, e: Expr, m: seq<Span>) {
    && (exists row :: Reported(s, ExprTree(e, 0, Nothing).re, ExprGroups(e), m, row))
    && forall g {:trigger m[g]} | 1 <= g < |m| ::
         && (m[g] == NO_SPAN ||
              (m[0].so <= m[g].so && m[g].eo <= m[0].eo && GroupMeans(s, e, g, m[g].so, m[g].eo)))
         && (g <= ExprGroups(e) && ExprCertain(e, 0, g) ==> m[g] != NO_SPAN)
  }

  lemma GroupsMean(s: Subject, e: Expr, nsub: nat, report: bool, nmatch: nat, before: seq<Span>, ret: int,
          after: seq<Span>)
    requires |before| == |after| && (report ==> 0 < nmatch <= |after|) && GoodExpr(e)
    requires var t := ExprTree(e, 0, Nothing);
      && Answer(s, t.re, nsub, report, nmatch, before, ret, after) && ret == 0 && report
      && nsub == t.gid && Formed(t.re, 0, nsub)
    ensures GroupsFound(s, e, after[..nmatch])
  {
    hide Captured, ExprTree, Matches, GoodExpr, Formed, Records, ExprCertain, Certain, GroupMeans;
    var r, m := ExprTree(e, 0, Nothing).re, after[..nmatch];
    ExprCounted(e, 0, Nothing);
    var row :| Reported(s, r, nsub, m, row);
    forall g | 1 <= g < |m|
      ensures m[g] == NO_SPAN ||
        (m[0].so <= m[g].so && m[g].eo <= m[0].eo && GroupMeans(s, e, g, m[g].so, m[g].eo))
      ensures g <= ExprGroups(e) && ExprCertain(e, 0, g) ==> m[g] != NO_SPAN
    {
      if g <= nsub {
        GroupsReported(s, r, nsub, m, row, g);
        if m[g] != NO_SPAN {
          CapturedMeans(s, e, g, m[g].so, m[g].eo);
        }
        if ExprCertain(e, 0, g) {
          ExprIsCertain(e, 0, g);
        }
      }
    }
  }

  // ---- the tree of an expression has no back references

  lemma {:induction false} CopiesNoBackref(acc: Partial, r: Regex, n: nat)
    requires NoBackref(Whole(acc)) && NoBackref(r)
    ensures NoBackref(Whole(Copies(acc, r, n)))
  {
    if n > 0 {
      CopiesNoBackref(acc, r, n - 1);
    }
  }

  lemma {:induction false} PieceNoBackref(x: Piece, gid: nat)
    requires GoodPiece(x)
    ensures NoBackref(PieceTree(x, gid).re)
    decreases x, 1
  {
    var r := PrimaryTree(x.p, gid).re;
    if x.p.Paren? {
      ExprNoBackref(x.p.expr, gid + 1, Nothing);
    }
    assert NoBackref(r);
    if x.Counted? && (x.max == -1 || x.min <= x.max) {
      CopiesNoBackref(Nothing, r, x.min);
      if x.max != -1 {
        CopiesNoBackref(Copies(Nothing, r, x.min), Alt(r, Empty), x.max - x.min);
      }
    }
  }

  lemma {:induction false} BranchNoBackref(b: Branch, gid: nat, acc: Partial)
    requires NoBackref(Whole(acc)) && GoodBranch(b)
    ensures NoBackref(BranchTree(b, gid, acc).re)
    decreases b, 1
  {
    hide PieceTree;
    if b.Followed? {
      var t := PieceTree(b.first, gid);
      PieceNoBackref(b.first, gid);
      BranchNoBackref(b.rest, t.gid, Something(Then(acc, t.re)));
    }
  }

  lemma {:induction false} ExprNoBackref(e: Expr, gid: nat, acc: Partial)
    requires NoBackref(Whole(acc)) && GoodExpr(e)
    ensures NoBackref(ExprTree(e, gid, acc).re)
    decreases e, 1
  {
    hide BranchTree;
    var t := BranchTree(e.branch, gid, Nothing);
    BranchNoBackref(e.branch, gid, Nothing);
    if e.Or? {
      ExprNoBackref(e.rest, t.gid, Something(OrElse(acc, t.re)));
    }
  }

  // ---- the two calls

  /** What the answer says of an expression with the tree. */
  ghost predicate Says(s: Subject, e: Expr, report: bool, nmatch: nat, ret: int, after: seq<Span>)
    requires report ==> 0 < nmatch <= |after|
  {
    && (ret == 0 || ret == REG_NOMATCH)
    && (ret == 0 <==> FoundSomewhere(s, e))
    && (ret == 0 && report ==> Found(s, e, after[0].so, after[0].eo) && GroupsFound(s, e, after[..nmatch]))
  }

  lemma AnswerSays(s: Subject, e: Expr, nsub: nat, report: bool, nmatch: nat, before: seq<Span>, ret: int,
          after: seq<Span>)
    requires |before| == |after| && (report ==> 0 < nmatch <= |after|) && GoodExpr(e)
    requires var t := ExprTree(e, 0, Nothing);
      Answer(s, t.re, nsub, report, nmatch, before, ret, after) && nsub == t.gid && Formed(t.re, 0, nsub)
    ensures Says(s, e, report, nmatch, ret, after)
  {
    hide ExprTree, Matches, ExprMeans, GoodExpr, Formed, Answer, Found, FoundSomewhere, GroupsFound;
    var r := ExprTree(e, 0, Nothing).re;
    forall i: nat, j: nat | i <= |s.text| ensures Matches(s, r, i, j) <==> ExprMeans(s, e, i, j) {
      ExprMeaning(s, e, 0, Nothing, i, j);
    }
    AnswerMeans(s, r, e, nsub, report, nmatch, before, ret, after);
    if ret == 0 && report {
      GroupsMean(s, e, nsub, report, nmatch, before, ret, after);
    }
  }

  /** Every pattern taken for an extended expression is refused with the error that is due, or spells an expression.
      That is found exactly when it means some stretch of the text, and the span reported is the leftmost-longest of
      those. */
  method SearchExtended(pat: CString, s: Subject, noSub: bool, nmatch: nat, pmatch: array?<Span>)
    returns (err: int, ret: int)
    requires pmatch != null ==> nmatch <= pmatch.Length
    modifies if pmatch == null then {} else {pmatch}
    ensures err == Verdict(pat, true)
    ensures err == 0 <==> exists e :: Spells(pat, e)
    ensures forall e | Spells(pat, e) :: Says(s, e, Reports(noSub, nmatch, pmatch), nmatch, ret, Contents(pmatch))
  {
    hide Pattern, ExprTree, Spells, Forest, Answer, Says, Formed, Verdict;
    var preg;
    err, preg := Regcomp(pat, true, noSub);
    ghost var f := AcceptedIsSpelled(pat);
    if err != 0 {
      return err, REG_NOMATCH;
    }
    ret := Regexec(preg, s, nmatch, pmatch);
    forall e | Spells(pat, e)
      ensures Says(s, e, Reports(noSub, nmatch, pmatch), nmatch, ret, Contents(pmatch))
    {
      SpelledGood(pat, e);
      AnswerSays(s, e, preg.nsub, Reports(noSub, nmatch, pmatch), nmatch, old(Contents(pmatch)), ret,
        Contents(pmatch));
    }
  }

  lemma SpelledGood(pat: CString, e: Expr)
    requires Spells(pat, e)
    ensures GoodExpr(e)
  {
  }

  /** The pattern is the run written out. */
  predicate Writes(pat: CString, run: Run) {
    GoodRun(run) && Proper(run, First) && PlacedRun(run, 0) && RunDepth(run) <= MAX_DEPTH && pat == ShowRun(run)
  }

  /** Likewise every pattern without back references taken for a basic expression. If it writes out one, it is refused
      exactly when a bound stands behind an ordinary star, and otherwise found in terms of what the code takes it for;
      if it is read right that is what it stands for. */
  method SearchBasic(pat: CString, s: Subject, noSub: bool, nmatch: nat, pmatch: array?<Span>)
    returns (err: int, ret: int)
    requires Pattern(pat, false).Done? ==> NoBackref(Pattern(pat, false).re)
    requires pmatch != null ==> nmatch <= pmatch.Length
    modifies if pmatch == null then {} else {pmatch}
    ensures err == Verdict(pat, false)
    ensures err == 0 <==> exists b :: SpellsBasic(pat, b)
    ensures forall b | SpellsBasic(pat, b) && GoodBranch(b) ::
      Says(s, Only(b), Reports(noSub, nmatch, pmatch), nmatch, ret, Contents(pmatch))
    ensures forall run | Writes(pat, run) ::
      && err == (if Fails(run) then REG_BADRPT else 0) && (ReadRight(run, First) ==> err == 0)
      && (err == 0 ==> Says(s, Only(Read(run, First)), Reports(noSub, nmatch, pmatch), nmatch, ret, Contents(pmatch)))
      && (ReadRight(run, First) ==>
           Says(s, Only(Intended(run)), Reports(noSub, nmatch, pmatch), nmatch, ret, Contents(pmatch)))
  {
    hide Pattern, BranchTree, SpellsBasic, ReadRight, Read, Intended, Fails, Forest, Answer, Says, GoodExpr, GoodBranch,
        ExprTree, Formed, Verdict, Writes, NoBackref;
    var preg;
    err, preg := Regcomp(pat, false, noSub);
    ghost var f := BasicIsSpelled(pat);
    forall run | Writes(pat, run)
      ensures err == (if Fails(run) then REG_BADRPT else 0) && (ReadRight(run, First) ==> err == 0)
    {
      WrittenOutcome(pat, run);
    }
    if err != 0 {
      return err, REG_NOMATCH;
    }
    ret := Regexec(preg, s, nmatch, pmatch);
    ghost var report := Reports(noSub, nmatch, pmatch);
    forall e | GoodExpr(e) && ExprTree(e, 0, Nothing) == Tree(preg.Pattern(), preg.nsub)
      ensures Says(s, e, report, nmatch, ret, Contents(pmatch))
    {
      AnswerSays(s, e, preg.nsub, report, nmatch, old(Contents(pmatch)), ret, Contents(pmatch));
    }
    forall b | SpellsBasic(pat, b) && GoodBranch(b)
      ensures Says(s, Only(b), report, nmatch, ret, Contents(pmatch))
    {
      AloneTree(b, 0);
      OnlyGood(b);
    }
    forall run | Writes(pat, run)
      ensures Says(s, Only(Read(run, First)), report, nmatch, ret, Contents(pmatch))
      ensures ReadRight(run, First) ==> Says(s, Only(Intended(run)), report, nmatch, ret, Contents(pmatch))
    {
      WrittenOutcome(pat, run);
    }
  }

  lemma OnlyGood(b: Branch)
    requires GoodBranch(b)
    ensures GoodExpr(Only(b))
  {
  }

  // What is compiled from a run that is written out; it has no back references.
  lemma WrittenOutcome(pat: CString, run: Run)
    requires Writes(pat, run)
    ensures if Fails(run) then Pattern(pat, false) == Fail(REG_BADRPT) && !ReadRight(run, First)
      else var t := ExprTree(Only(Read(run, First)), 0, Nothing); Pattern(pat, false) == Done(|pat|, t.gid, t.re)
    ensures !Fails(run) ==> NoBackref(Pattern(pat, false).re)
    ensures GoodExpr(Only(Read(run, First))) && GoodExpr(Only(Intended(run)))
    ensures ReadRight(run, First) ==>
      ExprTree(Only(Intended(run)), 0, Nothing) == ExprTree(Only(Read(run, First)), 0, Nothing)
  {
    hide Pattern, ShowRun, BranchTree, GoodRun, Proper, PlacedRun, RunDepth, ReadRight, Read, Intended, Fails, ExprTree,
        GoodExpr;
    BasicOutcome(run);
    OwnTrees(run);
    ExprNoBackref(Only(Read(run, First)), 0, Nothing);
    if ReadRight(run, First) {
      ReadRightSucceeds(run, First);
    }
  }

  // Both readings as expressions of one alternative, and their trees.
  lemma OwnTrees(run: Run)
    requires GoodRun(run) && Proper(run, First)
    ensures GoodExpr(Only(Read(run, First))) && GoodExpr(Only(Intended(run)))
    ensures ExprTree(Only(Read(run, First)), 0, Nothing) == BranchTree(Read(run, First), 0, Nothing)
    ensures ReadRight(run, First) ==>
      ExprTree(Only(Intended(run)), 0, Nothing) == BranchTree(Read(run, First), 0, Nothing)
  {
    hide Read, Intended, ReadRight, BranchTree;
    ReadGood(run, First);
    IntendedGood(run);
    AloneTree(Read(run, First), 0);
    AloneTree(Intended(run), 0);
    if ReadRight(run, First) {
      SameTree(run, First, 0, Nothing);
    }
  }
}
