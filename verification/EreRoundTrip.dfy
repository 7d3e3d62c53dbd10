/** Extended regular expressions, written out and read back by regcomp as trees with their meaning: all but
    those with an unmatched right parenthesis, which regcomp refuses. */
module EreRoundTrip {
  import opened RegexSemantics
  import opened RegexGrammar
  import opened RegexTexts
  import opened EreSyntax
  import opened EreText
  import opened CStrings
  import opened Numerals

  // ---- writing expressions

  function ShowPrimary(p: Primary): (t: CString)
    requires GoodPrimary(p)
    decreases p, 0
  {
    match p
    case Ordinary(c) => if Special(c) then ['\\', c] else [c]
    case Dot => "."
    case Caret => "^"
    case Dollar => "$"
    case Brackets(text, _) => "[" + text + "]"
    case Closing => ")"
    case Paren(e) => "(" + ShowExpr(e) + ")"
  }

  /** One number, a number and a comma, or two numbers. */
  function ShowNumbers(min: nat, max: int): (t: CString)
    requires max == -1 || min <= max
  {
    Numeral(min, 10, false) + if max == min then "" else if max == -1 then "," else "," + Numeral(max, 10, false)
  }

  function ShowCount(min: nat, max: int): (t: CString)
    requires max == -1 || min <= max
  {
    ShowNumbers(min, max) + "}"
  }

  function ShowRepeat(x: Piece): (t: CString)
    requires GoodPiece(x)
  {
    match x
    case Once(_) => ""
    case ZeroOrMore(_) => "*"
    case OneOrMore(_) => "+"
    case Optional(_) => "?"
    case Counted(_, min, max) => "{" + ShowCount(min, max)
  }

  function ShowPiece(x: Piece): (t: CString)
    requires GoodPiece(x)
    decreases x, 0
  {
    ShowPrimary(x.p) + ShowRepeat(x)
  }

  function ShowBranch(b: Branch): (t: CString)
    requires GoodBranch(b)
    decreases b, 0
  {
    match b
    case End => ""
    case Followed(x, rest) => ShowPiece(x) + ShowBranch(rest)
  }

  /** An empty alternative at the end is written with a bar of its own, which is the one that gets dropped. */
  function ShowExpr(e: Expr): (t: CString)
    requires GoodExpr(e)
    decreases e, 0
  {
    match e
    case Only(b) => ShowBranch(b)
    case Or(b, rest) => ShowBranch(b) + ("|" + if rest == Only(End) then "|" else ShowExpr(rest))
  }

  /** Each bracket expression is named by the place where it gets written. */
  predicate PlacedPrimary(p: Primary, pos: nat)
    requires GoodPrimary(p)
    decreases p, 0
  {
    match p
    case Brackets(_, at) => at == pos
    case Paren(e) => PlacedExpr(e, pos + 1)
    case _ => true
  }

  predicate PlacedBranch(b: Branch, pos: nat)
    requires GoodBranch(b)
    decreases b, 0
  {
    b.Followed? ==>
      assert GoodPiece(b.first);
      PlacedPrimary(b.first.p, pos) && PlacedBranch(b.rest, pos + |ShowPiece(b.first)|)
  }

  predicate PlacedExpr(e: Expr, pos: nat)
    requires GoodExpr(e)
    decreases e, 0
  {
    && PlacedBranch(e.branch, pos)
    && (e.Or? ==> PlacedExpr(e.rest, pos + |ShowBranch(e.branch)| + 1))
  }

  // ---- what is written spells the expression

  lemma NumeralSpells(pat: CString, pos: nat, n: nat)
    requires Here(pat, pos, Numeral(n, 10, false))
    ensures SpellsNumber(pat, pos, pos + |Numeral(n, 10, false)|, n)
  {
    hide Numeral, Here;
    var t := Numeral(n, 10, false);
    forall k | 0 <= k < |t| ensures pat[pos + k] == t[k] {
      HereChar(pat, pos, t, k);
    }
    NumeralValue(n, 10, false);
    ValueElsewhere(pat, pos, t, |t|, 10);
  }

  lemma NumbersSpell(pat: CString, pos: nat, min: nat, max: int)
    requires SmallBound(min, max) && Here(pat, pos, ShowNumbers(min, max))
    ensures SpellsBound(pat, pos, pos + |ShowNumbers(min, max)|, min, max)
  {
    hide Numeral, Here, SpellsNumber;
    var a := Numeral(min, 10, false);
    var b := if max == min then "" else if max == -1 then "," else "," + Numeral(max, 10, false);
    var comma := pos + |a|;
    HereSplit(pat, pos, a, b);
    NumeralSpells(pat, pos, min);
    if max != min {
      HereFirst(pat, comma, b);
      if max != -1 {
        HereSplit(pat, comma, ",", Numeral(max, 10, false));
        NumeralSpells(pat, comma + 1, max);
      }
    }
    assert BoundCut(pat, pos, comma + |b|, min, max, comma);
  }

  lemma RepeatSpells(pat: CString, pos: nat, x: Piece)
    requires GoodPiece(x) && Here(pat, pos, ShowRepeat(x))
    ensures SpellsRepeat(pat, pos, pos + |ShowRepeat(x)|, x)
  {
    hide ShowCount, SpellsBound, Here, GoodPrimary;
    if x.Counted? {
      CountSpells(pat, pos, x.min, x.max);
    } else if !x.Once? {
      HereFirst(pat, pos, ShowRepeat(x));
    }
  }

  lemma CountSpells(pat: CString, pos: nat, min: nat, max: int)
    requires SmallBound(min, max) && Here(pat, pos, "{" + ShowCount(min, max))
    ensures pat[pos] == '{' && pat[pos + |ShowCount(min, max)|] == '}'
    ensures SpellsBound(pat, pos + 1, pos + |ShowCount(min, max)|, min, max)
  {
    hide ShowNumbers, SpellsBound, Here;
    var t := ShowNumbers(min, max);
    HereSplit(pat, pos, "{", t + "}");
    HereFirst(pat, pos, "{");
    HereSplit(pat, pos + 1, t, "}");
    HereFirst(pat, pos + 1 + |t|, "}");
    NumbersSpell(pat, pos + 1, min, max);
  }

  lemma {:induction false} PrimarySpells(pat: CString, pos: nat, p: Primary)
    requires GoodPrimary(p) && Here(pat, pos, ShowPrimary(p)) && PlacedPrimary(p, pos)
    ensures SpellsPrimary(pat, pos, pos + |ShowPrimary(p)|, p)
    decreases p, 0
  {
    hide ShowExpr, SpellsExpr, PlacedExpr, Here, BracketText;
    HereFirst(pat, pos, ShowPrimary(p));
    match p
    case Ordinary(c) =>
      if Special(c) {
        HereChar(pat, pos, ['\\', c], 1);
      }
    case Paren(e) =>
      assert ShowPrimary(p) == "(" + (ShowExpr(e) + ")");
      HereSplit(pat, pos, "(", ShowExpr(e) + ")");
      HereSplit(pat, pos + 1, ShowExpr(e), ")");
      HereFirst(pat, pos + 1 + |ShowExpr(e)|, ")");
      ExprSpells(pat, pos + 1, e, false);
    case _ =>
  }

  lemma {:induction false} PieceSpells(pat: CString, pos: nat, x: Piece)
    requires GoodPiece(x) && Here(pat, pos, ShowPiece(x)) && PlacedPrimary(x.p, pos)
    ensures SpellsPiece(pat, pos, pos + |ShowPiece(x)|, x)
    decreases x, 1
  {
    hide ShowPrimary, ShowRepeat, SpellsPrimary, SpellsRepeat, PlacedPrimary, Here, GoodPrimary;
    HereSplit(pat, pos, ShowPrimary(x.p), ShowRepeat(x));
    var mid := pos + |ShowPrimary(x.p)|;
    PrimarySpells(pat, pos, x.p);
    RepeatSpells(pat, mid, x);
    assert PieceCut(pat, pos, pos + |ShowPiece(x)|, x, mid);
  }

  lemma {:induction false} BranchSpells(pat: CString, pos: nat, b: Branch)
    requires GoodBranch(b) && Here(pat, pos, ShowBranch(b)) && PlacedBranch(b, pos)
    ensures SpellsBranch(pat, pos, pos + |ShowBranch(b)|, b)
    decreases b, 1
  {
    hide ShowPiece, SpellsPiece, PlacedPrimary, Here, GoodPiece;
    if b.Followed? {
      HereSplit(pat, pos, ShowPiece(b.first), ShowBranch(b.rest));
      var mid := pos + |ShowPiece(b.first)|;
      PieceSpells(pat, pos, b.first);
      BranchSpells(pat, mid, b.rest);
      assert BranchCut(pat, pos, pos + |ShowBranch(b)|, b, mid);
    }
  }

  /** Where an expression is written, its text spells it; behind others too unless it is empty. */
  lemma {:induction false} ExprSpells(pat: CString, pos: nat, e: Expr, behind: bool)
    requires GoodExpr(e) && Here(pat, pos, ShowExpr(e)) && PlacedExpr(e, pos) && !(behind && e == Only(End))
    ensures SpellsExpr(pat, pos, pos + |ShowExpr(e)|, e, behind)
    decreases e, 1
  {
    hide ShowBranch, SpellsBranch, PlacedBranch, Here, GoodBranch;
    match e
    case Only(b) => BranchSpells(pat, pos, b);
    case Or(b, rest) =>
      var mid, tail := pos + |ShowBranch(b)|, if rest == Only(End) then "|" else ShowExpr(rest);
      HereSplit(pat, pos, ShowBranch(b), "|" + tail);
      HereSplit(pat, mid, "|", tail);
      HereFirst(pat, mid, "|");
      BranchSpells(pat, pos, b);
      if rest == Only(End) {
        HereFirst(pat, mid + 1, "|");
        EmptySpelled(pat, mid + 1, mid + 1);
      } else {
        ExprSpells(pat, mid + 1, rest, true);
      }
      assert ExprCut(pat, pos, pos + |ShowExpr(e)|, e, mid);
  }

  // ---- whole expressions

  /** Compiling a written-out expression of at most 256 nested parentheses reads all of it and yields its
      tree, or it ends in REG_EPAREN: exactly when the expression has an unmatched right parenthesis, which
      section 9.4.3 makes an ordinary character. */
  lemma ReadsBack(e: Expr)
    requires GoodExpr(e) && PlacedExpr(e, 0) && ExprDepth(e) <= MAX_DEPTH
    ensures var t := ExprTree(e, 0, Nothing);
      Pattern(ShowExpr(e), true) == if PlainExpr(e) then Done(|ShowExpr(e)|, t.gid, t.re) else Fail(REG_EPAREN)
  {
    hide Pattern, ShowExpr, ExprTree, PlacedExpr, PlainExpr, SpellsExpr, GoodExpr;
    var text := ShowExpr(e);
    assert text[0..|text|] == text;
    ExprSpells(text, 0, e, false);
    if PlainExpr(e) {
      assert Spells(text, e);
      var f := AcceptedIsSpelled(text);
    } else {
      UnmatchedRefused(text, e);
    }
  }

  /** What regcomp compiles from the text of an expression matches exactly what the expression means. */
  lemma CompiledMeaning(e: Expr, s: Subject, i: nat, j: nat)
    requires GoodExpr(e) && PlacedExpr(e, 0) && ExprDepth(e) <= MAX_DEPTH && i <= |s.text|
    ensures Pattern(ShowExpr(e), true).Done? <==> PlainExpr(e)
    ensures PlainExpr(e) ==> (Matches(s, Pattern(ShowExpr(e), true).re, i, j) <==> ExprMeans(s, e, i, j))
  {
    hide Matches, ExprMeans, ExprTree, Pattern, ShowExpr, PlainExpr;
    ReadsBack(e);
    ExprMeaning(s, e, 0, Nothing, i, j);
  }

  /** `a)`: the code looks for the parenthesis this one closes. */
  lemma ParenRefused()
    ensures var e := Only(Followed(Once(Ordinary('a')), Followed(Once(Closing), End)));
      GoodExpr(e) && !PlainExpr(e) && ShowExpr(e) == "a)" && Pattern(ShowExpr(e), true) == Fail(REG_EPAREN)
  {
    hide Pattern;
    var b := Followed(Once(Closing), End);
    assert ShowBranch(b) == ")" && GoodBranch(b) && PlacedBranch(b, 1) && BranchDepth(b) == 0;
    var c := Followed(Once(Ordinary('a')), b);
    assert ShowPiece(Once(Ordinary('a'))) == "a";
    assert ShowBranch(c) == "a)" && GoodBranch(c) && PlacedBranch(c, 0) && BranchDepth(c) == 0;
    ReadsBack(Only(c));
  }

  // ---- a bar with nothing behind it

  /** The last alternative. */
  function Last(e: Expr): Branch {
    if e.Only? then e.branch else Last(e.rest)
  }

  // The same text with a bar behind it spells the expression too.
  lemma {:induction false} BarBehind(pat: CString, pos: nat, e: Expr, behind: bool)
    requires GoodExpr(e) && Here(pat, pos, ShowExpr(e) + "|") && PlacedExpr(e, pos)
    requires e.Or? ==> Last(e) != End
    ensures SpellsExpr(pat, pos, pos + |ShowExpr(e)| + 1, e, behind)
    decreases e
  {
    hide ShowBranch, SpellsBranch, PlacedBranch, Here, GoodBranch;
    var b := e.branch;
    match e
    case Only(_) =>
      HereSplit(pat, pos, ShowBranch(b), "|");
      HereFirst(pat, pos + |ShowBranch(b)|, "|");
      BranchSpells(pat, pos, b);
    case Or(_, rest) =>
      var mid, text := pos + |ShowBranch(b)|, ShowExpr(rest);
      assert ShowExpr(e) + "|" == ShowBranch(b) + ("|" + (text + "|"));
      HereSplit(pat, pos, ShowBranch(b), "|" + (text + "|"));
      HereSplit(pat, mid, "|", text + "|");
      HereFirst(pat, mid, "|");
      BranchSpells(pat, pos, b);
      BarBehind(pat, mid + 1, rest, true);
      assert ExprCut(pat, pos, pos + |ShowExpr(e)| + 1, e, mid);
  }

  /** With one more alternative, which is empty. */
  function Longer(e: Expr): Expr {
    Or(e.branch, if e.Only? then Only(End) else Longer(e.rest))
  }

  // Behind an empty last alternative a bar adds another one.
  lemma {:induction false} LongerText(e: Expr, pos: nat)
    requires GoodExpr(e) && PlainExpr(e) && PlacedExpr(e, pos) && e.Or? && Last(e) == End
    ensures var f := Longer(e);
      && GoodExpr(f) && PlainExpr(f) && PlacedExpr(f, pos) && ExprDepth(f) == ExprDepth(e)
      && ShowExpr(f) == ShowExpr(e) + "|"
    decreases e
  {
    hide ShowBranch, GoodBranch, PlacedBranch, BranchDepth, PlainBranch;
    var rest := e.rest;
    NothingShown(pos + |ShowBranch(e.branch)| + 1);
    if rest.Or? {
      LongerText(rest, pos + |ShowBranch(e.branch)| + 1);
    } else {
      assert Longer(rest) == Or(End, Only(End)) && ShowExpr(Longer(rest)) == "||";
    }
  }

  lemma NothingShown(pos: nat)
    ensures GoodBranch(End) && PlainBranch(End) && PlacedBranch(End, pos) && PlacedBranch(End, pos + 1)
    ensures ShowBranch(End) == "" && BranchDepth(End) == 0
  {
  }

  /** The two mean the same. */
  lemma {:induction false} LongerMeans(s: Subject, e: Expr, i: nat, j: nat)
    requires i <= |s.text| && Last(e) == End
    ensures ExprMeans(s, Longer(e), i, j) <==> ExprMeans(s, e, i, j)
    decreases e
  {
    if e.Or? {
      LongerMeans(s, e.rest, i, j);
    }
  }

  /** What an expression becomes with a bar behind it. */
  function Barred(e: Expr): Expr {
    if e.Or? && Last(e) == End then Longer(e) else e
  }

  // The same text with a bar behind it spells that.
  lemma BarSpells(pat: CString, pos: nat, e: Expr)
    requires GoodExpr(e) && PlainExpr(e) && PlacedExpr(e, pos) && Here(pat, pos, ShowExpr(e) + "|")
    ensures var f := Barred(e);
      && GoodExpr(f) && PlainExpr(f) && ExprDepth(f) == ExprDepth(e)
      && SpellsExpr(pat, pos, pos + |ShowExpr(e)| + 1, f, false)
  {
    hide GoodExpr, PlainExpr, PlacedExpr, ShowExpr, SpellsExpr, ExprDepth, Here;
    if e.Or? && Last(e) == End {
      LongerText(e, pos);
      ExprSpells(pat, pos, Longer(e), false);
    } else {
      BarBehind(pat, pos, e, false);
    }
  }

  /** The code drops a bar with nothing behind it, which section 9.4.3 leaves undefined: the expression
      before it is all that is read. Behind an empty last alternative, which has such a bar already, it is one more
      empty alternative. */
  lemma TrailingBarDropped(e: Expr)
    requires GoodExpr(e) && PlainExpr(e) && PlacedExpr(e, 0) && ExprDepth(e) <= MAX_DEPTH
    ensures var t := ExprTree(Barred(e), 0, Nothing);
      Pattern(ShowExpr(e) + "|", true) == Done(|ShowExpr(e)| + 1, t.gid, t.re)
  {
    hide Pattern, ShowExpr, ExprTree, PlacedExpr, SpellsExpr, GoodExpr, PlainExpr, ExprDepth, Barred;
    var pat: CString := ShowExpr(e) + "|";
    assert pat[0..|pat|] == pat;
    BarSpells(pat, 0, e);
    assert Spells(pat, Barred(e));
    var f := AcceptedIsSpelled(pat);
  }

  /** Likewise a bar before the parenthesis that closes a group. */
  lemma BarBeforeParenDropped(e: Expr)
    requires GoodExpr(e) && PlainExpr(e) && PlacedExpr(e, 1) && ExprDepth(e) < MAX_DEPTH
    ensures var t := PrimaryTree(Paren(Barred(e)), 0);
      Pattern("(" + ShowExpr(e) + "|)", true) == Done(|ShowExpr(e)| + 3, t.gid, t.re)
  {
    hide Pattern, ShowExpr, ExprTree, PlacedExpr, SpellsExpr, GoodExpr, PlainExpr, ExprDepth, Barred;
    var pat: CString := "(" + ShowExpr(e) + "|)";
    assert pat[1..1 + |ShowExpr(e) + "|"|] == ShowExpr(e) + "|";
    BarSpells(pat, 1, e);
    GroupAlone(pat, Barred(e));
    var f := AcceptedIsSpelled(pat);
  }

  // A pattern that is one group.
  lemma GroupAlone(pat: CString, e: Expr)
    requires |pat| >= 2 && pat[0] == '(' && pat[|pat| - 1] == ')' && SpellsExpr(pat, 1, |pat| - 1, e, false)
    requires GoodExpr(e) && PlainExpr(e) && ExprDepth(e) < MAX_DEPTH
    ensures var x := Only(Followed(Once(Paren(e)), End));
      Spells(pat, x) && ExprTree(x, 0, Nothing) == PrimaryTree(Paren(e), 0)
  {
    hide SpellsExpr, ExprDepth, GoodExpr;
    var x, b := Once(Paren(e)), Followed(Once(Paren(e)), End);
    EmptyIs(pat, |pat|, 0);
    assert GoodPiece(x) && GoodBranch(b) && PlainBranch(b) && BranchDepth(b) == PrimaryDepth(x.p);
    assert PieceCut(pat, 0, |pat|, x, |pat|);
    assert BranchCut(pat, 0, |pat|, b, |pat|);
    OneAlternative(pat, b);
  }

  lemma OneAlternative(pat: CString, b: Branch)
    requires GoodBranch(b) && PlainBranch(b) && SpellsBranch(pat, 0, |pat|, b) && BranchDepth(b) <= MAX_DEPTH
    ensures Spells(pat, Only(b)) && ExprTree(Only(b), 0, Nothing) == BranchTree(b, 0, Nothing)
  {
  }
}
