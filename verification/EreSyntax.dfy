/** Extended regular expressions as POSIX describes them (section 9.4 of POSIX.1-2017 Base
    Definitions): what they are, what they mean, and that the tree regcomp builds for one means the same. */
module EreSyntax {
  import opened RegexSemantics
  import opened RegexGrammar
  import opened RegexBounds
  import opened RegexTexts
  import opened CStrings

  /** A bracket expression is its text between the brackets, and the place in the pattern where it
      stands, by which a Subject names it. Reference is a back reference: only basic expressions have them, and
      they are given no meaning here. Closing is a right parenthesis that no left one precedes: it is
      an ordinary character. */
  datatype Primary =
    | Ordinary(c: char)
    | Dot
    | Caret
    | Dollar
    | Brackets(text: string, at: nat)
    | Reference(n: nat)
    | Closing
    | Paren(expr: Expr)

  /** A primary and how often it may come; max -1 is no limit. */
  datatype Piece = Once(p: Primary) | ZeroOrMore(p: Primary) | OneOrMore(p: Primary) | Optional(p: Primary)
                 | Counted(p: Primary, min: nat, max: int)

  datatype Branch = End | Followed(first: Piece, rest: Branch)

  datatype Expr = Only(branch: Branch) | Or(branch: Branch, rest: Expr)

  // ---- what they mean

  /** The expression matches the text from i to j. */
  ghost predicate PrimaryMeans(s: Subject, p: Primary, i: nat, j: nat)
    requires i <= |s.text|
    decreases p, 0
  {
    match p
    case Ordinary(c) => i < |s.text| && j == i + 1 && CharMatches(s, s.text[i], c as int)
    case Dot => i < |s.text| && j == i + 1 && AnyMatches(s, s.text[i])
    case Caret => i == j && AtBol(s, i)
    case Dollar => i == j && AtEol(s, i)
    case Brackets(t, at) => i < |s.text| && j == i + 1 && BracketMatches(s, at, at + |t| + 1, s.text[i])
    case Reference(_) => false
    case Closing => i < |s.text| && j == i + 1 && CharMatches(s, s.text[i], ')' as int)
    case Paren(e) => ExprMeans(s, e, i, j)
  }

  /** n matches in a row. */
  ghost predicate Times(s: Subject, p: Primary, n: nat, i: nat, j: nat)
    requires i <= |s.text|
    decreases p, 1, n
  {
    if n == 0 then i == j
    else exists k: nat :: k <= |s.text| && PrimaryMeans(s, p, i, k) && Times(s, p, n - 1, k, j)
  }

  function Least(x: Piece): nat {
    match x
    case Once(_) | OneOrMore(_) => 1
    case ZeroOrMore(_) | Optional(_) => 0
    case Counted(_, min, _) => min
  }

  function Most(x: Piece): int {
    match x
    case Once(_) | Optional(_) => 1
    case ZeroOrMore(_) | OneOrMore(_) => -1
    case Counted(_, _, max) => max
  }

  ghost predicate PieceMeans(s: Subject, x: Piece, i: nat, j: nat)
    requires i <= |s.text|
    decreases x, 0
  {
    exists n: nat :: Least(x) <= n && (Most(x) == -1 || n <= Most(x)) && Times(s, x.p, n, i, j)
  }

  ghost predicate BranchMeans(s: Subject, b: Branch, i: nat, j: nat)
    requires i <= |s.text|
    decreases b, 0
  {
    match b
    case End => i == j
    case Followed(x, rest) => exists k: nat :: k <= |s.text| && PieceMeans(s, x, i, k) && BranchMeans(s, rest, k, j)
  }

  ghost predicate ExprMeans(s: Subject, e: Expr, i: nat, j: nat)
    requires i <= |s.text|
    decreases e, 0
  {
    match e
    case Only(b) => BranchMeans(s, b, i, j)
    case Or(b, rest) => BranchMeans(s, b, i, j) || ExprMeans(s, rest, i, j)
  }

  // ---- the tree

  /** A tree, and the number of the last group in it. */
  datatype Tree = Tree(re: Regex, gid: nat)

  function PrimaryTree(p: Primary, gid: nat): Tree
    decreases p, 0
  {
    match p
    case Ordinary(c) => Tree(Leaf(Chr(c as int)), gid)
    case Dot => Tree(Leaf(Any), gid)
    case Caret => Tree(Leaf(Bol), gid)
    case Dollar => Tree(Leaf(Eol), gid)
    case Brackets(t, at) => Tree(Leaf(Bracket(at, at + |t| + 1)), gid)
    case Reference(n) => Tree(Leaf(Backref(n)), gid)
    case Closing => Tree(Leaf(Chr(')' as int)), gid)
    case Paren(e) =>
      var t := ExprTree(e, gid + 1, Nothing);
      Tree(Group(gid + 1, Concat(t.re, Leaf(GroupEnd(gid + 1)))), t.gid)
  }

  function PieceTree(x: Piece, gid: nat): Tree
    decreases x, 0
  {
    var t := PrimaryTree(x.p, gid);
    match x
    case Once(_) => t
    case ZeroOrMore(_) => Tree(Star(t.re), t.gid)
    case OneOrMore(_) => Tree(Concat(t.re, Star(t.re)), t.gid)
    case Optional(_) => Tree(Alt(t.re, Empty), t.gid)
    case Counted(_, min, max) => Tree(if max == -1 || min <= max then BoundsTree(t.re, min, max) else t.re, t.gid)
  }

  function BranchTree(b: Branch, gid: nat, acc: Partial): Tree
    decreases b, 0
  {
    match b
    case End => Tree(Whole(acc), gid)
    case Followed(x, rest) =>
      var t := PieceTree(x, gid);
      BranchTree(rest, t.gid, Something(Then(acc, t.re)))
  }

  function ExprTree(e: Expr, gid: nat, acc: Partial): Tree
    decreases e, 0
  {
    match e
    case Only(b) =>
      var t := BranchTree(b, gid, Nothing);
      Tree(OrElse(acc, t.re), t.gid)
    case Or(b, rest) =>
      var t := BranchTree(b, gid, Nothing);
      ExprTree(rest, t.gid, Something(OrElse(acc, t.re)))
  }

  // ---- well-formed expressions

  /** Outside its groups the branch has no unmatched parenthesis. */
  predicate PlainBranch(b: Branch) {
    b.Followed? ==> !b.first.p.Closing? && PlainBranch(b.rest)
  }

  predicate PlainExpr(e: Expr) {
    PlainBranch(e.branch) && (e.Or? ==> PlainExpr(e.rest))
  }

  predicate GoodPrimary(p: Primary)
    decreases p, 0
  {
    match p
    case Ordinary(c) => NUL < c < 256 as char
    case Brackets(t, _) => BracketText(t)
    case Reference(_) => false
    case Paren(e) => GoodExpr(e) && PlainExpr(e)
    case _ => true
  }

  predicate GoodPiece(x: Piece)
    decreases x, 0
  {
    && GoodPrimary(x.p)
    && (x.Counted? ==> x.min <= MAX_COUNT && (x.max == -1 || x.min <= x.max <= MAX_COUNT))
  }

  predicate GoodBranch(b: Branch)
    decreases b, 0
  {
    b.Followed? ==> GoodPiece(b.first) && GoodBranch(b.rest)
  }

  predicate GoodExpr(e: Expr)
    decreases e, 0
  {
    GoodBranch(e.branch) && (e.Or? ==> GoodExpr(e.rest))
  }

  /** How deep parentheses nest. */
  function PrimaryDepth(p: Primary): nat
    decreases p, 0
  {
    if p.Paren? then 1 + ExprDepth(p.expr) else 0
  }

  function Max(a: nat, b: nat): nat {
    if a < b then b else a
  }

  function BranchDepth(b: Branch): nat
    decreases b, 0
  {
    if b.End? then 0 else Max(PrimaryDepth(b.first.p), BranchDepth(b.rest))
  }

  function ExprDepth(e: Expr): nat
    decreases e, 0
  {
    if e.Only? then BranchDepth(e.branch) else Max(BranchDepth(e.branch), ExprDepth(e.rest))
  }

  // ---- the tree means what the expression means

  lemma TimesIsPower(s: Subject, p: Primary, r: Regex, n: nat, i: nat, j: nat)
    requires i <= |s.text|
    requires forall a: nat, b: nat | a <= |s.text| :: Matches(s, r, a, b) <==> PrimaryMeans(s, p, a, b)
    ensures Times(s, p, n, i, j) <==> Power(s, r, n, i, j)
    decreases n
  {
    hide Matches, PrimaryMeans;
    if n > 0 {
      var m := n - 1;
      forall k: nat | k <= |s.text| ensures Times(s, p, m, k, j) <==> Power(s, r, m, k, j) {
        TimesIsPower(s, p, r, m, k, j);
      }
      if Times(s, p, n, i, j) {
        var k := TimesCut(s, p, n, i, j);
        PowerCons(s, r, n - 1, i, k, j);
      }
      if Power(s, r, n, i, j) {
        var k := PowerCut(s, r, n, i, j);
        TimesCons(s, p, n - 1, i, k, j);
      }
    }
  }

  lemma TimesCut(s: Subject, p: Primary, n: nat, i: nat, j: nat) returns (k: nat)
    requires i <= |s.text| && n > 0 && Times(s, p, n, i, j)
    ensures k <= |s.text| && PrimaryMeans(s, p, i, k) && Times(s, p, n - 1, k, j)
  {
    k :| k <= |s.text| && PrimaryMeans(s, p, i, k) && Times(s, p, n - 1, k, j);
  }

  lemma TimesCons(s: Subject, p: Primary, n: nat, i: nat, k: nat, j: nat)
    requires i <= |s.text| && k <= |s.text| && PrimaryMeans(s, p, i, k) && Times(s, p, n, k, j)
    ensures Times(s, p, n + 1, i, j)
  {
  }

  lemma {:induction false} PrimaryMeaning(s: Subject, p: Primary, gid: nat, i: nat, j: nat)
    requires i <= |s.text| && GoodPrimary(p)
    ensures Matches(s, PrimaryTree(p, gid).re, i, j) <==> PrimaryMeans(s, p, i, j)
    decreases p, 1
  {
    if p.Paren? {
      var t := ExprTree(p.expr, gid + 1, Nothing);
      ExprMeaning(s, p.expr, gid + 1, Nothing, i, j);
      hide ExprTree, ExprMeans;
      GroupMeaning(s, t.re, gid + 1, i, j);
    }
  }

  lemma GroupMeaning(s: Subject, r: Regex, g: int, i: nat, j: nat)
    requires i <= |s.text|
    ensures Matches(s, Group(g, Concat(r, Leaf(GroupEnd(g)))), i, j) <==> Matches(s, r, i, j)
  {
    var c := Concat(r, Leaf(GroupEnd(g)));
    if Matches(s, c, i, j) {
      var k := ConcatCut(s, r, Leaf(GroupEnd(g)), i, j);
    }
    if Matches(s, r, i, j) {
      MatchSpan(s, r, i, j);
      ConcatJoin(s, r, Leaf(GroupEnd(g)), i, j, j);
    }
  }

  lemma {:induction false} PieceMeaning(s: Subject, x: Piece, gid: nat, i: nat, j: nat)
    requires i <= |s.text| && GoodPiece(x)
    ensures Matches(s, PieceTree(x, gid).re, i, j) <==> PieceMeans(s, x, i, j)
    decreases x, 1
  {
    var r := PrimaryTree(x.p, gid).re;
    forall a: nat, b: nat | a <= |s.text| ensures Matches(s, r, a, b) <==> PrimaryMeans(s, x.p, a, b) {
      PrimaryMeaning(s, x.p, gid, a, b);
    }
    hide Matches, PrimaryMeans, PrimaryTree, BoundsTree, Power, Times;
    forall n: nat ensures Times(s, x.p, n, i, j) <==> Power(s, r, n, i, j) {
      TimesIsPower(s, x.p, r, n, i, j);
    }
    RepeatedTree(s, x, r, i, j);
  }

  // The tree of a piece, whatever its primary, against the admitted powers.
  lemma RepeatedTree(s: Subject, x: Piece, r: Regex, i: nat, j: nat)
    requires i <= |s.text| && GoodPiece(x)
    ensures var t := match x {
        case Once(_) => r
        case ZeroOrMore(_) => Star(r)
        case OneOrMore(_) => Concat(r, Star(r))
        case Optional(_) => Alt(r, Empty)
        case Counted(_, min, max) => BoundsTree(r, min, max)
      };
      Matches(s, t, i, j) <==> Repeated(s, r, Least(x), Most(x), i, j)
  {
    match x
    case Once(_) => RepeatedOnce(s, r, i, j);
    case ZeroOrMore(_) => RepeatedAny(s, r, i, j);
    case OneOrMore(_) => PlusMeaning(s, r, i, j);
    case Optional(_) => RepeatedOptional(s, r, i, j);
    case Counted(_, min, max) => BoundsMeaning(s, r, min, max, i, j);
  }

  lemma RepeatedOnce(s: Subject, r: Regex, i: nat, j: nat)
    requires i <= |s.text|
    ensures Matches(s, r, i, j) <==> Repeated(s, r, 1, 1, i, j)
  {
    hide Matches;
    PowerOne(s, r, i, j);
  }

  lemma RepeatedAny(s: Subject, r: Regex, i: nat, j: nat)
    requires i <= |s.text|
    ensures Matches(s, Star(r), i, j) <==> Repeated(s, r, 0, -1, i, j)
  {
    hide Power;
    if Matches(s, Star(r), i, j) {
      var n := StarCut(s, r, i, j);
    }
  }

  lemma RepeatedOptional(s: Subject, r: Regex, i: nat, j: nat)
    requires i <= |s.text|
    ensures Matches(s, Alt(r, Empty), i, j) <==> Repeated(s, r, 0, 1, i, j)
  {
    hide Matches, Power;
    AltMeaning(s, r, Empty, i, j);
    EmptyMeaning(s, i, j);
    PowerOne(s, r, i, j);
    PowerNone(s, r, i, j);
  }

  lemma {:induction false} BranchMeaning(s: Subject, b: Branch, gid: nat, acc: Partial, i: nat, j: nat)
    requires i <= |s.text| && GoodBranch(b)
    ensures Matches(s, BranchTree(b, gid, acc).re, i, j) <==>
      exists k: nat :: k <= |s.text| && PartialMatches(s, acc, i, k) && BranchMeans(s, b, k, j)
    decreases b, 1
  {
    match b
    case End =>
      if Matches(s, Whole(acc), i, j) {
        MatchSpan(s, Whole(acc), i, j);
        assert PartialMatches(s, acc, i, j) && BranchMeans(s, End, j, j);
      }
    case Followed(x, rest) =>
      var t := PieceTree(x, gid);
      BranchMeaning(s, rest, t.gid, Something(Then(acc, t.re)), i, j);
      forall k: nat, m: nat | k <= |s.text| ensures Matches(s, t.re, k, m) <==> PieceMeans(s, x, k, m) {
        PieceMeaning(s, x, gid, k, m);
      }
      BranchStep(s, acc, t.re, x, rest, i, j);
  }

  lemma FollowedCut(s: Subject, x: Piece, rest: Branch, i: nat, j: nat) returns (k: nat)
    requires i <= |s.text| && BranchMeans(s, Followed(x, rest), i, j)
    ensures k <= |s.text| && PieceMeans(s, x, i, k) && BranchMeans(s, rest, k, j)
  {
    k :| k <= |s.text| && PieceMeans(s, x, i, k) && BranchMeans(s, rest, k, j);
  }

  lemma FollowedCons(s: Subject, x: Piece, rest: Branch, i: nat, k: nat, j: nat)
    requires i <= |s.text| && k <= |s.text| && PieceMeans(s, x, i, k) && BranchMeans(s, rest, k, j)
    ensures BranchMeans(s, Followed(x, rest), i, j)
  {
  }

  // Moving the first piece of a branch behind what was read before.
  lemma BranchStep(s: Subject, acc: Partial, r: Regex, x: Piece, rest: Branch, i: nat, j: nat)
    requires i <= |s.text|
    requires forall k: nat, m: nat | k <= |s.text| :: Matches(s, r, k, m) <==> PieceMeans(s, x, k, m)
    ensures (exists m: nat ::
               m <= |s.text| && PartialMatches(s, Something(Then(acc, r)), i, m) && BranchMeans(s, rest, m, j))
       <==> (exists k: nat :: k <= |s.text| && PartialMatches(s, acc, i, k) && BranchMeans(s, Followed(x, rest), k, j))
  {
    hide Matches, PieceMeans, BranchMeans;
    var acc' := Something(Then(acc, r));
    if m: nat :| m <= |s.text| && PartialMatches(s, acc', i, m) && BranchMeans(s, rest, m, j) {
      ThenMeaning(s, acc, r, i, m);
      var k: nat :| k <= |s.text| && PartialMatches(s, acc, i, k) && Matches(s, r, k, m);
      FollowedCons(s, x, rest, k, m, j);
    }
    if k: nat :| k <= |s.text| && PartialMatches(s, acc, i, k) && BranchMeans(s, Followed(x, rest), k, j) {
      var m := FollowedCut(s, x, rest, k, j);
      ThenMeaning(s, acc, r, i, m);
      assert PartialMatches(s, acc', i, m);
    }
  }

  lemma {:induction false} ExprMeaning(s: Subject, e: Expr, gid: nat, acc: Partial, i: nat, j: nat)
    requires i <= |s.text| && GoodExpr(e)
    ensures Matches(s, ExprTree(e, gid, acc).re, i, j) <==>
      (acc.Something? && Matches(s, acc.re, i, j)) || ExprMeans(s, e, i, j)
    decreases e, 1
  {
    var b, t := e.branch, BranchTree(e.branch, gid, Nothing);
    BranchAlone(s, b, gid, i, j);
    match e
    case Only(_) =>
      OrElseMeaning(s, acc, t.re, i, j);
    case Or(_, rest) =>
      OrElseMeaning(s, acc, t.re, i, j);
      ExprMeaning(s, rest, t.gid, Something(OrElse(acc, t.re)), i, j);
  }

  lemma OrElseMeaning(s: Subject, acc: Partial, r: Regex, i: nat, j: nat)
    requires i <= |s.text|
    ensures Matches(s, OrElse(acc, r), i, j) <==> (acc.Something? && Matches(s, acc.re, i, j)) || Matches(s, r, i, j)
  {
  }

  lemma {:induction false} BranchAlone(s: Subject, b: Branch, gid: nat, i: nat, j: nat)
    requires i <= |s.text| && GoodBranch(b)
    ensures Matches(s, BranchTree(b, gid, Nothing).re, i, j) <==> BranchMeans(s, b, i, j)
    decreases b, 2
  {
    BranchMeaning(s, b, gid, Nothing, i, j);
    hide BranchTree, BranchMeans;
    EmptyMeaning(s, i, i);
    assert PartialMatches(s, Nothing, i, i);
  }
}
