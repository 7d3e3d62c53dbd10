/** Basic regular expressions as section 9.3 of POSIX.1-2017 Base Definitions describes them: the
    characters that are special in some places and ordinary in others included.

    `Intended` is what an expression stands for by the standard, `Read` what regcomp makes of it; both
    are given as branches of EreSyntax, which have the meaning. The two have the same tree exactly when
    the expression is `ReadRight`. The standard leaves open whether carets and dollars are anchors at the
    ends of a group as well; the code takes them for anchors there, and so does `Proper`. */
module BreSyntax {
  import opened RegexSemantics
  import opened RegexGrammar
  import opened RegexTexts
  import opened EreSyntax
  import opened CStrings

  /** Bare is a character that stands for itself, Quoted one that needs a backslash to do so; Begin and
      Finish are the anchors. */
  datatype Unit =
    | Bare(c: char)
    | Quoted(c: char)
    | AnyChar
    | Bracketed(text: string, at: nat)
    | Begin
    | Finish
    | Sub(run: Run)

  /** How often a unit may come; max -1 is no limit. */
  datatype Count = Single | Starred | Bounded(min: nat, max: int)

  datatype Item = Item(unit: Unit, count: Count)

  datatype Run = Stop | Next(item: Item, rest: Run)

  /** Where an item stands, as far as that decides how it is taken: first in the expression or its
      group, behind the initial caret, behind an escaped backslash, behind an ordinary parenthesis that
      is behind an escaped backslash, or elsewhere. */
  datatype Place = First | BehindCaret | BehindSlash | BehindParen | Inside

  function Behind(at: Place, x: Item): Place {
    if x.unit == Begin then BehindCaret
    else if x == Item(Quoted('\\'), Single) then BehindSlash
    else if x == Item(Bare('('), Single) && at.BehindSlash? then BehindParen
    else Inside
  }

  // ---- well-formed expressions

  predicate SpecialBasic(c: char) {
    c in {'\\', '^', '.', '[', '$', '*'}
  }

  predicate GoodUnit(u: Unit)
    decreases u, 0
  {
    match u
    case Bare(c) => NUL < c < 256 as char && c !in {'\\', '.', '['}
    case Quoted(c) => SpecialBasic(c)
    case Bracketed(text, _) => BracketText(text)
    case Sub(run) => GoodRun(run) && Proper(run, First)
    case _ => true
  }

  predicate GoodCount(n: Count) {
    n.Bounded? ==> n.min <= MAX_COUNT && (n.max == -1 || n.min <= n.max <= MAX_COUNT)
  }

  predicate GoodRun(run: Run)
    decreases run, 0
  {
    run.Next? ==> GoodUnit(run.item.unit) && GoodCount(run.item.count) && GoodRun(run.rest)
  }

  /** Stars, carets and dollars are bare only where the standard takes them for ordinary characters, and
      anchors stand only at the two ends. */
  predicate Proper(run: Run, at: Place)
    decreases run, 1
  {
    run.Next? ==>
      && var x := run.item;
      && (x.unit == Bare('*') ==> at.First? || at.BehindCaret?)
      && (x.unit == Bare('^') ==> !at.First?)
      && (x.unit == Bare('$') ==> run.rest.Next? || !x.count.Single?)
      && (x.unit.Begin? ==> at.First? && x.count.Single?)
      && (x.unit.Finish? ==> run.rest.Stop? && x.count.Single?)
      && Proper(run.rest, Behind(at, x))
  }

  // ---- what an expression stands for

  function Repeat(p: Primary, n: Count): Piece {
    match n
    case Single => Once(p)
    case Starred => ZeroOrMore(p)
    case Bounded(min, max) => Counted(p, min, max)
  }

  function UnitFor(u: Unit): Primary
    decreases u, 0
  {
    match u
    case Bare(c) => Ordinary(c)
    case Quoted(c) => Ordinary(c)
    case AnyChar => Dot
    case Bracketed(text, at) => Brackets(text, at)
    case Begin => Caret
    case Finish => Dollar
    case Sub(run) => Paren(Only(Intended(run)))
  }

  function Intended(run: Run): Branch
    decreases run, 0
  {
    match run
    case Stop => End
    case Next(x, rest) => Followed(Repeat(UnitFor(x.unit), x.count), Intended(rest))
  }

  // ---- what the code takes it for

  predicate StartsWithStar(run: Run) {
    run.Next? && run.item.unit == Bare('*')
  }

  function ReadUnit(u: Unit, at: Place): Primary
    decreases u, 0
  {
    match u
    case Bare(c) => if c == '^' && at.BehindParen? then Caret else Ordinary(c)
    case Sub(run) => Paren(Only(Read(run, First)))
    case _ => UnitFor(u)
  }

  // The star behind a star that is ordinary is ordinary too.
  function WithStar(n: Count, b: Branch): Branch {
    if n.Starred? then Followed(Once(Ordinary('*')), b) else b
  }

  /** A star behind the initial caret repeats the caret; a first star cannot be repeated. */
  function Read(run: Run, at: Place): Branch
    decreases run, 0
  {
    match run
    case Stop => End
    case Next(x, rest) =>
      if x.unit.Begin? && StartsWithStar(rest) then
        Followed(ZeroOrMore(Caret), WithStar(rest.item.count, Read(rest.rest, Inside)))
      else if x.unit == Bare('*') then
        Followed(Once(Ordinary('*')), WithStar(x.count, Read(rest, Inside)))
      else Followed(Repeat(ReadUnit(x.unit, at), x.count), Read(rest, Behind(at, x)))
  }

  predicate UnitFails(u: Unit)
    decreases u, 0
  {
    u.Sub? && Fails(u.run)
  }

  /** An ordinary star with a bound behind it is refused. */
  predicate Fails(run: Run)
    decreases run, 0
  {
    run.Next? &&
      ((run.item.unit == Bare('*') && run.item.count.Bounded?) || UnitFails(run.item.unit) || Fails(run.rest))
  }

  // A unit that may come no times at most leaves nothing in the tree.
  predicate Erased(n: Count) {
    n.Bounded? && n.max == 0
  }

  /** Exactly the expressions that the code takes for what they stand for: no star directly behind the
      initial caret, no repeated first star, and no caret behind an ordinary parenthesis that is behind
      an escaped backslash, but where the bound `\{0\}` drops it anyway. */
  predicate ReadRight(run: Run, at: Place)
    decreases run, 0
  {
    run.Next? ==>
      && var x := run.item;
      && (x.unit == Bare('*') ==> at.First? && x.count.Single?)
      && (x.unit == Bare('^') && at.BehindParen? ==> Erased(x.count))
      && (x.unit.Sub? ==> ReadRight(x.unit.run, First) || (Erased(x.count) && !Fails(x.unit.run)))
      && ReadRight(run.rest, Behind(at, x))
  }

  lemma {:induction false} ReadRightSucceeds(run: Run, at: Place)
    requires ReadRight(run, at)
    ensures !Fails(run)
    decreases run
  {
    if run.Next? {
      if run.item.unit.Sub? && ReadRight(run.item.unit.run, First) {
        ReadRightSucceeds(run.item.unit.run, First);
      }
      ReadRightSucceeds(run.rest, Behind(at, run.item));
    }
  }

  // ---- what is intended is well formed

  lemma {:induction false} IntendedGood(run: Run)
    requires GoodRun(run)
    ensures GoodBranch(Intended(run)) && PlainBranch(Intended(run))
    decreases run, 1
  {
    if run.Next? {
      UnitGood(run.item.unit);
      assert GoodPiece(Repeat(UnitFor(run.item.unit), run.item.count));
      IntendedGood(run.rest);
    }
  }

  lemma {:induction false} UnitGood(u: Unit)
    requires GoodUnit(u)
    ensures GoodPrimary(UnitFor(u)) && !UnitFor(u).Closing?
    decreases u, 1
  {
    if u.Sub? {
      IntendedGood(u.run);
      assert GoodExpr(Only(Intended(u.run)));
    }
  }

  // So is what the code takes it for.
  lemma {:induction false} ReadGood(run: Run, at: Place)
    requires GoodRun(run)
    ensures GoodBranch(Read(run, at)) && PlainBranch(Read(run, at))
    decreases run, 1
  {
    if run.Next? {
      var x, rest := run.item, run.rest;
      if x.unit.Begin? && StartsWithStar(rest) {
        ReadGood(rest.rest, Inside);
      } else if x.unit == Bare('*') {
        ReadGood(rest, Inside);
      } else {
        ReadUnitGood(x.unit, at);
        assert GoodPiece(Repeat(ReadUnit(x.unit, at), x.count));
        ReadGood(rest, Behind(at, x));
      }
    }
  }

  lemma {:induction false} ReadUnitGood(u: Unit, at: Place)
    requires GoodUnit(u)
    ensures GoodPrimary(ReadUnit(u, at)) && !ReadUnit(u, at).Closing?
    decreases u, 1
  {
    if u.Sub? {
      ReadGood(u.run, First);
      assert GoodExpr(Only(Read(u.run, First)));
    }
  }

  // ---- read right: the same tree

  function PrimaryGroups(p: Primary): nat
    decreases p, 0
  {
    if p.Paren? then 1 + ExprGroups(p.expr) else 0
  }

  function BranchGroups(b: Branch): nat
    decreases b, 0
  {
    if b.End? then 0 else PrimaryGroups(b.first.p) + BranchGroups(b.rest)
  }

  function ExprGroups(e: Expr): nat
    decreases e, 0
  {
    BranchGroups(e.branch) + if e.Or? then ExprGroups(e.rest) else 0
  }

  lemma {:induction false} PieceCounted(x: Piece, gid: nat)
    ensures PieceTree(x, gid).gid == gid + PrimaryGroups(x.p)
    decreases x, 1
  {
    if x.p.Paren? {
      ExprCounted(x.p.expr, gid + 1, Nothing);
    }
  }

  lemma {:induction false} BranchCounted(b: Branch, gid: nat, acc: Partial)
    ensures BranchTree(b, gid, acc).gid == gid + BranchGroups(b)
    decreases b, 1
  {
    hide PieceTree;
    if b.Followed? {
      var t := PieceTree(b.first, gid);
      PieceCounted(b.first, gid);
      BranchCounted(b.rest, t.gid, Something(Then(acc, t.re)));
    }
  }

  lemma {:induction false} ExprCounted(e: Expr, gid: nat, acc: Partial)
    ensures ExprTree(e, gid, acc).gid == gid + ExprGroups(e)
    decreases e, 1
  {
    hide BranchTree;
    var t := BranchTree(e.branch, gid, Nothing);
    BranchCounted(e.branch, gid, Nothing);
    if e.Or? {
      ExprCounted(e.rest, t.gid, Something(OrElse(acc, t.re)));
    }
  }

  // Both readings of an initial caret with a star behind it.
  lemma CaretStar(run: Run, at: Place)
    requires run.Next? && run.item.unit.Begin? && StartsWithStar(run.rest)
    ensures var n, rest := run.rest.item.count, run.rest.rest;
      && Read(run, at) == Followed(ZeroOrMore(Caret), WithStar(n, Read(rest, Inside)))
      && Intended(run) == Followed(Repeat(Caret, run.item.count), Followed(Repeat(Ordinary('*'), n), Intended(rest)))
  {
    assert UnitFor(run.item.unit) == Caret && UnitFor(run.rest.item.unit) == Ordinary('*');
    assert Intended(run) == Followed(Repeat(Caret, run.item.count), Intended(run.rest));
  }

  lemma FollowedGroups(x: Piece, b: Branch)
    ensures BranchGroups(Followed(x, b)) == PrimaryGroups(x.p) + BranchGroups(b)
  {
  }

  // Both readings have the same groups.
  lemma {:induction false} SameGroups(run: Run, at: Place)
    ensures BranchGroups(Read(run, at)) == BranchGroups(Intended(run))
    decreases run, 1
  {
    hide BranchGroups, ReadUnit, UnitFor;
    match run
    case Stop =>
    case Next(x, rest) =>
      if x.unit.Begin? && StartsWithStar(rest) {
        var n, b, c := rest.item.count, Read(rest.rest, Inside), Intended(rest.rest);
        CaretStar(run, at);
        SameGroups(rest.rest, Inside);
        FollowedGroups(ZeroOrMore(Caret), WithStar(n, b));
        FollowedGroups(Once(Ordinary('*')), b);
        FollowedGroups(Repeat(Caret, x.count), Followed(Repeat(Ordinary('*'), n), c));
        FollowedGroups(Repeat(Ordinary('*'), n), c);
      } else if x.unit == Bare('*') {
        SameGroups(rest, Inside);
        SameUnitGroups(x.unit, at);
        FollowedGroups(Once(Ordinary('*')), WithStar(x.count, Read(rest, Inside)));
        FollowedGroups(Once(Ordinary('*')), Read(rest, Inside));
        FollowedGroups(Repeat(UnitFor(x.unit), x.count), Intended(rest));
      } else {
        SameUnitGroups(x.unit, at);
        SameGroups(rest, Behind(at, x));
        FollowedGroups(Repeat(ReadUnit(x.unit, at), x.count), Read(rest, Behind(at, x)));
        FollowedGroups(Repeat(UnitFor(x.unit), x.count), Intended(rest));
      }
  }

  lemma {:induction false} SameUnitGroups(u: Unit, at: Place)
    ensures PrimaryGroups(ReadUnit(u, at)) == PrimaryGroups(UnitFor(u))
    ensures !u.Sub? ==> PrimaryGroups(UnitFor(u)) == 0
    decreases u, 1
  {
    if u.Sub? {
      SameGroups(u.run, First);
      assert ExprGroups(Only(Read(u.run, First))) == ExprGroups(Only(Intended(u.run)));
    }
  }

  lemma {:induction false} SameTree(run: Run, at: Place, gid: nat, acc: Partial)
    requires ReadRight(run, at) && GoodRun(run)
    ensures BranchTree(Read(run, at), gid, acc) == BranchTree(Intended(run), gid, acc)
    decreases run, 1
  {
    hide PieceTree;
    if run.Next? && !(run.item.unit.Begin? && StartsWithStar(run.rest)) {
      var x, rest := run.item, run.rest;
      SamePiece(x, at, gid);
      var t := PieceTree(Repeat(UnitFor(x.unit), x.count), gid);
      SameTree(rest, Behind(at, x), t.gid, Something(Then(acc, t.re)));
    }
  }

  lemma {:induction false} SamePiece(x: Item, at: Place, gid: nat)
    requires GoodUnit(x.unit) && GoodCount(x.count)
    requires x.unit == Bare('^') && at.BehindParen? ==> Erased(x.count)
    requires x.unit.Sub? ==> ReadRight(x.unit.run, First) || Erased(x.count)
    ensures PieceTree(Repeat(ReadUnit(x.unit, at), x.count), gid) == PieceTree(Repeat(UnitFor(x.unit), x.count), gid)
    decreases x, 1
  {
    var p, q := ReadUnit(x.unit, at), UnitFor(x.unit);
    if Erased(x.count) {
      SameUnitGroups(x.unit, at);
      PieceCounted(Repeat(p, x.count), gid);
      PieceCounted(Repeat(q, x.count), gid);
      NoCopies(PrimaryTree(p, gid).re);
      NoCopies(PrimaryTree(q, gid).re);
    } else if x.unit.Sub? {
      hide BoundsTree;
      SameTree(x.unit.run, First, gid + 1, Nothing);
      assert ExprTree(Only(Read(x.unit.run, First)), gid + 1, Nothing)
          == ExprTree(Only(Intended(x.unit.run)), gid + 1, Nothing);
    }
  }

  lemma NoCopies(r: Regex)
    ensures BoundsTree(r, 0, 0) == Empty
  {
  }

  // ---- read wrong: the trees differ, by a weight that every wrong reading takes away from

  /** Each ordinary caret and each repeated ordinary star is counted, each repeated anchor taken off. */
  function Weight(r: Regex): int {
    match r
    case Empty => 0
    case Leaf(atom) => if atom == Chr('^' as int) then 1 else 0
    case Concat(a, b) => Weight(a) + Weight(b)
    case Alt(a, b) => Weight(a) + Weight(b)
    case Group(_, a) => Weight(a)
    case Star(a) => if a == Leaf(Bol) then -1 else if a == Leaf(Chr('*' as int)) then 1 else Weight(a)
  }

  function PrimaryWeight(p: Primary): int
    decreases p, 0
  {
    match p
    case Ordinary(c) => if c == '^' then 1 else 0
    case Paren(e) => ExprWeight(e)
    case _ => 0
  }

  function StarWeight(p: Primary): int {
    match p
    case Ordinary('*') => 1
    case Caret => -1
    case _ => PrimaryWeight(p)
  }

  function PieceWeight(x: Piece): int
    decreases x, 0
  {
    match x
    case Once(p) => PrimaryWeight(p)
    case ZeroOrMore(p) => StarWeight(p)
    case OneOrMore(p) => PrimaryWeight(p) + StarWeight(p)
    case Optional(p) => PrimaryWeight(p)
    case Counted(p, min, max) =>
      if max == -1 then min * PrimaryWeight(p) + StarWeight(p)
      else (if min <= max then max else 1) * PrimaryWeight(p)
  }

  function BranchWeight(b: Branch): int
    decreases b, 0
  {
    if b.End? then 0 else PieceWeight(b.first) + BranchWeight(b.rest)
  }

  function ExprWeight(e: Expr): int
    decreases e, 0
  {
    BranchWeight(e.branch) + if e.Or? then ExprWeight(e.rest) else 0
  }

  lemma {:induction false} CopiesWeight(acc: Partial, r: Regex, n: nat)
    ensures Weight(Whole(Copies(acc, r, n))) == Weight(Whole(acc)) + n * Weight(r)
  {
    hide Weight;
    if n > 0 {
      var w, before := Weight(r), Copies(acc, r, n - 1);
      CopiesWeight(acc, r, n - 1);
      ThenWeight(before, r);
      assert (n - 1) * w + w == n * w;
    }
  }

  lemma ThenWeight(acc: Partial, r: Regex)
    ensures Weight(Then(acc, r)) == Weight(Whole(acc)) + Weight(r)
  {
  }

  lemma BoundsWeight(r: Regex, min: nat, max: int)
    requires max == -1 || min <= max
    ensures Weight(BoundsTree(r, min, max)) ==
      if max == -1 then min * Weight(r) + Weight(Star(r)) else max * Weight(r)
  {
    var front := Copies(Nothing, r, min);
    CopiesWeight(Nothing, r, min);
    if max != -1 {
      CopiesWeight(front, Alt(r, Empty), max - min);
      assert min * Weight(r) + (max - min) * Weight(r) == max * Weight(r);
    }
  }

  lemma {:induction false} PrimaryWeighs(p: Primary, gid: nat)
    ensures Weight(PrimaryTree(p, gid).re) == PrimaryWeight(p)
    ensures Weight(Star(PrimaryTree(p, gid).re)) == StarWeight(p)
    decreases p, 1
  {
    if p.Paren? {
      var t := ExprTree(p.expr, gid + 1, Nothing);
      ExprWeighs(p.expr, gid + 1, Nothing);
      assert Weight(Concat(t.re, Leaf(GroupEnd(gid + 1)))) == ExprWeight(p.expr);
    }
  }

  lemma {:induction false} PieceWeighs(x: Piece, gid: nat)
    ensures Weight(PieceTree(x, gid).re) == PieceWeight(x)
    decreases x, 1
  {
    hide PrimaryTree, BoundsTree, StarWeight;
    PrimaryWeighs(x.p, gid);
    if x.Counted? && (x.max == -1 || x.min <= x.max) {
      BoundsWeight(PrimaryTree(x.p, gid).re, x.min, x.max);
    }
  }

  lemma {:induction false} BranchWeighs(b: Branch, gid: nat, acc: Partial)
    ensures Weight(BranchTree(b, gid, acc).re) == Weight(Whole(acc)) + BranchWeight(b)
    decreases b, 1
  {
    hide PieceTree, PieceWeight;
    if b.Followed? {
      var t := PieceTree(b.first, gid);
      PieceWeighs(b.first, gid);
      BranchWeighs(b.rest, t.gid, Something(Then(acc, t.re)));
    }
  }

  lemma {:induction false} ExprWeighs(e: Expr, gid: nat, acc: Partial)
    ensures Weight(ExprTree(e, gid, acc).re) == Weight(Whole(acc)) + ExprWeight(e)
    decreases e, 1
  {
    hide BranchTree;
    var t := BranchTree(e.branch, gid, Nothing);
    BranchWeighs(e.branch, gid, Nothing);
    if e.Or? {
      ExprWeighs(e.rest, t.gid, Something(OrElse(acc, t.re)));
    }
  }

  lemma {:induction false} Lighter(run: Run, at: Place)
    requires GoodRun(run) && Proper(run, at) && !Fails(run) && (at.BehindCaret? ==> !StartsWithStar(run))
    ensures BranchWeight(Read(run, at)) <= BranchWeight(Intended(run))
    ensures BranchWeight(Read(run, at)) == BranchWeight(Intended(run)) ==> ReadRight(run, at)
    decreases run, 1
  {
    hide BranchWeight;
    if run.Next? {
      var x, rest := run.item, run.rest;
      if x.unit.Begin? && StartsWithStar(rest) {
        CaretStar(run, at);
        Lighter(rest.rest, Inside);
        LighterCaret(rest.item.count, Read(rest.rest, Inside), Intended(rest.rest));
      } else if x.unit == Bare('*') {
        Lighter(rest, Inside);
        LighterStar(x.count, Read(rest, Inside), Intended(rest));
      } else {
        LighterPiece(x, at);
        Lighter(rest, Behind(at, x));
        FollowedWeight(Repeat(ReadUnit(x.unit, at), x.count), Read(rest, Behind(at, x)));
        FollowedWeight(Repeat(UnitFor(x.unit), x.count), Intended(rest));
      }
    }
  }

  lemma FollowedWeight(x: Piece, b: Branch)
    ensures BranchWeight(Followed(x, b)) == PieceWeight(x) + BranchWeight(b)
  {
  }

  lemma LighterCaret(n: Count, b: Branch, c: Branch)
    requires !n.Bounded? && BranchWeight(b) <= BranchWeight(c)
    ensures BranchWeight(Followed(ZeroOrMore(Caret), WithStar(n, b)))
      < BranchWeight(Followed(Once(Caret), Followed(Repeat(Ordinary('*'), n), c)))
  {
    hide BranchWeight;
    FollowedWeight(ZeroOrMore(Caret), WithStar(n, b));
    FollowedWeight(Once(Ordinary('*')), b);
    FollowedWeight(Once(Caret), Followed(Repeat(Ordinary('*'), n), c));
    FollowedWeight(Repeat(Ordinary('*'), n), c);
  }

  lemma LighterStar(n: Count, b: Branch, c: Branch)
    requires !n.Bounded? && BranchWeight(b) <= BranchWeight(c)
    ensures var v := BranchWeight(Followed(Once(Ordinary('*')), WithStar(n, b)));
      && v <= BranchWeight(Followed(Repeat(Ordinary('*'), n), c))
      && (v == BranchWeight(Followed(Repeat(Ordinary('*'), n), c)) ==> n.Single? && BranchWeight(b) == BranchWeight(c))
  {
    hide BranchWeight;
    FollowedWeight(Once(Ordinary('*')), WithStar(n, b));
    FollowedWeight(Once(Ordinary('*')), b);
    FollowedWeight(Repeat(Ordinary('*'), n), c);
  }

  // The part of ReadRight that is about one item other than an ordinary star.
  predicate ItemRight(x: Item, at: Place) {
    && (x.unit == Bare('^') && at.BehindParen? ==> Erased(x.count))
    && (x.unit.Sub? ==> ReadRight(x.unit.run, First) || Erased(x.count))
  }

  lemma {:induction false} LighterPiece(x: Item, at: Place)
    requires GoodUnit(x.unit) && GoodCount(x.count) && !UnitFails(x.unit)
    ensures var p, q := Repeat(ReadUnit(x.unit, at), x.count), Repeat(UnitFor(x.unit), x.count);
      && PieceWeight(p) <= PieceWeight(q)
      && (PieceWeight(p) == PieceWeight(q) ==> ItemRight(x, at))
    decreases x, 1
  {
    var p, q := ReadUnit(x.unit, at), UnitFor(x.unit);
    if x.unit.Sub? {
      Lighter(x.unit.run, First);
      assert PrimaryWeight(p) == BranchWeight(Read(x.unit.run, First));
      assert PrimaryWeight(q) == BranchWeight(Intended(x.unit.run));
    }
    LighterRepeat(p, q, x.count);
  }

  lemma LighterRepeat(p: Primary, q: Primary, n: Count)
    requires GoodCount(n) && PrimaryWeight(p) <= PrimaryWeight(q) && StarWeight(p) <= StarWeight(q)
    ensures PieceWeight(Repeat(p, n)) <= PieceWeight(Repeat(q, n))
    ensures PrimaryWeight(p) < PrimaryWeight(q) && StarWeight(p) < StarWeight(q) && !Erased(n) ==>
      PieceWeight(Repeat(p, n)) < PieceWeight(Repeat(q, n))
  {
    hide PrimaryWeight, StarWeight;
    if n.Bounded? {
      MoreOf(if n.max == -1 then n.min else n.max, PrimaryWeight(p), PrimaryWeight(q));
    }
  }

  lemma MoreOf(k: nat, a: int, b: int)
    requires a <= b
    ensures k * a <= k * b
    ensures k > 0 && a < b ==> k * a < k * b
  {
    assert k * b - k * a == k * (b - a);
  }

  /** The code takes an expression it accepts for what it stands for, exactly when it is ReadRight. */
  lemma SameTreeIff(run: Run, gid: nat)
    requires GoodRun(run) && Proper(run, First) && !Fails(run)
    ensures BranchTree(Read(run, First), gid, Nothing) == BranchTree(Intended(run), gid, Nothing)
      <==> ReadRight(run, First)
  {
    hide BranchTree, Read, Intended, ReadRight, Weight, BranchWeight;
    BranchWeighs(Read(run, First), gid, Nothing);
    BranchWeighs(Intended(run), gid, Nothing);
    Lighter(run, First);
    if ReadRight(run, First) {
      SameTree(run, First, gid, Nothing);
    }
  }
}
