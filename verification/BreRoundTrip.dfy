/** The basic expressions of BreSyntax, written out and read back by regcomp: for every one what is read,
    and for exactly which ones that is what the expression stands for. */
module BreRoundTrip {
  import opened RegexSemantics
  import opened RegexGrammar
  import opened RegexTexts
  import opened EreSyntax
  import opened EreRoundTrip
  import opened BreSyntax
  import opened BreText
  import opened CStrings
  import opened Numerals

  // ---- writing them

  function ShowUnit(u: Unit): (t: CString)
    requires GoodUnit(u)
    decreases u, 0
  {
    match u
    case Bare(c) => [c]
    case Quoted(c) => ['\\', c]
    case AnyChar => "."
    case Bracketed(text, _) => "[" + text + "]"
    case Begin => "^"
    case Finish => "$"
    case Sub(run) => "\\(" + (ShowRun(run) + "\\)")
  }

  function ShowTimes(n: Count): (t: CString)
    requires GoodCount(n)
  {
    match n
    case Single => ""
    case Starred => "*"
    case Bounded(min, max) => "\\{" + (ShowNumbers(min, max) + "\\}")
  }

  function ShowItem(x: Item): (t: CString)
    requires GoodUnit(x.unit) && GoodCount(x.count)
    decreases x, 0
  {
    ShowUnit(x.unit) + ShowTimes(x.count)
  }

  function ShowRun(run: Run): (t: CString)
    requires GoodRun(run)
    decreases run, 0
  {
    match run
    case Stop => ""
    case Next(x, rest) => ShowItem(x) + ShowRun(rest)
  }

  /** Each bracket expression is named by the place where it gets written. */
  predicate PlacedUnit(u: Unit, pos: nat)
    requires GoodUnit(u)
    decreases u, 0
  {
    match u
    case Bracketed(_, at) => at == pos
    case Sub(run) => PlacedRun(run, pos + 2)
    case _ => true
  }

  predicate PlacedRun(run: Run, pos: nat)
    requires GoodRun(run)
    decreases run, 0
  {
    run.Next? ==> PlacedUnit(run.item.unit, pos) && PlacedRun(run.rest, pos + |ShowItem(run.item)|)
  }

  /** How deep groups nest. */
  function RunDepth(run: Run): nat
    decreases run, 0
  {
    if run.Stop? then 0 else Max(UnitDepth(run.item.unit), RunDepth(run.rest))
  }

  function UnitDepth(u: Unit): nat
    decreases u, 0
  {
    if u.Sub? then 1 + RunDepth(u.run) else 0
  }

  // ---- where in the text an item stands

  /** The two characters before `pos` tell as much of the place as the code looks for. */
  predicate Stands(pat: CString, pos: nat, at: Place)
    requires pos <= |pat|
  {
    && (Opening(pat, pos) <==> at.First? || at.BehindParen?)
    && (at.BehindSlash? <==> pos >= 1 && pat[pos - 1] == '\\')
  }

  lemma HereTwo(pat: CString, pos: nat, t: string)
    requires Here(pat, pos, t) && |t| > 1
    ensures At(pat, pos) == t[0] && At(pat, pos + 1) == t[1]
  {
    assert pat[pos..pos + |t|][0] == t[0] && pat[pos..pos + |t|][1] == t[1];
  }

  // The last character an item is written with.
  lemma LastChar(x: Item)
    requires GoodUnit(x.unit) && GoodCount(x.count)
    ensures var t := ShowItem(x);
      && |t| > 0
      && (t[|t| - 1] == '\\' <==> x == Item(Quoted('\\'), Single))
      && (t[|t| - 1] == '(' <==> x == Item(Bare('('), Single))
      && (x == Item(Bare('('), Single) ==> |t| == 1)
  {
    hide ShowNumbers, ShowRun, BracketText;
    var u, n := ShowUnit(x.unit), ShowTimes(x.count);
    assert |u| > 0;
    var t := u + n;
    assert t[|t| - 1] == if n == "" then u[|u| - 1] else n[|n| - 1];
  }

  lemma StandsBehind(pat: CString, pos: nat, x: Item, at: Place)
    requires GoodUnit(x.unit) && GoodCount(x.count) && Here(pat, pos, ShowItem(x)) && Stands(pat, pos, at)
    ensures Stands(pat, pos + |ShowItem(x)|, Behind(at, x))
  {
    hide ShowItem, Here;
    LastChar(x);
    var t := ShowItem(x);
    HereChar(pat, pos, t, |t| - 1);
    if |t| > 1 {
      HereChar(pat, pos, t, |t| - 2);
    }
  }

  // ---- reading them back: counts and what stands behind

  lemma BasicCountRead(pat: CString, pos: nat, min: nat, max: int)
    requires min <= MAX_COUNT && (max == -1 || min <= max <= MAX_COUNT)
    requires Here(pat, pos, ShowNumbers(min, max) + "\\}")
    ensures BoundsAt(pat, pos, false) == Between(min, max, pos + |ShowNumbers(min, max)| + 2)
  {
    hide ShowNumbers, Here, BoundsAt, SpellsBound;
    HereSplit(pat, pos, ShowNumbers(min, max), "\\}");
    var close := pos + |ShowNumbers(min, max)|;
    HereTwo(pat, close, "\\}");
    NumbersSpell(pat, pos, min, max);
    BoundRead(pat, pos, false, min, max, close + 2);
  }

  // The first characters of what a unit is written as.
  lemma BasicFirst(u: Unit)
    requires GoodUnit(u)
    ensures var t := ShowUnit(u);
      && |t| > 0 && (u == Bare('$') || u.Finish? ==> |t| == 1)
      && (t[0] == '*' <==> u == Bare('*')) && (t[0] == '\\' ==> |t| > 1 && t[1] != '{' && t[1] != ')')
  {
  }

  // A repetition sign begins only a bare star; and only an empty rest is at the end.
  lemma BehindBasic(pat: CString, pos: nat, run: Run)
    requires GoodRun(run) && Here(pat, pos, ShowRun(run)) && BreEnds(pat, pos + |ShowRun(run)|)
    ensures RepeatsBasic(pat, pos) <==> StartsWithStar(run)
    ensures RepeatsBasic(pat, pos) ==> pat[pos] == '*'
    ensures run.Next? <==> !BreEnds(pat, pos)
  {
    if run.Next? {
      hide ShowUnit, ShowTimes, Here;
      var t := ShowUnit(run.item.unit);
      BasicFirst(run.item.unit);
      HereSplit(pat, pos, t + ShowTimes(run.item.count), ShowRun(run.rest));
      HereSplit(pat, pos, t, ShowTimes(run.item.count));
      HereFirst(pat, pos, t);
      if |t| > 1 {
        HereTwo(pat, pos, t);
      }
    }
  }

  // ---- units

  /** What reading a stretch that ends at `end` yields, if it does not fail. */
  function Outcome(fails: bool, end: nat, t: Tree): Parse {
    if fails then Fail(REG_BADRPT) else Done(end, t.gid, t.re)
  }

  lemma {:induction false} ReadBasicUnit(pat: CString, pos: nat, u: Unit, at: Place, gid: nat, depth: nat)
    requires GoodUnit(u) && u != Bare('*') && Here(pat, pos, ShowUnit(u)) && depth + UnitDepth(u) <= MAX_DEPTH
    requires PlacedUnit(u, pos) && Stands(pat, pos, at)
    requires (u == Bare('^') ==> !at.First?) && (u.Begin? ==> at.First?)
    requires (u == Bare('$') ==> !BreEnds(pat, pos + 1)) && (u.Finish? ==> BreEnds(pat, pos + 1))
    ensures pos < |pat| && pat[pos] != '*'
    ensures BreAtom(pat, pos, gid, depth)
      == Outcome(UnitFails(u), pos + |ShowUnit(u)|, PrimaryTree(ReadUnit(u, at), gid))
    decreases u, 0
  {
    hide Bre, BreAtom, BreEnds, ShowRun, PlacedRun, Read, Fails, PrimaryTree, GoodRun, Proper, RunDepth, BracketText,
        Here, Stands;
    if u.Sub? {
      ReadBasicGroup(pat, pos, u.run, gid, depth);
    } else {
      ReadBasicSimple(pat, pos, u, at, gid, depth);
    }
  }

  lemma ReadBasicSimple(pat: CString, pos: nat, u: Unit, at: Place, gid: nat, depth: nat)
    requires GoodUnit(u) && u != Bare('*') && !u.Sub? && Here(pat, pos, ShowUnit(u))
    requires PlacedUnit(u, pos) && Stands(pat, pos, at)
    requires (u == Bare('^') ==> !at.First?) && (u.Begin? ==> at.First?)
    requires (u == Bare('$') ==> !BreEnds(pat, pos + 1)) && (u.Finish? ==> BreEnds(pat, pos + 1))
    ensures pos < |pat| && pat[pos] != '*'
    ensures BreAtom(pat, pos, gid, depth) == Outcome(false, pos + |ShowUnit(u)|, PrimaryTree(ReadUnit(u, at), gid))
  {
    hide Bre, BracketAt, BracketText, Here;
    HereChar(pat, pos, ShowUnit(u), 0);
    match u
    case Quoted(c) => HereChar(pat, pos, ShowUnit(u), 1);
    case Bracketed(text, _) => BracketRead(pat, pos, text, gid);
    case _ =>
  }

  lemma {:induction false} ReadBasicGroup(pat: CString, pos: nat, run: Run, gid: nat, depth: nat)
    requires GoodRun(run) && Proper(run, First) && depth + 1 + RunDepth(run) <= MAX_DEPTH
    requires Here(pat, pos, "\\(" + (ShowRun(run) + "\\)")) && PlacedRun(run, pos + 2)
    ensures pos < |pat| && pat[pos] == '\\'
    ensures BreAtom(pat, pos, gid, depth)
      == Outcome(Fails(run), pos + |ShowRun(run)| + 4, PrimaryTree(Paren(Only(Read(run, First))), gid))
    decreases run, 2
  {
    hide Bre, BreAtom, BranchTree, Here, ShowRun, PlacedRun, RunDepth, GoodRun, Proper, Fails, Read;
    var inner := ShowRun(run);
    HereSplit(pat, pos, "\\(", inner + "\\)");
    HereTwo(pat, pos, "\\(");
    HereSplit(pat, pos + 2, inner, "\\)");
    HereTwo(pat, pos + 2 + |inner|, "\\)");
    ReadRun(pat, pos + 2, run, First, gid + 1, depth + 1, Nothing);
    AloneTree(Read(run, First), gid + 1);
    GroupStep(pat, pos, gid, depth, Fails(run), pos + 2 + |inner|, BranchTree(Read(run, First), gid + 1, Nothing));
  }

  // A group whose inside has been read up to `end`.
  lemma GroupStep(pat: CString, pos: nat, gid: nat, depth: nat, fails: bool, end: nat, t: Tree)
    requires pos + 2 <= end <= |pat| && depth < MAX_DEPTH && pat[pos] == '\\' && pat[pos + 1] == '('
    requires Bre(pat, pos + 2, gid + 1, depth + 1, Nothing) == Outcome(fails, end, t)
    requires At(pat, end) == '\\' && At(pat, end + 1) == ')'
    ensures BreAtom(pat, pos, gid, depth)
      == Outcome(fails, end + 2, Tree(Group(gid + 1, Concat(t.re, Leaf(GroupEnd(gid + 1)))), t.gid))
  {
    hide Bre;
  }

  // A branch on its own has the tree of the branch.
  lemma AloneTree(b: Branch, gid: nat)
    ensures ExprTree(Only(b), gid, Nothing) == BranchTree(b, gid, Nothing)
  {
  }

  // ---- items

  // The repetition of a unit that has been read up to `end`.
  lemma ReadTimes(pat: CString, pos: nat, p: Primary, n: Count, gid: nat, depth: nat, end: nat)
    requires GoodCount(n) && pos < |pat| && pat[pos] != '*' && end <= |pat|
    requires var t := PrimaryTree(p, gid); BreAtom(pat, pos, gid, depth) == Done(end, t.gid, t.re)
    requires Here(pat, end, ShowTimes(n)) && (n.Single? ==> !RepeatsBasic(pat, end))
    ensures var t := PieceTree(Repeat(p, n), gid);
      BrePiece(pat, pos, gid, depth) == Done(end + |ShowTimes(n)|, t.gid, t.re)
  {
    hide BreAtom, PrimaryTree, BoundsAt, BoundsTree, ShowNumbers, Here;
    match n
    case Single =>
    case Starred => HereFirst(pat, end, "*");
    case Bounded(min, max) => ReadBound(pat, pos, p, min, max, gid, depth, end);
  }

  lemma ReadBound(pat: CString, pos: nat, p: Primary, min: nat, max: int, gid: nat, depth: nat, end: nat)
    requires GoodCount(Bounded(min, max)) && pos < |pat| && pat[pos] != '*' && end <= |pat|
    requires var t := PrimaryTree(p, gid); BreAtom(pat, pos, gid, depth) == Done(end, t.gid, t.re)
    requires Here(pat, end, "\\{" + (ShowNumbers(min, max) + "\\}"))
    ensures var t := PieceTree(Counted(p, min, max), gid);
      BrePiece(pat, pos, gid, depth) == Done(end + 4 + |ShowNumbers(min, max)|, t.gid, t.re)
  {
    hide BreAtom, PrimaryTree, BoundsAt, BoundsTree, ShowNumbers, Here;
    HereSplit(pat, end, "\\{", ShowNumbers(min, max) + "\\}");
    HereTwo(pat, end, "\\{");
    BasicCountRead(pat, end + 2, min, max);
  }

  lemma AtomFails(pat: CString, pos: nat, gid: nat, depth: nat)
    requires pos < |pat| && pat[pos] != '*' && BreAtom(pat, pos, gid, depth) == Fail(REG_BADRPT)
    ensures BrePiece(pat, pos, gid, depth) == Fail(REG_BADRPT)
  {
    hide BreAtom;
  }

  // The text of an item and of what stands behind it, part by part.
  lemma ItemParts(pat: CString, pos: nat, x: Item, rest: Run)
    requires GoodRun(Next(x, rest)) && Here(pat, pos, ShowRun(Next(x, rest)))
    ensures GoodUnit(x.unit) && GoodCount(x.count) && GoodRun(rest)
    ensures var u, n := ShowUnit(x.unit), ShowTimes(x.count);
      && |ShowItem(x)| == |u| + |n| && |ShowRun(Next(x, rest))| == |ShowItem(x)| + |ShowRun(rest)|
      && Here(pat, pos, u) && Here(pat, pos + |u|, n) && Here(pat, pos + |u| + |n|, ShowRun(rest))
      && Here(pat, pos, ShowItem(x))
  {
    hide ShowUnit, ShowTimes, Here;
    HereSplit(pat, pos, ShowItem(x), ShowRun(rest));
    HereSplit(pat, pos, ShowUnit(x.unit), ShowTimes(x.count));
  }

  // Where the units may stand that are special in some places.
  lemma ProperUnit(x: Item, rest: Run, at: Place)
    requires Proper(Next(x, rest), at)
    ensures (x.unit == Bare('^') ==> !at.First?) && (x.unit.Begin? ==> at.First?)
    ensures x.unit == Bare('$') ==> rest.Next? || !x.count.Single?
    ensures x.unit.Finish? ==> rest.Stop? && x.count.Single?
    ensures Proper(rest, Behind(at, x))
  {
  }

  // An item that is no bare star, and behind which there is none unless it has a count of its own.
  lemma {:induction false} ReadItem(pat: CString, pos: nat, x: Item, rest: Run, at: Place, gid: nat, depth: nat)
    requires GoodRun(Next(x, rest)) && Proper(Next(x, rest), at) && x.unit != Bare('*')
    requires Here(pat, pos, ShowRun(Next(x, rest))) && BreEnds(pat, pos + |ShowRun(Next(x, rest))|)
    requires PlacedUnit(x.unit, pos) && Stands(pat, pos, at) && depth + UnitDepth(x.unit) <= MAX_DEPTH
    requires x.count.Single? ==> !StartsWithStar(rest)
    ensures pos < |pat|
    ensures BrePiece(pat, pos, gid, depth) == Outcome(
      UnitFails(x.unit), pos + |ShowItem(x)|, PieceTree(Repeat(ReadUnit(x.unit, at), x.count), gid))
    decreases x, 2
  {
    hide BreAtom, BrePiece, PieceTree, PrimaryTree, ShowUnit, ShowTimes, ShowItem, ShowRun, Here, UnitFails, ReadUnit,
        Opening, BreEnds, RepeatsBasic, UnitDepth, Stands, PlacedUnit, GoodRun, GoodUnit, GoodCount, Proper,
        StartsWithStar, Behind;
    ItemParts(pat, pos, x, rest);
    ProperUnit(x, rest, at);
    BehindBasic(pat, pos + |ShowItem(x)|, rest);
    DollarPlace(pat, pos, x, rest);
    NoText(x.count);
    ReadBasicUnit(pat, pos, x.unit, at, gid, depth);
    if UnitFails(x.unit) {
      AtomFails(pat, pos, gid, depth);
    } else {
      ReadTimes(pat, pos, ReadUnit(x.unit, at), x.count, gid, depth, pos + |ShowUnit(x.unit)|);
    }
  }

  lemma NoText(n: Count)
    requires GoodCount(n)
    ensures n.Single? ==> ShowTimes(n) == ""
  {
  }

  // Behind a dollar the expression ends exactly when it is an anchor.
  lemma DollarPlace(pat: CString, pos: nat, x: Item, rest: Run)
    requires GoodRun(Next(x, rest)) && Here(pat, pos, ShowRun(Next(x, rest)))
        && BreEnds(pat, pos + |ShowRun(Next(x, rest))|)
    ensures pos + 1 <= |pat|
    ensures (x.unit == Bare('$') && (rest.Next? || !x.count.Single?)) ==> !BreEnds(pat, pos + 1)
    ensures (x.unit.Finish? && rest.Stop? && x.count.Single?) ==> BreEnds(pat, pos + 1)
  {
    hide ShowRun, ShowItem, ShowUnit, ShowTimes, GoodRun, GoodUnit, GoodCount, BreEnds, Here;
    ItemParts(pat, pos, x, rest);
    BasicFirst(x.unit);
    HereFirst(pat, pos, ShowUnit(x.unit));
    if x.unit == Bare('$') || x.unit.Finish? {
      BehindDollar(pat, pos + 1, x.count, rest);
    }
  }

  // A count and the rest are all there is, or the end is not here.
  lemma BehindDollar(pat: CString, pos: nat, n: Count, rest: Run)
    requires GoodCount(n) && GoodRun(rest) && Here(pat, pos, ShowTimes(n))
    requires Here(pat, pos + |ShowTimes(n)|, ShowRun(rest))
    requires BreEnds(pat, pos + |ShowTimes(n)| + |ShowRun(rest)|)
    ensures BreEnds(pat, pos) <==> n.Single? && rest.Stop?
  {
    hide ShowRun, GoodRun, ShowNumbers, Here;
    BehindBasic(pat, pos + |ShowTimes(n)|, rest);
    match n
    case Single =>
    case Starred => HereFirst(pat, pos, "*");
    case Bounded(_, _) => HereTwo(pat, pos, ShowTimes(n));
  }

  // ---- runs

  lemma BreFails(pat: CString, pos: nat, gid: nat, depth: nat, acc: Partial)
    requires pos < |pat| && !BreEnds(pat, pos) && BrePiece(pat, pos, gid, depth) == Fail(REG_BADRPT)
    ensures Bre(pat, pos, gid, depth, acc) == Fail(REG_BADRPT)
  {
    hide BrePiece;
  }

  lemma FollowedTree(x: Piece, b: Branch, gid: nat, acc: Partial)
    ensures var t := PieceTree(x, gid);
      BranchTree(Followed(x, b), gid, acc) == BranchTree(b, t.gid, Something(Then(acc, t.re)))
  {
  }

  /** A run of items is read as BreSyntax says, or refused where it says so. */
  lemma {:induction false} ReadRun(pat: CString, pos: nat, run: Run, at: Place, gid: nat, depth: nat, acc: Partial)
    requires GoodRun(run) && Proper(run, at) && Here(pat, pos, ShowRun(run)) && depth + RunDepth(run) <= MAX_DEPTH
    requires PlacedRun(run, pos) && Stands(pat, pos, at) && BreEnds(pat, pos + |ShowRun(run)|)
    ensures Bre(pat, pos, gid, depth, acc)
      == Outcome(Fails(run), pos + |ShowRun(run)|, BranchTree(Read(run, at), gid, acc))
    decreases run, 1
  {
    hide Bre, BrePiece, BreEnds, ShowItem, ShowRun, BranchTree, Read, Fails, GoodRun, Proper, PlacedRun, RunDepth,
        Here, Stands;
    BehindBasic(pat, pos, run);
    match run
    case Stop =>
      StopShape(at, gid, acc);
      BreStop(pat, pos, gid, depth, acc);
    case Next(x, rest) =>
      if x.unit.Begin? && StartsWithStar(rest) {
        ReadCaretStar(pat, pos, run, at, gid, depth, acc);
      } else if x.unit == Bare('*') {
        ReadStar(pat, pos, run, at, gid, depth, acc);
      } else {
        ReadNext(pat, pos, run, at, gid, depth, acc);
      }
  }

  lemma StopShape(at: Place, gid: nat, acc: Partial)
    ensures ShowRun(Stop) == "" && !Fails(Stop) && BranchTree(Read(Stop, at), gid, acc) == Tree(Whole(acc), gid)
  {
  }

  lemma {:induction false} ReadNext(pat: CString, pos: nat, run: Run, at: Place, gid: nat, depth: nat, acc: Partial)
    requires GoodRun(run) && Proper(run, at) && Here(pat, pos, ShowRun(run)) && depth + RunDepth(run) <= MAX_DEPTH
    requires PlacedRun(run, pos) && Stands(pat, pos, at) && BreEnds(pat, pos + |ShowRun(run)|)
    requires run.Next? && run.item.unit != Bare('*') && !(run.item.unit.Begin? && StartsWithStar(run.rest))
    ensures Bre(pat, pos, gid, depth, acc)
      == Outcome(Fails(run), pos + |ShowRun(run)|, BranchTree(Read(run, at), gid, acc))
    decreases run, 0
  {
    hide Bre, BrePiece, PieceTree, ShowItem, ShowUnit, ShowTimes, ShowRun, BreEnds, Here, BranchTree, UnitFails,
        ReadUnit, UnitDepth, Stands, PlacedUnit, Behind, GoodRun, GoodUnit, GoodCount, Proper, StartsWithStar, Opening;
    var x, rest := run.item, run.rest;
    BehindBasic(pat, pos, run);
    ItemParts(pat, pos, x, rest);
    ProperUnit(x, rest, at);
    NoStarBehind(run, at);
    ReadItem(pat, pos, x, rest, at, gid, depth);
    if UnitFails(x.unit) {
      BreFails(pat, pos, gid, depth, acc);
    } else {
      var piece, end := Repeat(ReadUnit(x.unit, at), x.count), pos + |ShowItem(x)|;
      var t := PieceTree(piece, gid);
      BreStep(pat, pos, gid, depth, acc, end, t);
      StandsBehind(pat, pos, x, at);
      ReadRun(pat, end, rest, Behind(at, x), t.gid, depth, Something(Then(acc, t.re)));
      FollowedTree(piece, Read(rest, Behind(at, x)), gid, acc);
    }
  }

  // A bare star stands behind nothing but the initial caret.
  lemma NoStarBehind(run: Run, at: Place)
    requires run.Next? && Proper(run, at)
    ensures StartsWithStar(run.rest) ==> run.item.unit.Begin?
  {
  }

  // A star that is first, and what stands behind it.
  lemma {:induction false} ReadStar(pat: CString, pos: nat, run: Run, at: Place, gid: nat, depth: nat, acc: Partial)
    requires GoodRun(run) && Proper(run, at) && Here(pat, pos, ShowRun(run)) && depth + RunDepth(run) <= MAX_DEPTH
    requires PlacedRun(run, pos) && Stands(pat, pos, at) && BreEnds(pat, pos + |ShowRun(run)|)
    requires StartsWithStar(run)
    ensures Bre(pat, pos, gid, depth, acc)
      == Outcome(Fails(run), pos + |ShowRun(run)|, BranchTree(Read(run, at), gid, acc))
    decreases run, 0
  {
    hide Bre, BrePiece, BreEnds, Here, BranchTree, Stands, GoodRun, GoodUnit, GoodCount, ShowTimes, ShowItem, ShowUnit,
        ShowRun, Proper, PlacedRun, RunDepth, Fails, Read;
    var x, rest := run.item, run.rest;
    ItemParts(pat, pos, x, rest);
    ProperUnit(x, rest, at);
    StandsBehind(pat, pos, x, at);
    StarGiven(pos, x, rest, at);
    HereFirst(pat, pos, "*");
    StarPiece(pat, pos, gid, depth);
    var t := PieceTree(Once(Ordinary('*')), gid);
    BreStep(pat, pos, gid, depth, acc, pos + 1, t);
    HereJoin(pat, pos + 1, ShowTimes(x.count), ShowRun(rest));
    ReadStarTail(pat, pos + 1, x.count, rest, gid, depth, Something(Then(acc, t.re)));
    FollowedTree(Once(Ordinary('*')), WithStar(x.count, Read(rest, Inside)), gid, acc);
  }

  lemma StarGiven(pos: nat, x: Item, rest: Run, at: Place)
    requires GoodRun(Next(x, rest)) && GoodUnit(x.unit) && GoodCount(x.count) && GoodRun(rest)
    requires x.unit == Bare('*') && PlacedRun(Next(x, rest), pos)
    ensures ShowUnit(x.unit) == "*" && |ShowItem(x)| == 1 + |ShowTimes(x.count)| && Behind(at, x) == Inside
    ensures PlacedRun(rest, pos + |ShowItem(x)|) && RunDepth(rest) <= RunDepth(Next(x, rest))
    ensures Fails(Next(x, rest)) <==> x.count.Bounded? || Fails(rest)
    ensures Read(Next(x, rest), at) == Followed(Once(Ordinary('*')), WithStar(x.count, Read(rest, Inside)))
  {
    hide ShowTimes, ShowRun;
  }

  lemma HereJoin(pat: CString, pos: nat, a: string, b: string)
    requires Here(pat, pos, a) && Here(pat, pos + |a|, b)
    ensures Here(pat, pos, a + b)
  {
    assert pat[pos..pos + |a + b|] == pat[pos..pos + |a|] + pat[pos + |a|..pos + |a| + |b|];
  }

  lemma StarPiece(pat: CString, pos: nat, gid: nat, depth: nat)
    requires pos < |pat| && pat[pos] == '*'
    ensures BrePiece(pat, pos, gid, depth) == Done(pos + 1, gid, Leaf(Chr('*' as int)))
    ensures !BreEnds(pat, pos)
  {
  }

  // The initial caret and a star behind it, which the code takes for one piece.
  lemma {:induction false} ReadCaretStar(pat: CString, pos: nat, run: Run, at: Place, gid: nat, depth: nat,
          acc: Partial)
    requires GoodRun(run) && Proper(run, at) && Here(pat, pos, ShowRun(run)) && depth + RunDepth(run) <= MAX_DEPTH
    requires PlacedRun(run, pos) && Stands(pat, pos, at) && BreEnds(pat, pos + |ShowRun(run)|)
    requires run.Next? && run.item.unit.Begin? && StartsWithStar(run.rest)
    ensures Bre(pat, pos, gid, depth, acc)
      == Outcome(Fails(run), pos + |ShowRun(run)|, BranchTree(Read(run, at), gid, acc))
    decreases run, 0
  {
    hide Bre, BrePiece, BreEnds, Here, BranchTree, Stands, GoodCount, ShowTimes, ShowRun, ShowItem, Read, Opening,
        Proper, GoodUnit, GoodRun, UnitFails, UnitDepth, RunDepth, PlacedRun, Fails;
    CaretStarGiven(pos, run, at);
    CaretStarText(run, at);
    CaretStarPlaces(pat, pos, run, at);
    var star, rest := run.rest.item, run.rest.rest;
    CaretPiece(pat, pos, gid, depth);
    var t := PieceTree(ZeroOrMore(Caret), gid);
    BreStep(pat, pos, gid, depth, acc, pos + 2, t);
    ReadStarTail(pat, pos + 2, star.count, rest, gid, depth, Something(Then(acc, t.re)));
    CaretStar(run, at);
    FollowedTree(ZeroOrMore(Caret), WithStar(star.count, Read(rest, Inside)), gid, acc);
  }

  lemma CaretStarPlaces(pat: CString, pos: nat, run: Run, at: Place)
    requires GoodRun(run) && Proper(run, at) && Here(pat, pos, ShowRun(run)) && Stands(pat, pos, at)
    requires run.Next? && run.item.unit.Begin? && StartsWithStar(run.rest)
    ensures pos + 2 <= |pat| && pat[pos] == '^' && pat[pos + 1] == '*' && Opening(pat, pos)
    ensures var star, rest := run.rest.item, run.rest.rest;
      && GoodCount(star.count) && GoodRun(rest) && Here(pat, pos + 2, ShowTimes(star.count) + ShowRun(rest))
      && pos + 2 + |ShowTimes(star.count)| <= |pat| && Stands(pat, pos + 2 + |ShowTimes(star.count)|, Inside)
  {
    hide Here, Stands, GoodCount, ShowTimes, ShowRun, ShowItem, Opening, Proper, GoodUnit, GoodRun;
    CaretStarText(run, at);
    var star, rest := run.rest.item, run.rest.rest;
    HereSplit(pat, pos, "^", ShowRun(run.rest));
    StandsBehind(pat, pos, run.item, at);
    HereSplit(pat, pos + 1, ShowItem(star), ShowRun(rest));
    StandsBehind(pat, pos + 1, star, BehindCaret);
    HereSplit(pat, pos, "^*", ShowTimes(star.count) + ShowRun(rest));
    HereTwo(pat, pos, "^*");
    StandsFirst(pat, pos, at);
  }

  lemma CaretStarText(run: Run, at: Place)
    requires GoodRun(run) && Proper(run, at)
    requires run.Next? && run.item.unit.Begin? && StartsWithStar(run.rest)
    ensures var star, rest := run.rest.item, run.rest.rest;
      && at.First? && GoodRun(rest) && Proper(rest, Inside) && GoodUnit(star.unit) && GoodCount(star.count)
      && GoodRun(run.rest) && GoodUnit(run.item.unit) && GoodCount(run.item.count)
      && ShowItem(run.item) == "^" && |ShowItem(star)| == 1 + |ShowTimes(star.count)|
      && ShowRun(run) == "^" + ShowRun(run.rest) && ShowRun(run.rest) == ShowItem(star) + ShowRun(rest)
      && ShowRun(run) == "^*" + (ShowTimes(star.count) + ShowRun(rest))
  {
    hide GoodRun, GoodUnit, GoodCount, Proper, ShowTimes, ShowRun;
    CaretStarParts(run, at);
    var star, rest := run.rest.item, run.rest.rest;
    NoText(Single);
    RunText(run.item, run.rest);
    RunText(star, rest);
    assert ShowItem(star) == "*" + ShowTimes(star.count);
  }

  lemma CaretStarParts(run: Run, at: Place)
    requires GoodRun(run) && Proper(run, at)
    requires run.Next? && run.item.unit.Begin? && StartsWithStar(run.rest)
    ensures var star, rest := run.rest.item, run.rest.rest;
      && at.First? && GoodRun(rest) && Proper(rest, Inside) && GoodUnit(star.unit) && GoodCount(star.count)
      && GoodRun(run.rest) && GoodUnit(run.item.unit) && GoodCount(run.item.count) && run.item.count.Single?
  {
    assert GoodRun(run.rest) && Proper(run.rest, BehindCaret);
  }

  lemma RunText(x: Item, rest: Run)
    requires GoodRun(Next(x, rest)) && GoodUnit(x.unit) && GoodCount(x.count) && GoodRun(rest)
    ensures ShowRun(Next(x, rest)) == ShowItem(x) + ShowRun(rest)
  {
  }

  lemma CaretStarGiven(pos: nat, run: Run, at: Place)
    requires GoodRun(run) && Proper(run, at) && PlacedRun(run, pos)
    requires run.Next? && run.item.unit.Begin? && StartsWithStar(run.rest)
    ensures var star, rest := run.rest.item, run.rest.rest;
      && GoodUnit(run.item.unit) && GoodCount(run.item.count) && GoodRun(run.rest)
      && GoodUnit(star.unit) && GoodCount(star.count) && GoodRun(rest)
      && PlacedRun(rest, pos + |ShowItem(run.item)| + |ShowItem(star)|) && RunDepth(rest) <= RunDepth(run)
      && (Fails(run) <==> star.count.Bounded? || Fails(rest))
  {
    hide ShowItem;
    assert GoodRun(run.rest) && PlacedRun(run.rest, pos + |ShowItem(run.item)|);
    assert Fails(run.rest) <==> run.rest.item.count.Bounded? || Fails(run.rest.rest);
  }

  lemma StandsFirst(pat: CString, pos: nat, at: Place)
    requires pos <= |pat| && at.First? && Stands(pat, pos, at)
    ensures Opening(pat, pos)
  {
  }

  lemma CaretPiece(pat: CString, pos: nat, gid: nat, depth: nat)
    requires pos < |pat| && pat[pos] == '^' && At(pat, pos + 1) == '*' && Opening(pat, pos)
    ensures BrePiece(pat, pos, gid, depth) == Done(pos + 2, gid, Star(Leaf(Bol)))
    ensures !BreEnds(pat, pos)
  {
    assert BreAtom(pat, pos, gid, depth) == Done(pos + 1, gid, Leaf(Bol));
  }

  // Behind an ordinary star: another one is ordinary too, a bound is refused.
  lemma {:induction false} ReadStarTail(pat: CString, pos: nat, n: Count, rest: Run, gid: nat, depth: nat, acc: Partial)
    requires GoodRun(rest) && Proper(rest, Inside) && GoodCount(n) && Here(pat, pos, ShowTimes(n) + ShowRun(rest))
    requires var mid := pos + |ShowTimes(n)|;
      && mid <= |pat| && PlacedRun(rest, mid) && Stands(pat, mid, Inside) && BreEnds(pat, mid + |ShowRun(rest)|)
    requires depth + RunDepth(rest) <= MAX_DEPTH
    ensures Bre(pat, pos, gid, depth, acc) == Outcome(n.Bounded? || Fails(rest),
      pos + |ShowTimes(n)| + |ShowRun(rest)|, BranchTree(WithStar(n, Read(rest, Inside)), gid, acc))
    decreases rest, 3
  {
    hide Bre, BrePiece, BreEnds, Here, BranchTree, Stands, ShowRun, PlacedRun, RunDepth, GoodRun, Proper, Fails, Read,
        ShowNumbers;
    HereSplit(pat, pos, ShowTimes(n), ShowRun(rest));
    match n
    case Single => ReadRun(pat, pos, rest, Inside, gid, depth, acc);
    case Starred =>
      HereFirst(pat, pos, "*");
      StarPiece(pat, pos, gid, depth);
      var t := PieceTree(Once(Ordinary('*')), gid);
      BreStep(pat, pos, gid, depth, acc, pos + 1, t);
      ReadRun(pat, pos + 1, rest, Inside, gid, depth, Something(Then(acc, t.re)));
      FollowedTree(Once(Ordinary('*')), Read(rest, Inside), gid, acc);
    case Bounded(min, max) =>
      HereTwo(pat, pos, ShowTimes(n));
      BoundRefused(pat, pos, gid, depth, acc);
  }

  lemma BoundRefused(pat: CString, pos: nat, gid: nat, depth: nat, acc: Partial)
    requires pos < |pat| && pat[pos] == '\\' && At(pat, pos + 1) == '{'
    ensures Bre(pat, pos, gid, depth, acc) == Fail(REG_BADRPT)
  {
    hide Bre;
    assert BreAtom(pat, pos, gid, depth) == Fail(REG_BADRPT);
    BreFails(pat, pos, gid, depth, acc);
  }

  // ---- whole expressions

  /** What regcomp says of a written-out basic expression of at most 256 nested groups: it refuses it,
      or reads all of it and builds the tree of what the code takes it for. */
  lemma BasicOutcome(run: Run)
    requires GoodRun(run) && Proper(run, First) && PlacedRun(run, 0) && RunDepth(run) <= MAX_DEPTH
    ensures Pattern(ShowRun(run), false)
      == Outcome(Fails(run), |ShowRun(run)|, BranchTree(Read(run, First), 0, Nothing))
  {
    hide Bre, ShowRun, BranchTree, Read, Fails, PlacedRun, GoodRun, Proper;
    var text := ShowRun(run);
    assert text[0..|text|] == text;
    ReadRun(text, 0, run, First, 0, 0, Nothing);
  }

  /** It builds the tree of what the expression stands for exactly when the expression is ReadRight. */
  lemma BasicReadsBack(run: Run)
    requires GoodRun(run) && Proper(run, First) && PlacedRun(run, 0) && RunDepth(run) <= MAX_DEPTH
    ensures var t := BranchTree(Intended(run), 0, Nothing);
      Pattern(ShowRun(run), false) == Done(|ShowRun(run)|, t.gid, t.re) <==> ReadRight(run, First)
  {
    hide ShowRun, BranchTree, Read, Intended, ReadRight, Fails, PlacedRun, GoodRun, Proper, Pattern;
    BasicOutcome(run);
    if Fails(run) {
      if ReadRight(run, First) {
        ReadRightSucceeds(run, First);
      }
    } else {
      SameTreeIff(run, 0);
    }
  }

  /** Then what regcomp compiles from its text matches exactly what the expression means. */
  lemma BasicMeaning(run: Run, s: Subject, i: nat, j: nat)
    requires GoodRun(run) && Proper(run, First) && PlacedRun(run, 0) && RunDepth(run) <= MAX_DEPTH
    requires ReadRight(run, First) && i <= |s.text|
    ensures Pattern(ShowRun(run), false).Done?
    ensures Matches(s, Pattern(ShowRun(run), false).re, i, j) <==> BranchMeans(s, Intended(run), i, j)
  {
    hide Matches, BranchMeans, BranchTree, Pattern, ShowRun, Read, Intended, ReadRight, GoodRun, Proper, RunDepth,
        PlacedRun, GoodBranch;
    BasicReadsBack(run);
    IntendedGood(run);
    BranchAlone(s, Intended(run), 0, i, j);
  }

  // ---- carets

  /** The run of the given items, and then the rest. */
  function Prepend(items: seq<Item>, rest: Run): Run {
    if items == [] then rest else Next(items[0], Prepend(items[1..], rest))
  }

  /** The place behind the given items. */
  function PlaceBehind(items: seq<Item>, at: Place): Place {
    if items == [] then at else PlaceBehind(items[1..], Behind(at, items[0]))
  }

  /** An ordinary parenthesis, directly behind an escaped backslash. */
  predicate EndsLikeGroup(items: seq<Item>) {
    |items| >= 2 && items[|items| - 2] == Item(Quoted('\\'), Single) && items[|items| - 1] == Item(Bare('('), Single)
  }

  lemma {:induction false} LikeGroup(items: seq<Item>, at: Place)
    ensures items != [] ==>
      (PlaceBehind(items, at).BehindParen? <==>
        EndsLikeGroup(items) || (|items| == 1 && at.BehindSlash? && items[0] == Item(Bare('('), Single)))
    ensures items != [] ==> !PlaceBehind(items, at).First?
    decreases |items|
  {
    if |items| > 1 {
      LikeGroup(items[1..], Behind(at, items[0]));
      if |items| == 2 {
        assert PlaceBehind(items, at) == Behind(Behind(at, items[0]), items[1]);
      }
    }
  }

  /** Wherever a bare caret stands, in the expression or in a group of it, the code takes it for an
      ordinary character, as it should, exactly when it is not directly behind an ordinary parenthesis
      that is directly behind an escaped backslash. */
  lemma CaretReading(pat: CString, pos: nat, items: seq<Item>, n: Count, rest: Run, gid: nat, depth: nat)
      returns (caret: nat)
    requires var run := Prepend(items, Next(Item(Bare('^'), n), rest));
      GoodRun(run) && Proper(run, First) && Here(pat, pos, ShowRun(run)) && Stands(pat, pos, First)
    ensures var run, rest' := Prepend(items, Next(Item(Bare('^'), n), rest)), Next(Item(Bare('^'), n), rest);
      GoodRun(rest') && caret == pos + |ShowRun(run)| - |ShowRun(rest')|
    ensures caret < |pat| && pat[caret] == '^'
    ensures BreAtom(pat, caret, gid, depth) == Done(caret + 1, gid, Leaf(Chr('^' as int))) <==> !EndsLikeGroup(items)
  {
    hide ShowRun, BreAtom, Here, Proper, GoodRun;
    var rest' := Next(Item(Bare('^'), n), rest);
    caret := PlaceReached(pat, pos, items, rest', First);
    LikeGroup(items, First);
    CaretAtom(pat, caret, n, rest, PlaceBehind(items, First), gid, depth);
  }

  // The text behind the given items, and the place there.
  lemma {:induction false} PlaceReached(pat: CString, pos: nat, items: seq<Item>, rest: Run, at: Place)
      returns (end: nat)
    requires var run := Prepend(items, rest);
      GoodRun(run) && Proper(run, at) && Here(pat, pos, ShowRun(run)) && Stands(pat, pos, at)
    ensures end <= |pat| && GoodRun(rest) && Proper(rest, PlaceBehind(items, at)) && Here(pat, end, ShowRun(rest))
    ensures end == pos + |ShowRun(Prepend(items, rest))| - |ShowRun(rest)|
    ensures Stands(pat, end, PlaceBehind(items, at))
    decreases |items|
  {
    hide Stands, ShowItem, Behind, Here, GoodUnit, GoodCount;
    if items == [] {
      end := pos;
    } else {
      var x := items[0];
      assert Prepend(items, rest) == Next(x, Prepend(items[1..], rest));
      HereSplit(pat, pos, ShowItem(x), ShowRun(Prepend(items[1..], rest)));
      StandsBehind(pat, pos, x, at);
      end := PlaceReached(pat, pos + |ShowItem(x)|, items[1..], rest, Behind(at, x));
    }
  }

  lemma CaretAtom(pat: CString, pos: nat, n: Count, rest: Run, at: Place, gid: nat, depth: nat)
    requires var run := Next(Item(Bare('^'), n), rest);
      GoodRun(run) && Proper(run, at) && Here(pat, pos, ShowRun(run)) && Stands(pat, pos, at)
    ensures pos < |pat| && pat[pos] == '^'
    ensures BreAtom(pat, pos, gid, depth) == Done(pos + 1, gid, Leaf(if at.BehindParen? then Bol else Chr('^' as int)))
  {
    hide ShowTimes, Here;
    var x := Item(Bare('^'), n);
    assert ShowItem(x) == "^" + ShowTimes(n);
    HereSplit(pat, pos, ShowItem(x), ShowRun(rest));
    HereSplit(pat, pos, "^", ShowTimes(n));
    HereFirst(pat, pos, "^");
  }

  // ---- inputs on which the code departs from the standard

  // A run of single characters and anchors, without groups or bracket expressions.
  predicate Flat(run: Run) {
    run.Next? ==> !run.item.unit.Sub? && !run.item.unit.Bracketed? && Flat(run.rest)
  }

  lemma {:induction false} FlatIsPlaced(run: Run, pos: nat)
    requires GoodRun(run) && Flat(run)
    ensures PlacedRun(run, pos) && RunDepth(run) == 0
    decreases run
  {
    hide ShowItem;
    if run.Next? {
      FlatIsPlaced(run.rest, pos + |ShowItem(run.item)|);
    }
  }

  /** `^*a`: the code lets the star repeat the anchor. */
  lemma StarBehindCaret()
    ensures var run := Next(Item(Begin, Single), Next(Item(Bare('*'), Single), Next(Item(Bare('a'), Single), Stop)));
      && GoodRun(run) && Proper(run, First) && ShowRun(run) == "^*a" && !ReadRight(run, First)
      && Pattern(ShowRun(run), false) == Done(3, 0, Concat(Star(Leaf(Bol)), Leaf(Chr('a' as int))))
  {
    hide Pattern, BranchTree, PlacedRun, RunDepth, Proper, Read, ReadRight, Fails;
    var a := Next(Item(Bare('a'), Single), Stop);
    var star := Next(Item(Bare('*'), Single), a);
    var run := Next(Item(Begin, Single), star);
    assert GoodRun(a) && ShowRun(a) == "a" && Flat(a);
    assert GoodRun(star) && ShowRun(star) == "*a" && Flat(star);
    assert GoodRun(run) && ShowRun(run) == "^*a";
    FlatIsPlaced(run, 0);
    StarBehindCaretRead(run);
    BasicOutcome(run);
    FollowedTree(ZeroOrMore(Caret), Followed(Once(Ordinary('a')), End), 0, Nothing);
    FollowedTree(Once(Ordinary('a')), End, 0, Something(Star(Leaf(Bol))));
    EndShape(0, Something(Concat(Star(Leaf(Bol)), Leaf(Chr('a' as int)))));
  }

  lemma StarBehindCaretRead(run: Run)
    requires run == Next(Item(Begin, Single), Next(Item(Bare('*'), Single), Next(Item(Bare('a'), Single), Stop)))
    ensures Proper(run, First) && !ReadRight(run, First) && !Fails(run)
    ensures Read(run, First) == Followed(ZeroOrMore(Caret), Followed(Once(Ordinary('a')), End))
  {
    var star, a := run.rest, run.rest.rest;
    assert Proper(a, Inside) && !Fails(a) && Read(a, Inside) == Followed(Once(Ordinary('a')), End);
    assert Proper(star, BehindCaret) && !ReadRight(star, BehindCaret) && !Fails(star);
    CaretStar(run, First);
  }

  /** `**`: the code takes the second star for an ordinary one too. */
  lemma StarBehindStar()
    ensures var run := Next(Item(Bare('*'), Starred), Stop);
      && GoodRun(run) && Proper(run, First) && ShowRun(run) == "**" && !ReadRight(run, First)
      && Pattern(ShowRun(run), false) == Done(2, 0, Concat(Leaf(Chr('*' as int)), Leaf(Chr('*' as int))))
  {
    hide Pattern, BranchTree, PlacedRun, RunDepth;
    var run := Next(Item(Bare('*'), Starred), Stop);
    assert GoodRun(Stop) && ShowRun(Stop) == "" && Proper(Stop, Inside) && !Fails(Stop);
    FlatIsPlaced(run, 0);
    BasicOutcome(run);
    var star := Once(Ordinary('*'));
    assert Read(run, First) == Followed(star, Followed(star, End));
    FollowedTree(star, Followed(star, End), 0, Nothing);
    FollowedTree(star, End, 0, Something(Leaf(Chr('*' as int))));
    StopShape(Inside, 0, Something(Concat(Leaf(Chr('*' as int)), Leaf(Chr('*' as int)))));
  }

  /** `*\{2\}`: the code finds nothing for the bound to repeat. */
  lemma BoundBehindStar()
    ensures var run := Next(Item(Bare('*'), Bounded(2, 2)), Stop);
      && GoodRun(run) && Proper(run, First) && ShowRun(run) == "*\\{2\\}" && !ReadRight(run, First)
      && Pattern(ShowRun(run), false) == Fail(REG_BADRPT)
  {
    hide Pattern, PlacedRun, RunDepth;
    var run := Next(Item(Bare('*'), Bounded(2, 2)), Stop);
    assert Numeral(2, 10, false) == "2";
    assert ShowTimes(Bounded(2, 2)) == "\\{2\\}";
    assert GoodRun(Stop) && ShowRun(Stop) == "" && Proper(Stop, Inside);
    FlatIsPlaced(run, 0);
    BasicOutcome(run);
  }

  /** `\\(^`: the code takes the caret for an anchor. */
  lemma CaretBehindBackslash()
    ensures var caret := Next(Item(Bare('^'), Single), Stop);
      var run := Next(Item(Quoted('\\'), Single), Next(Item(Bare('('), Single), caret));
      && GoodRun(run) && Proper(run, First) && ShowRun(run) == "\\\\(^" && !ReadRight(run, First)
      && Pattern(ShowRun(run), false)
        == Done(4, 0, Concat(Concat(Leaf(Chr('\\' as int)), Leaf(Chr('(' as int))), Leaf(Bol)))
  {
    hide Pattern, BranchTree, PlacedRun, RunDepth, Proper, Read, ReadRight, Fails;
    var caret := Next(Item(Bare('^'), Single), Stop);
    var paren := Next(Item(Bare('('), Single), caret);
    var run := Next(Item(Quoted('\\'), Single), paren);
    assert GoodRun(caret) && ShowRun(caret) == "^" && Flat(caret);
    assert GoodRun(paren) && ShowRun(paren) == "(^" && Flat(paren);
    assert GoodRun(run) && ShowRun(run) == "\\\\(^";
    FlatIsPlaced(run, 0);
    CaretBehindBackslashRead(run);
    BasicOutcome(run);
    var a, b := Leaf(Chr('\\' as int)), Leaf(Chr('(' as int));
    FollowedTree(Once(Ordinary('\\')), Followed(Once(Ordinary('(')), Followed(Once(Caret), End)), 0, Nothing);
    FollowedTree(Once(Ordinary('(')), Followed(Once(Caret), End), 0, Something(a));
    FollowedTree(Once(Caret), End, 0, Something(Concat(a, b)));
    EndShape(0, Something(Concat(Concat(a, b), Leaf(Bol))));
  }

  lemma EndShape(gid: nat, acc: Partial)
    ensures BranchTree(End, gid, acc) == Tree(Whole(acc), gid)
  {
  }

  lemma CaretBehindBackslashRead(run: Run)
    requires var caret := Next(Item(Bare('^'), Single), Stop);
      run == Next(Item(Quoted('\\'), Single), Next(Item(Bare('('), Single), caret))
    ensures Proper(run, First) && !ReadRight(run, First) && !Fails(run)
    ensures Read(run, First)
      == Followed(Once(Ordinary('\\')), Followed(Once(Ordinary('(')), Followed(Once(Caret), End)))
  {
    var paren, caret := run.rest, run.rest.rest;
    assert Proper(caret, BehindParen) && !ReadRight(caret, BehindParen) && !Fails(caret);
    assert Proper(paren, BehindSlash) && !ReadRight(paren, BehindSlash) && !Fails(paren);
    assert Read(caret, BehindParen) == Followed(Once(Caret), End);
    assert Read(paren, BehindSlash) == Followed(Once(Ordinary('(')), Read(caret, BehindParen));
  }
}
