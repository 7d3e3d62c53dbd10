/** What regcomp makes of a pattern, as functions from a pattern position to the tree of the
    expression found there: the grammar of the code, with its error codes. */
module RegexGrammar {
  import opened RegexSemantics
  import opened CStrings

  const REG_ECOLLATE := 3
  const REG_ECTYPE := 4
  const REG_EESCAPE := 5
  const REG_ESUBREG := 6
  const REG_EBRACK := 7
  const REG_EPAREN := 8
  const REG_BADBR := 10
  const REG_ESPACE := 12
  const REG_BADRPT := 13

  const MAX_DEPTH := 256
  const MAX_COUNT := 255
  const INT_MAX: int := 0x7FFF_FFFF

  /** Not an error code: a repeat count overflows an int, and what C does then is undefined. */
  const OVERFLOW := -1

  /** What reading an expression yields: an error, or where it ends, how many groups have been
      numbered by then, and its tree. */
  datatype Parse = Fail(err: int) | Done(pos: nat, gid: nat, re: Regex)

  datatype Scan = BadScan(err: int) | ScanTo(pos: nat)

  datatype Bounds = BadBounds(err: int) | Between(min: int, max: int, pos: nat)

  datatype Partial = Nothing | Something(re: Regex)

  // ---- bracket expressions

  /** Scans the members of a bracket expression up to its `]`; `last` is the previous single
      character, or -1 where no range may start. */
  function Members(pat: CString, pos: nat, last: int): (s: Scan)
    requires pos <= |pat|
    ensures s.ScanTo? ==> pos <= s.pos < |pat| && pat[s.pos] == ']'
    ensures s.BadScan? ==> s.err == REG_EBRACK || s.err == REG_ECTYPE || s.err == REG_ECOLLATE
    decreases |pat| - pos
  {
    if pos == |pat| then BadScan(REG_EBRACK)
    else if pat[pos] == ']' then ScanTo(pos)
    else if OpensClass(pat, pos) then
      var t := pat[pos + 1];
      var end := ClassEnd(pat, pos + 2, t);
      if end == |pat| then BadScan(REG_EBRACK)
      else if t == ':' && pat[pos + 2..end] !in CLASSES then BadScan(REG_ECTYPE)
      else if t != ':' && end == pos + 2 then BadScan(REG_ECOLLATE)
      else Members(pat, end + 2, -1)
    else if pat[pos] == '-' && At(pat, pos + 1) != NUL && At(pat, pos + 1) != ']' && last != -1 then
      Members(pat, pos + 2, -1)
    else Members(pat, pos + 1, SignedChar(pat[pos]))
  }

  function BracketAt(pat: CString, pos: nat, gid: nat): (p: Parse)
    requires pos < |pat|
    ensures p.Done? ==> gid <= p.gid
    ensures p.Done? ==> pos < p.pos <= |pat|
    ensures p.Fail? ==> p.err == REG_EBRACK || p.err == REG_ECTYPE || p.err == REG_ECOLLATE
  {
    var p1 := if At(pat, pos + 1) == '^' then pos + 2 else pos + 1;
    var p2 := if At(pat, p1) == ']' then p1 + 1 else p1;
    match Members(pat, p2, -1)
    case BadScan(e) => Fail(e)
    case ScanTo(end) => Done(end + 1, gid, Leaf(Bracket(pos, end)))
  }

  // ---- repetition counts

  /** The end of the digits that start at `pos`, and the number they spell after `acc`. */
  function Digits(pat: CString, pos: nat, acc: nat): (r: (nat, nat))
    requires pos <= |pat|
    ensures pos <= r.0 <= |pat|
    decreases |pat| - pos
  {
    if IsDigit(At(pat, pos)) then Digits(pat, pos + 1, acc * 10 + (pat[pos] as int - '0' as int))
    else (pos, acc)
  }

  /** Reading more digits never makes the number smaller. */
  lemma {:induction false} DigitsGrow(pat: CString, pos: nat, acc: nat)
    requires pos <= |pat|
    ensures Digits(pat, pos, acc).1 >= acc
    decreases |pat| - pos
  {
    if IsDigit(At(pat, pos)) {
      DigitsGrow(pat, pos + 1, acc * 10 + (pat[pos] as int - '0' as int));
    }
  }

  /** The text of a bound, from behind its opening brace to behind its closing one. */
  function BoundsAt(pat: CString, pos: nat, ere: bool): (b: Bounds)
    requires pos <= |pat|
    ensures b.Between? ==> pos < b.pos <= |pat| && 0 <= b.min && (b.max == -1 || b.min <= b.max)
    ensures b.BadBounds? ==> b.err == REG_BADBR || b.err == OVERFLOW
  {
    var (p1, min) := Digits(pat, pos, 0);
    if p1 == pos then BadBounds(REG_BADBR)
    else if min > INT_MAX || (At(pat, p1) == ',' && Digits(pat, p1 + 1, 0).1 > INT_MAX) then BadBounds(OVERFLOW)
    else
      var p2 := if At(pat, p1) == ',' then Digits(pat, p1 + 1, 0).0 else p1;
      var max := if At(pat, p1) != ',' then min else if p2 == p1 + 1 then -1 else Digits(pat, p1 + 1, 0).1;
      var p3 :=
        if ere then if At(pat, p2) == '}' then p2 + 1 else 0
        else if At(pat, p2) == '\\' && At(pat, p2 + 1) == '}' then p2 + 2 else 0;
      if p3 == 0 || min > MAX_COUNT || max > MAX_COUNT || (max != -1 && min > max) then BadBounds(REG_BADBR)
      else Between(min, max, p3)
  }

  /** `r` appended to what has been read so far. */
  function Then(acc: Partial, r: Regex): Regex {
    if acc.Nothing? then r else Concat(acc.re, r)
  }

  function OrElse(acc: Partial, r: Regex): Regex {
    if acc.Nothing? then r else Alt(acc.re, r)
  }

  function Whole(acc: Partial): Regex {
    if acc.Nothing? then Empty else acc.re
  }

  /** `n` copies of `r` appended to `acc`. */
  function Copies(acc: Partial, r: Regex, n: nat): Partial {
    if n == 0 then acc else Something(Then(Copies(acc, r, n - 1), r))
  }

  /** The tree of `r{min,max}`, where max -1 is no limit. */
  function BoundsTree(r: Regex, min: nat, max: int): Regex
    requires max == -1 || min <= max
  {
    var front := Copies(Nothing, r, min);
    if max == -1 then Then(front, Star(r)) else Whole(Copies(front, Alt(r, Empty), max - min))
  }

  // ---- basic expressions

  function BreAtom(pat: CString, pos: nat, gid: nat, depth: nat): (p: Parse)
    requires pos < |pat|
    ensures p.Done? ==> gid <= p.gid
    ensures p.Done? ==> pos < p.pos <= |pat|
    decreases |pat| - pos, 0
  {
    var x := pat[pos];
    if x == '^' then
      var anchor := pos == 0 || (pos >= 2 && pat[pos - 1] == '(' && pat[pos - 2] == '\\');
      Done(pos + 1, gid, Leaf(if anchor then Bol else Chr(x as int)))
    else if x == '$' then
      var anchor := At(pat, pos + 1) == NUL || (At(pat, pos + 1) == '\\' && At(pat, pos + 2) == ')');
      Done(pos + 1, gid, Leaf(if anchor then Eol else Chr(x as int)))
    else if x == '.' then Done(pos + 1, gid, Leaf(Any))
    else if x == '[' then BracketAt(pat, pos, gid)
    else if x == '\\' then
      var nx := At(pat, pos + 1);
      if nx == NUL then Fail(REG_EESCAPE)
      else if nx == '(' then
        if depth >= MAX_DEPTH then Fail(REG_ESPACE) else
        match Bre(pat, pos + 2, gid + 1, depth + 1, Nothing)
        case Fail(e) => Fail(e)
        case Done(end, gid', inner) =>
          if At(pat, end) != '\\' || At(pat, end + 1) != ')' then Fail(REG_EPAREN)
          else Done(end + 2, gid', Group(gid + 1, Concat(inner, Leaf(GroupEnd(gid + 1)))))
      else if nx == '{' then Fail(REG_BADRPT)
      else if '1' <= nx <= '9' then
        if nx as int - '0' as int > gid then Fail(REG_ESUBREG)
        else Done(pos + 2, gid, Leaf(Backref(nx as int - '0' as int)))
      else Done(pos + 2, gid, Leaf(Chr(nx as int)))
    else Done(pos + 1, gid, Leaf(Chr(x as int)))
  }

  function BrePiece(pat: CString, pos: nat, gid: nat, depth: nat): (p: Parse)
    requires pos < |pat|
    ensures p.Done? ==> gid <= p.gid
    ensures p.Done? ==> pos < p.pos <= |pat|
    decreases |pat| - pos, 1
  {
    if pat[pos] == '*' then Done(pos + 1, gid, Leaf(Chr('*' as int)))
    else
      match BreAtom(pat, pos, gid, depth)
      case Fail(e) => Fail(e)
      case Done(end, gid', r) =>
        if At(pat, end) == '*' then Done(end + 1, gid', Star(r))
        else if At(pat, end) == '\\' && At(pat, end + 1) == '{' then
          match BoundsAt(pat, end + 2, false)
          case BadBounds(e) => Fail(e)
          case Between(min, max, end') => Done(end', gid', BoundsTree(r, min, max))
        else Done(end, gid', r)
  }

  predicate BreEnds(pat: CString, pos: nat)
    requires pos <= |pat|
  {
    At(pat, pos) == NUL || (At(pat, pos) == '\\' && At(pat, pos + 1) == ')')
  }

  function Bre(pat: CString, pos: nat, gid: nat, depth: nat, acc: Partial): (p: Parse)
    requires pos <= |pat|
    ensures p.Done? ==> gid <= p.gid
    ensures p.Done? ==> pos <= p.pos <= |pat| && BreEnds(pat, p.pos)
    decreases |pat| - pos, 2
  {
    if BreEnds(pat, pos) then Done(pos, gid, Whole(acc))
    else
      match BrePiece(pat, pos, gid, depth)
      case Fail(e) => Fail(e)
      case Done(end, gid', r) => Bre(pat, end, gid', depth, Something(Then(acc, r)))
  }

  // ---- extended expressions

  function EreAtom(pat: CString, pos: nat, gid: nat, depth: nat): (p: Parse)
    requires pos < |pat|
    ensures p.Done? ==> gid <= p.gid
    ensures p.Done? ==> pos < p.pos <= |pat|
    decreases |pat| - pos, 0
  {
    var x := pat[pos];
    if x == '*' || x == '+' || x == '?' || x == '{' then Fail(REG_BADRPT)
    else if x == '^' then Done(pos + 1, gid, Leaf(Bol))
    else if x == '$' then Done(pos + 1, gid, Leaf(Eol))
    else if x == '.' then Done(pos + 1, gid, Leaf(Any))
    else if x == '[' then BracketAt(pat, pos, gid)
    else if x == '(' then
      if depth >= MAX_DEPTH then Fail(REG_ESPACE) else
      match Ere(pat, pos + 1, gid + 1, depth + 1, Nothing)
      case Fail(e) => Fail(e)
      case Done(end, gid', inner) =>
        if At(pat, end) != ')' then Fail(REG_EPAREN)
        else Done(end + 1, gid', Group(gid + 1, Concat(inner, Leaf(GroupEnd(gid + 1)))))
    else if x == '\\' then
      if At(pat, pos + 1) == NUL then Fail(REG_EESCAPE)
      else Done(pos + 2, gid, Leaf(Chr(pat[pos + 1] as int)))
    else Done(pos + 1, gid, Leaf(Chr(x as int)))
  }

  function ErePiece(pat: CString, pos: nat, gid: nat, depth: nat): (p: Parse)
    requires pos < |pat|
    ensures p.Done? ==> gid <= p.gid
    ensures p.Done? ==> pos < p.pos <= |pat|
    decreases |pat| - pos, 1
  {
    match EreAtom(pat, pos, gid, depth)
    case Fail(e) => Fail(e)
    case Done(end, gid', r) =>
      var x := At(pat, end);
      if x == '*' then Done(end + 1, gid', Star(r))
      else if x == '+' then Done(end + 1, gid', Concat(r, Star(r)))
      else if x == '?' then Done(end + 1, gid', Alt(r, Empty))
      else if x == '{' then
        match BoundsAt(pat, end + 1, true)
        case BadBounds(e) => Fail(e)
        case Between(min, max, end') => Done(end', gid', BoundsTree(r, min, max))
      else Done(end, gid', r)
  }

  predicate BranchEnds(pat: CString, pos: nat)
    requires pos <= |pat|
  {
    At(pat, pos) == NUL || At(pat, pos) == '|' || At(pat, pos) == ')'
  }

  function EreBranch(pat: CString, pos: nat, gid: nat, depth: nat, acc: Partial): (p: Parse)
    requires pos <= |pat|
    ensures p.Done? ==> gid <= p.gid
    ensures p.Done? ==> pos <= p.pos <= |pat| && BranchEnds(pat, p.pos)
    decreases |pat| - pos, 2
  {
    if BranchEnds(pat, pos) then Done(pos, gid, Whole(acc))
    else
      match ErePiece(pat, pos, gid, depth)
      case Fail(e) => Fail(e)
      case Done(end, gid', r) => EreBranch(pat, end, gid', depth, Something(Then(acc, r)))
  }

  predicate EreEnds(pat: CString, pos: nat)
    requires pos <= |pat|
  {
    At(pat, pos) == NUL || At(pat, pos) == ')'
  }

  function Ere(pat: CString, pos: nat, gid: nat, depth: nat, acc: Partial): (p: Parse)
    requires pos <= |pat|
    ensures p.Done? ==> gid <= p.gid
    ensures p.Done? ==> pos <= p.pos <= |pat| && EreEnds(pat, p.pos)
    decreases |pat| - pos, 3
  {
    if EreEnds(pat, pos) then Done(pos, gid, Whole(acc))
    else
      match EreBranch(pat, pos, gid, depth, Nothing)
      case Fail(e) => Fail(e)
      case Done(end, gid', r) =>
        Ere(pat, if At(pat, end) == '|' then end + 1 else end, gid', depth, Something(OrElse(acc, r)))
  }

  /** The whole pattern: everything must have been read. */
  function Pattern(pat: CString, ere: bool): Parse {
    match if ere then Ere(pat, 0, 0, 0, Nothing) else Bre(pat, 0, 0, 0, Nothing)
    case Fail(e) => Fail(e)
    case Done(end, gid, r) => if end < |pat| then Fail(REG_EPAREN) else Done(end, gid, r)
  }
}
