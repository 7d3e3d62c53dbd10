/** Bracket expressions of fnmatch as section 9.3.5 of POSIX.1-2017 Base Definitions describes them, in the
    C locale: lists of elements, written out and read back. */
module FnmatchBrackets {
  import opened CStrings
  import opened Fnmatch

  /** A character, one written as a collating symbol or equivalence class, a range, or a class. The ends of a
      range are characters, or collating symbols where `first` and `last` say so. */
  datatype Element =
    | Char(c: char)
    | Symbol(c: char, mark: char)
    | Range(lo: char, hi: char, first: bool, last: bool)
    | Class(name: string)

  // ---- what a list admits

  predicate Has(x: Element, c: char) {
    match x
    case Char(d) => c == d
    case Symbol(d, _) => c == d
    case Range(lo, hi, _, _) => lo <= c <= hi
    case Class(name) => InClass(name, c)
  }

  predicate Admits(l: seq<Element>, c: char) {
    l != [] && (Has(l[0], c) || Admits(l[1..], c))
  }

  /** The class each name stands for. */
  lemma ClassNamed(c: char)
    ensures InClass("alnum", c) == IsAlnum(c) && InClass("alpha", c) == IsAlpha(c) && InClass("blank", c) == IsBlank(c)
    ensures InClass("cntrl", c) == IsCntrl(c) && InClass("digit", c) == IsDigit(c) && InClass("graph", c) == IsGraph(c)
    ensures InClass("lower", c) == IsLower(c) && InClass("print", c) == IsPrint(c) && InClass("punct", c) == IsPunct(c)
    ensures InClass("space", c) == IsSpace(c) && InClass("upper", c) == IsUpper(c)
    ensures InClass("xdigit", c) == IsXdigit(c)
  {
    hide IsAlnum, IsAlpha, IsBlank, IsCntrl, IsDigit, IsGraph, IsLower, IsPrint, IsPunct, IsSpace, IsUpper, IsXdigit;
  }

  // ---- writing them

  predicate GoodElement(x: Element) {
    match x
    case Char(c) => NUL < c < 256 as char
    case Symbol(c, mark) => NUL < c < 256 as char && (mark == '.' || mark == '=')
    case Range(lo, hi, first, last) =>
      && NUL < lo < hi < 256 as char
      && (!last ==> hi != ']') && (first && !last ==> hi != '-') && (!first && last ==> hi != '-' && hi != '[')
    case Class(name) => name in CLASSES
  }

  function ShowElement(x: Element): (t: CString)
    requires GoodElement(x)
    ensures t != ""
  {
    match x
    case Char(c) => [c]
    case Symbol(c, mark) => ['[', mark, c, mark, ']']
    case Range(lo, hi, first, last) => ShowEnd(lo, first) + ("-" + ShowEnd(hi, last))
    case Class(name) => NameText(name); "[:" + name + ":]"
  }

  // One end of a range.
  function ShowEnd(c: char, symbol: bool): (t: CString)
    requires NUL < c < 256 as char
    ensures |t| == if symbol then 5 else 1
  {
    if symbol then ['[', '.', c, '.', ']'] else [c]
  }

  lemma NameText(name: string)
    requires name in CLASSES
    ensures forall k | 0 <= k < |name| :: 'a' <= name[k] <= 'z'
  {
  }

  predicate GoodElements(l: seq<Element>) {
    l != [] ==> GoodElement(l[0]) && GoodElements(l[1..])
  }

  function Show(l: seq<Element>): (t: CString)
    requires GoodElements(l)
  {
    if l == [] then "" else ShowElement(l[0]) + Show(l[1..])
  }

  // What a `[` would open a symbol or a class with.
  predicate Mark(c: char) {
    c == '.' || c == ':' || c == '='
  }

  // An element whose last character may not have a mark behind it.
  predicate EndsOpen(x: Element) {
    x == Char('[') || (x.Range? && x.hi == '[' && !x.last)
  }

  // A range that starts with a bare `-` or `]`.
  predicate StartsOddly(x: Element) {
    x.Range? && !x.first && (x.lo == ']' || x.lo == '-')
  }

  /** Behind the first element a `]` and a starting `-` have to be written as symbols, a single `-` has to be
      last, and no `[` may have a mark behind it. */
  predicate Proper(l: seq<Element>)
    requires GoodElements(l)
    decreases |l|, 1
  {
    l != [] ==>
      && l[0] != Char(']') && !StartsOddly(l[0])
      && (l[0] == Char('-') ==> |l| == 1)
      && ProperBehind(l)
  }

  predicate ProperBehind(l: seq<Element>)
    requires GoodElements(l) && l != []
    decreases |l|, 0
  {
    && var rest := l[1..];
    assert rest != [] ==> GoodElements(rest) && GoodElement(rest[0]);
    && (EndsOpen(l[0]) && rest != [] ==> !Mark(ShowElement(rest[0])[0]))
    && Proper(rest)
  }

  /** The list of a bracket expression: a first `]` or `-` is written as it is, be it alone or as the start of a
      range; `!` and `^` come first only behind another one, that negates. */
  predicate ProperList(l: seq<Element>, negated: bool) {
    && GoodElements(l) && l != [] && ProperBehind(l)
    && (!negated ==> ShowElement(l[0])[0] != '!' && ShowElement(l[0])[0] != '^')
  }

  function ShowBracket(l: seq<Element>, negated: bool): (t: CString)
    requires ProperList(l, negated)
  {
    (if negated then "[!" else "[") + (Show(l) + "]")
  }

  // ---- reading them back

  // The end of the name of a class.
  lemma {:induction false} NameEnd(pat: CString, p: nat, k: nat, name: string)
    requires Here(pat, p, name + ":]") && k <= |name| && forall i | 0 <= i < |name| :: name[i] != ':'
    ensures ClassEnd(pat, p + k, ':') == p + |name|
    decreases |name| - k
  {
    hide Here;
    var t := name + ":]";
    HereChar(pat, p, t, k);
    if k < |name| {
      NameEnd(pat, p, k + 1, name);
    } else {
      HereChar(pat, p, t, k + 1);
    }
  }

  // One round of each of the two loops.
  lemma OneMember(pat: CString, p: nat, close: nat, c: char)
    requires p < close < |pat| && pat[close] == ']'
    ensures pat[p] != ']' ==> CloseFrom(pat, p) == CloseFrom(pat, NextMember(pat, p))
    ensures var m := MemberAt(pat, p, close, c);
      InMembers(pat, p, close, c) <==> m.has || InMembers(pat, m.next, close, c)
  {
    hide NextMember, MemberAt;
  }

  /** What the code takes an element for, as the first of a list or behind that: of a range that starts with a
      symbol, or first of all with `-` or `]`, only the two ends and a `-`; a range that ends with a symbol goes up
      to the `[` of that symbol, whose other characters are members. */
  predicate HasRead(x: Element, leading: bool, c: char) {
    if x.Range? && (x.first || (leading && StartsOddly(x))) then c == x.lo || c == '-' || c == x.hi
    else if x.Range? && x.last then x.lo <= c <= '[' || c == '.' || c == x.hi || c == ']'
    else Has(x, c)
  }

  /** The element at p is read as that, up to the next one. */
  ghost predicate ReadAs(pat: CString, p: nat, close: nat, x: Element, c: char)
    requires GoodElement(x) && p + |ShowElement(x)| <= |pat| && close <= |pat|
  {
    MemberRun(pat, p, p + |ShowElement(x)|, close, HasRead(x, false, c), c)
  }

  /** From p to q both loops go member by member, and the members there have c or have not. */
  ghost predicate MemberRun(pat: CString, p: nat, q: nat, close: nat, has: bool, c: char)
    requires p <= q <= |pat| && close <= |pat|
  {
    && CloseFrom(pat, p) == CloseFrom(pat, q)
    && (InMembers(pat, p, close, c) <==> has || InMembers(pat, q, close, c))
  }

  lemma RunJoin(pat: CString, p: nat, q: nat, r: nat, close: nat, u: bool, v: bool, c: char)
    requires p <= q <= r <= |pat| && close <= |pat|
    requires MemberRun(pat, p, q, close, u, c) && MemberRun(pat, q, r, close, v, c)
    ensures MemberRun(pat, p, r, close, u || v, c)
  {
  }

  lemma ElementRead(pat: CString, p: nat, close: nat, x: Element, c: char)
    requires GoodElement(x) && x != Char(']') && !StartsOddly(x) && Here(pat, p, ShowElement(x))
    requires var q := p + |ShowElement(x)|;
      && q <= close < |pat| && pat[close] == ']'
      && (EndsOpen(x) ==> !Mark(pat[q])) && (x.Char? || x.Range? ==> pat[q] != '-' || q + 1 >= close)
    ensures ReadAs(pat, p, close, x, c)
  {
    hide Here, MemberRun;
    var t := ShowElement(x);
    HereChar(pat, p, t, 0);
    match x
    case Char(_) => CharRead(pat, p, close, c);
    case Symbol(_, _) => SymbolRead(pat, p, close, x, c);
    case Class(name) => ClassRead(pat, p, close, name, c);
    case Range(lo, hi, first, last) =>
      if first {
        FromSymbol(pat, p, close, x, c);
      } else if last {
        ToSymbol(pat, p, close, x, c);
      } else {
        RangeRead(pat, p, close, x, c);
      }
  }

  // A character that neither opens a class nor starts a range.
  lemma CharRead(pat: CString, p: nat, close: nat, c: char)
    requires p < close < |pat| && pat[close] == ']' && pat[p] != ']' && !OpensClass(pat, p)
    requires pat[p + 1] != '-' || p + 2 >= close
    ensures MemberRun(pat, p, p + 1, close, c == pat[p], c)
  {
    hide CloseFrom, InMembers;
    OneMember(pat, p, close, c);
  }

  lemma SymbolRead(pat: CString, p: nat, close: nat, x: Element, c: char)
    requires x.Symbol? && GoodElement(x) && Here(pat, p, ShowElement(x))
    requires p + 5 <= close < |pat| && pat[close] == ']'
    ensures MemberRun(pat, p, p + 5, close, c == x.c, c)
  {
    hide Here, CloseFrom, InMembers, ClassEnd;
    SymbolEnd(pat, p, x);
    OneMember(pat, p, close, c);
  }

  lemma ClassRead(pat: CString, p: nat, close: nat, name: string, c: char)
    requires name in CLASSES && Here(pat, p, "[:" + name + ":]")
    requires p + |name| + 4 <= close < |pat| && pat[close] == ']'
    ensures MemberRun(pat, p, p + |name| + 4, close, InClass(name, c), c)
  {
    hide Here, CloseFrom, InMembers, ClassEnd, InClass;
    ClassNameEnd(pat, p, name);
    OneMember(pat, p, close, c);
  }

  lemma RangeRead(pat: CString, p: nat, close: nat, x: Element, c: char)
    requires x.Range? && !x.first && !x.last && GoodElement(x) && x.lo != ']' && Here(pat, p, ShowElement(x))
    requires p + 3 <= close < |pat| && pat[close] == ']' && (x.hi == '[' ==> !Mark(pat[p + 3]))
    ensures MemberRun(pat, p, p + 3, close, x.lo <= c <= x.hi, c)
  {
    hide Here, CloseFrom, InMembers;
    var t := ShowElement(x);
    HereChar(pat, p, t, 0);
    HereChar(pat, p, t, 1);
    HereChar(pat, p, t, 2);
    OneMember(pat, p, close, c);
    OneMember(pat, p + 1, close, c);
    OneMember(pat, p + 2, close, c);
  }

  // The `-` of a range whose start has been read, and its end.
  lemma DashRead(pat: CString, p: nat, close: nat, x: Element, c: char)
    requires x.Range? && GoodElement(x) && (!x.last ==> x.hi != '-')
    requires Here(pat, p, "-" + ShowEnd(x.hi, x.last))
    requires var q := p + 1 + |ShowEnd(x.hi, x.last)|;
      && q <= close < |pat| && pat[close] == ']' && (EndsOpen(x) ==> !Mark(pat[q]))
      && (pat[q] != '-' || q + 1 >= close)
    ensures MemberRun(pat, p, p + 1 + |ShowEnd(x.hi, x.last)|, close, c == '-' || c == x.hi, c)
  {
    hide Here, MemberRun;
    var end := ShowEnd(x.hi, x.last);
    var q := p + 1 + |end|;
    HereSplit(pat, p, "-", end);
    HereFirst(pat, p, "-");
    HereFirst(pat, p + 1, end);
    CharRead(pat, p, close, c);
    if x.last {
      SymbolRead(pat, p + 1, close, Symbol(x.hi, '.'), c);
    } else {
      CharRead(pat, p + 1, close, c);
    }
    RunJoin(pat, p, p + 1, q, close, c == '-', c == x.hi, c);
  }

  // A range that starts with a symbol.
  lemma FromSymbol(pat: CString, p: nat, close: nat, x: Element, c: char)
    requires x.Range? && x.first && GoodElement(x) && Here(pat, p, ShowElement(x))
    requires var q := p + |ShowElement(x)|;
      && q <= close < |pat| && pat[close] == ']' && (EndsOpen(x) ==> !Mark(pat[q]))
      && (pat[q] != '-' || q + 1 >= close)
    ensures MemberRun(pat, p, p + |ShowElement(x)|, close, c == x.lo || c == '-' || c == x.hi, c)
  {
    hide Here, MemberRun;
    var start, rest := ShowEnd(x.lo, true), "-" + ShowEnd(x.hi, x.last);
    HereSplit(pat, p, start, rest);
    SymbolRead(pat, p, close, Symbol(x.lo, '.'), c);
    DashRead(pat, p + 5, close, x, c);
    RunJoin(pat, p, p + 5, p + |ShowElement(x)|, close, c == x.lo, c == '-' || c == x.hi, c);
  }

  // A range that ends with a symbol.
  lemma ToSymbol(pat: CString, p: nat, close: nat, x: Element, c: char)
    requires x.Range? && !x.first && x.last && GoodElement(x) && x.lo != ']' && Here(pat, p, ShowElement(x))
    requires p + 7 <= close < |pat| && pat[close] == ']' && (pat[p + 7] != '-' || p + 8 >= close)
    ensures MemberRun(pat, p, p + 7, close, x.lo <= c <= '[' || c == '.' || c == x.hi || c == ']', c)
  {
    hide Here, CloseFrom, InMembers, ClassEnd, OpensClass, ShowElement;
    var symbol := Symbol(x.hi, '.');
    ToSymbolText(x);
    HereSplit(pat, p, [x.lo], "-" + ShowElement(symbol));
    HereSplit(pat, p + 1, "-", ShowElement(symbol));
    HereFirst(pat, p, [x.lo]);
    HereFirst(pat, p + 1, "-");
    InsideSymbol(pat, p + 2, close, x.hi, c);
    SymbolEnd(pat, p + 2, symbol);
    UpToSymbol(pat, p, close, c);
  }

  lemma ToSymbolText(x: Element)
    requires x.Range? && !x.first && x.last && GoodElement(x)
    ensures ShowElement(Symbol(x.hi, '.')) == ['[', '.', x.hi, '.', ']']
    ensures ShowElement(x) == [x.lo] + ("-" + ShowElement(Symbol(x.hi, '.')))
  {
  }

  // A range that is read up to the `[` of a symbol.
  lemma UpToSymbol(pat: CString, p: nat, close: nat, c: char)
    requires p + 7 <= close < |pat| && pat[close] == ']' && pat[p] != ']' && pat[p + 1] == '-' && pat[p + 2] == '['
    requires OpensClass(pat, p + 2) && ClassEnd(pat, p + 4, pat[p + 3]) == p + 5
    ensures CloseFrom(pat, p) == CloseFrom(pat, p + 7)
    ensures InMembers(pat, p, close, c) <==> pat[p] <= c <= '[' || InMembers(pat, p + 3, close, c)
  {
    hide CloseFrom, InMembers, ClassEnd;
    OneMember(pat, p, close, c);
    OneMember(pat, p + 1, close, c);
    OneMember(pat, p + 2, close, c);
  }

  // The characters of a symbol behind its `[`.
  lemma InsideSymbol(pat: CString, p: nat, close: nat, d: char, c: char)
    requires Here(pat, p, ['[', '.', d, '.', ']']) && d != '-' && d != '['
    requires p + 5 <= close < |pat| && pat[close] == ']' && (pat[p + 5] != '-' || p + 6 >= close)
    ensures pat[p] == '['
    ensures InMembers(pat, p + 1, close, c) <==> c == '.' || c == d || c == ']' || InMembers(pat, p + 5, close, c)
  {
    hide Here, CloseFrom, InMembers, ClassEnd;
    var t := ['[', '.', d, '.', ']'];
    HereChar(pat, p, t, 0);
    HereChar(pat, p, t, 1);
    HereChar(pat, p, t, 2);
    HereChar(pat, p, t, 3);
    HereChar(pat, p, t, 4);
    OneMember(pat, p + 1, close, c);
    OneMember(pat, p + 2, close, c);
    OneMember(pat, p + 3, close, c);
    OneMember(pat, p + 4, close, c);
  }

  lemma SymbolEnd(pat: CString, p: nat, x: Element)
    requires x.Symbol? && GoodElement(x) && Here(pat, p, ShowElement(x))
    ensures OpensClass(pat, p) && pat[p + 1] == x.mark && pat[p + 2] == x.c
    ensures ClassEnd(pat, p + 2, pat[p + 1]) == p + 3
  {
    hide Here;
    var t := ShowElement(x);
    HereChar(pat, p, t, 0);
    HereChar(pat, p, t, 1);
    HereChar(pat, p, t, 2);
    HereChar(pat, p, t, 3);
    HereChar(pat, p, t, 4);
    assert ClassEnd(pat, p + 3, x.mark) == p + 3;
  }

  lemma ClassNameEnd(pat: CString, p: nat, name: string)
    requires name in CLASSES && Here(pat, p, "[:" + name + ":]")
    ensures OpensClass(pat, p) && pat[p + 1] == ':'
    ensures var e := p + 2 + |name|; ClassEnd(pat, p + 2, pat[p + 1]) == e && e + 2 <= |pat| && pat[p + 2..e] == name
  {
    NameText(name);
    var t := "[:" + name + ":]";
    HereChar(pat, p, t, 0);
    HereChar(pat, p, t, 1);
    assert t == "[:" + (name + ":]");
    HereSplit(pat, p, "[:", name + ":]");
    NameEnd(pat, p + 2, 0, name);
    HereSplit(pat, p + 2, name, ":]");
  }

  /** What the code takes the elements behind the first for. */
  predicate RestRead(l: seq<Element>, c: char) {
    l != [] && (HasRead(l[0], false, c) || RestRead(l[1..], c))
  }

  lemma {:induction false} ListRead(pat: CString, p: nat, close: nat, l: seq<Element>, c: char)
    requires GoodElements(l) && Proper(l) && Here(pat, p, Show(l))
    requires p + |Show(l)| == close < |pat| && pat[close] == ']'
    ensures CloseFrom(pat, p) == close && (InMembers(pat, p, close, c) <==> RestRead(l, c))
    decreases |l|
  {
    hide Here, ShowElement, GoodElement, HasRead, InMembers;
    if l == [] {
      NoMembers(pat, close, c);
    } else {
      var x, q := l[0], p + |ShowElement(l[0])|;
      HereSplit(pat, p, ShowElement(x), Show(l[1..]));
      ListRead(pat, q, close, l[1..], c);
      NextFirst(pat, q, close, l[1..]);
      ElementRead(pat, p, close, x, c);
    }
  }

  lemma NoMembers(pat: CString, close: nat, c: char)
    requires close < |pat| && pat[close] == ']'
    ensures CloseFrom(pat, close) == close && !InMembers(pat, close, close, c)
  {
  }

  // The first character of what is left of a list.
  lemma NextFirst(pat: CString, q: nat, close: nat, l: seq<Element>)
    requires GoodElements(l) && Proper(l) && Here(pat, q, Show(l))
    requires q + |Show(l)| == close < |pat| && pat[close] == ']'
    ensures pat[q] != '-' || q + 1 >= close
    ensures l != [] ==> pat[q] == ShowElement(l[0])[0]
  {
    hide Here;
    if l != [] {
      HereSplit(pat, q, ShowElement(l[0]), Show(l[1..]));
      HereFirst(pat, q, ShowElement(l[0]));
      if l[0] == Char('-') {
        assert Show(l[1..]) == "";
      }
    }
  }

  /** What the code takes the whole list for. */
  predicate ReadList(l: seq<Element>, c: char) {
    l != [] && (HasRead(l[0], true, c) || RestRead(l[1..], c))
  }

  // What the list at `first` comes to for one character.
  ghost predicate ReadFrom(pat: CString, first: nat, close: nat, l: seq<Element>, c: char)
    requires first <= close < |pat|
  {
    CloseFrom(pat, AfterFirst(pat, first)) == close && (InBracket(pat, first, close, c) <==> ReadList(l, c))
  }

  // A first `-` or `]` is skipped, whatever it starts.
  lemma SkippedFirst(pat: CString, first: nat, close: nat, l: seq<Element>, c: char)
    requires GoodElements(l) && l != [] && ProperBehind(l) && Here(pat, first, Show(l))
    requires first + |Show(l)| == close < |pat| && pat[close] == ']'
    requires l[0] == Char('-') || l[0] == Char(']')
    ensures ReadFrom(pat, first, close, l, c)
  {
    hide Here, InMembers, CloseFrom, RestRead, Proper;
    assert ShowElement(l[0]) == [l[0].c] && GoodElements(l[1..]) && Proper(l[1..]);
    HereSplit(pat, first, ShowElement(l[0]), Show(l[1..]));
    HereFirst(pat, first, ShowElement(l[0]));
    ListRead(pat, first + 1, close, l[1..], c);
  }

  lemma SkippedRange(pat: CString, first: nat, close: nat, l: seq<Element>, c: char)
    requires GoodElements(l) && l != [] && StartsOddly(l[0]) && ProperBehind(l) && Here(pat, first, Show(l))
    requires first + |Show(l)| == close < |pat| && pat[close] == ']'
    ensures ReadFrom(pat, first, close, l, c)
  {
    hide Here, InMembers, CloseFrom, RestRead, Proper, ShowEnd, ReadFrom, MemberRun, HasRead, Show, ShowElement,
        GoodElements, ProperBehind, EndsOpen;
    ListParts(l);
    var x, q := l[0], first + |ShowElement(l[0])|;
    var rest := "-" + ShowEnd(x.hi, x.last);
    OddStart(x);
    HereSplit(pat, first, ShowElement(x), Show(l[1..]));
    HereSplit(pat, first, [x.lo], rest);
    HereFirst(pat, first, [x.lo]);
    ListRead(pat, q, close, l[1..], c);
    NextFirst(pat, q, close, l[1..]);
    DashRead(pat, first + 1, close, x, c);
    OddRead(pat, first, close, l, q, c);
  }

  // The skipped start, the two members behind it, and the rest of the list.
  lemma OddRead(pat: CString, first: nat, close: nat, l: seq<Element>, q: nat, c: char)
    requires l != [] && StartsOddly(l[0]) && first < q <= close < |pat| && pat[first] == l[0].lo
    requires MemberRun(pat, first + 1, q, close, c == '-' || c == l[0].hi, c)
    requires CloseFrom(pat, q) == close && (InMembers(pat, q, close, c) <==> RestRead(l[1..], c))
    ensures ReadFrom(pat, first, close, l, c)
  {
    hide InMembers, CloseFrom, RestRead;
  }

  lemma ListParts(l: seq<Element>)
    requires GoodElements(l) && l != [] && ProperBehind(l)
    ensures GoodElement(l[0]) && GoodElements(l[1..]) && Proper(l[1..]) && Show(l) == ShowElement(l[0]) + Show(l[1..])
    ensures l[1..] == [] ==> Show(l[1..]) == ""
    ensures EndsOpen(l[0]) && l[1..] != [] ==> GoodElement(l[1..][0]) && !Mark(ShowElement(l[1..][0])[0])
  {
  }

  lemma OddStart(x: Element)
    requires GoodElement(x) && StartsOddly(x)
    ensures ShowElement(x) == [x.lo] + ("-" + ShowEnd(x.hi, x.last)) && (!x.last ==> x.hi != '-')
  {
  }

  lemma HereOne(pat: CString, p: nat)
    requires p < |pat|
    ensures Here(pat, p, [pat[p]])
  {
  }

  lemma FirstOfList(pat: CString, first: nat, l: seq<Element>)
    requires GoodElements(l) && l != [] && Here(pat, first, Show(l))
    ensures first < |pat| && pat[first] == ShowElement(l[0])[0]
  {
    HereFirst(pat, first, Show(l));
  }

  lemma PlainFirst(pat: CString, first: nat, close: nat, l: seq<Element>, c: char)
    requires GoodElements(l) && l != [] && ProperBehind(l) && Here(pat, first, Show(l))
    requires first + |Show(l)| == close < |pat| && pat[close] == ']'
    requires l[0] != Char('-') && l[0] != Char(']') && !StartsOddly(l[0])
    ensures ReadFrom(pat, first, close, l, c)
  {
    hide Here, InMembers, CloseFrom;
    FirstOfList(pat, first, l);
    ListRead(pat, first, close, l, c);
  }

  lemma ListFromFirst(pat: CString, first: nat, close: nat, l: seq<Element>, c: char)
    requires GoodElements(l) && l != [] && ProperBehind(l) && Here(pat, first, Show(l))
    requires first + |Show(l)| == close < |pat| && pat[close] == ']'
    ensures ReadFrom(pat, first, close, l, c)
  {
    hide Here, ReadFrom, ProperBehind, GoodElements, Show;
    if StartsOddly(l[0]) {
      SkippedRange(pat, first, close, l, c);
    } else if l[0] == Char('-') || l[0] == Char(']') {
      SkippedFirst(pat, first, close, l, c);
    } else {
      PlainFirst(pat, first, close, l, c);
    }
  }

  // What the tokens of the pattern make of that.
  lemma BracketToken(pat: CString, p: nat, negated: bool, close: nat, flags: Flags)
    requires p < |pat| && pat[p] == '[' && (Negates(pat, p + 1) <==> negated)
    requires var first := if negated then p + 2 else p + 1;
      first <= close < |pat| && CloseFrom(pat, AfterFirst(pat, first)) == close
    ensures TokenAt(pat, p, flags) == Lexeme(Bracket(if negated then p + 2 else p + 1, close, negated), close + 1)
  {
    hide CloseFrom, AfterFirst;
  }

  /** A bracket expression, written out, is read up to its end, and admits what ReadList says. */
  lemma BracketRead(pat: CString, p: nat, l: seq<Element>, negated: bool, flags: Flags)
    requires ProperList(l, negated) && Here(pat, p, ShowBracket(l, negated))
    ensures p < |pat|
    ensures var first := if negated then p + 2 else p + 1;
      var close := first + |Show(l)|;
      && close < |pat| && TokenAt(pat, p, flags) == Lexeme(Bracket(first, close, negated), close + 1)
      && forall c :: InBracket(pat, first, close, c) <==> ReadList(l, c)
  {
    hide Here, InBracket, CloseFrom, AfterFirst, ReadList, TokenAt, Show, ShowElement, GoodElements,
        ProperBehind;
    var open := if negated then "[!" else "[";
    var first := p + |open|;
    var close := first + |Show(l)|;
    HereSplit(pat, p, open, Show(l) + "]");
    HereSplit(pat, first, Show(l), "]");
    HereFirst(pat, p, open);
    HereFirst(pat, close, "]");
    FirstOfList(pat, first, l);
    if negated {
      HereChar(pat, p, open, 1);
    }
    forall c ensures InBracket(pat, first, close, c) <==> ReadList(l, c) {
      ListFromFirst(pat, first, close, l, c);
    }
    ListFromFirst(pat, first, close, l, 'a');
    BracketToken(pat, p, negated, close, flags);
  }

  // ---- where that departs from the standard

  // A range whose start is taken for a character of its own.
  predicate LosesStart(x: Element, leading: bool) {
    x.Range? && (x.first || (leading && StartsOddly(x)))
  }

  // A range that ends with a symbol, and whose start is read.
  predicate LosesEnd(x: Element, leading: bool) {
    x.Range? && x.last && !LosesStart(x, leading)
  }

  /** The characters of an element the code does not see: those inside a range whose start it takes for a character
      of its own, and those above `[` of one whose end it takes for that `[`. */
  predicate Missed(x: Element, leading: bool, c: char) {
    || (LosesStart(x, leading) && x.lo < c < x.hi && c != '-')
    || (LosesEnd(x, leading) && x.lo <= c < x.hi && c > '[' && c != ']')
  }

  /** The characters it sees besides: the `-` of such a range, or what is up to the `[`, and the other characters of
      the symbol. */
  predicate Added(x: Element, leading: bool, c: char) {
    || (LosesStart(x, leading) && c == '-' && !(x.lo <= '-' <= x.hi))
    || (LosesEnd(x, leading) && !(x.lo <= c <= x.hi) && (x.lo <= c <= '[' || c == '.' || c == ']'))
  }

  lemma ElementRight(x: Element, leading: bool, c: char)
    requires GoodElement(x)
    ensures Missed(x, leading, c) <==> Has(x, c) && !HasRead(x, leading, c)
    ensures Added(x, leading, c) <==> HasRead(x, leading, c) && !Has(x, c)
  {
    hide InClass;
  }

  predicate MissedBy(l: seq<Element>, leading: bool, c: char) {
    l != [] && (Missed(l[0], leading, c) || MissedBy(l[1..], false, c))
  }

  predicate AddedBy(l: seq<Element>, leading: bool, c: char) {
    l != [] && (Added(l[0], leading, c) || AddedBy(l[1..], false, c))
  }

  /** A character whose membership the code gets wrong: no element is read as having it, and one of them misses it;
      or none has it, and one is read as having it besides. */
  predicate Misread(l: seq<Element>, c: char) {
    (!ReadList(l, c) && MissedBy(l, true, c)) || (!Admits(l, c) && AddedBy(l, true, c))
  }

  lemma {:induction false} RestRight(l: seq<Element>, c: char)
    requires GoodElements(l)
    ensures !RestRead(l, c) ==> (MissedBy(l, false, c) <==> Admits(l, c))
    ensures !Admits(l, c) ==> (AddedBy(l, false, c) <==> RestRead(l, c))
    decreases |l|
  {
    hide Has, HasRead, Missed, Added;
    if l != [] {
      ElementRight(l[0], false, c);
      RestRight(l[1..], c);
    }
  }

  /** Membership is as section 9.3.5 has it exactly for the characters that are not misread. */
  lemma MembershipRight(l: seq<Element>, c: char)
    requires GoodElements(l) && l != []
    ensures (ReadList(l, c) <==> Admits(l, c)) <==> !Misread(l, c)
  {
    hide Has, HasRead, Missed, Added;
    ElementRight(l[0], true, c);
    RestRight(l[1..], c);
  }

  /** No range has an end that is written as a symbol, nor starts the list with `-` or `]`. */
  predicate PlainRanges(l: seq<Element>, leading: bool) {
    l != [] ==> !LosesStart(l[0], leading) && !LosesEnd(l[0], leading) && PlainRanges(l[1..], false)
  }

  /** Then no character is misread. */
  lemma {:induction false} PlainRight(l: seq<Element>, leading: bool, c: char)
    requires PlainRanges(l, leading)
    ensures !MissedBy(l, leading, c) && !AddedBy(l, leading, c)
    decreases |l|
  {
    if l != [] {
      PlainRight(l[1..], false, c);
    }
  }

  /** `[--@]`, the characters from `-` to `@`, does not match a period. */
  lemma PeriodMissed()
    ensures var l := [Range('-', '@', false, false)];
      && ProperList(l, false) && ShowBracket(l, false) == "[--@]" && Admits(l, '.') && !InBracket("[--@]", 1, 4, '.')
  {
    var l, pat: CString := [Range('-', '@', false, false)], "[--@]";
    assert l[1..] == [] && Show(l) == "--@";
    assert Here(pat, 0, ShowBracket(l, false));
    BracketRead(pat, 0, l, false, Flags(false, false, false));
    assert !ReadList(l, '.') && Admits(l, '.');
  }

  // ---- slashes in brackets

  /** A bracket expression with a slash in it, where slashes separate: section 2.13.3 of POSIX.1-2017 Shell and
      Utilities makes its `[` an ordinary character. */
  predicate HoldsSlash(pat: CString, p: nat, flags: Flags)
    requires p < |pat|
  {
    var l := TokenAt(pat, p, flags);
    flags.pathname && l.token.Bracket? && '/' in pat[p..l.next]
  }

  /** The tokens of a pattern by that rule. */
  function StandardTokens(pat: CString, p: nat, flags: Flags): (ts: seq<Token>)
    requires p <= |pat|
    decreases |pat| - p
  {
    if p == |pat| then []
    else if HoldsSlash(pat, p, flags) then [Literal('[')] + StandardTokens(pat, p + 1, flags)
    else [TokenAt(pat, p, flags).token] + StandardTokens(pat, TokenAt(pat, p, flags).next, flags)
  }

  /** No token from p on is such a bracket expression. */
  predicate SlashesOutside(pat: CString, p: nat, flags: Flags)
    requires p <= |pat|
    decreases |pat| - p
  {
    p < |pat| ==> !HoldsSlash(pat, p, flags) && SlashesOutside(pat, TokenAt(pat, p, flags).next, flags)
  }

  /** The code does not know the rule: it reads a pattern as the standard does exactly when no bracket expression
      of it holds a slash. */
  lemma {:induction false} SlashRule(pat: CString, p: nat, flags: Flags)
    requires p <= |pat|
    ensures Tokens(pat, p, flags) == StandardTokens(pat, p, flags) <==> SlashesOutside(pat, p, flags)
    decreases |pat| - p
  {
    hide TokenAt;
    if p < |pat| {
      var l := TokenAt(pat, p, flags);
      var ts, us := Tokens(pat, p, flags), StandardTokens(pat, p, flags);
      if HoldsSlash(pat, p, flags) {
        assert ts[0] == l.token && us[0] == Literal('[');
      } else {
        SlashRule(pat, l.next, flags);
        assert ts[1..] == Tokens(pat, l.next, flags) && us[1..] == StandardTokens(pat, l.next, flags);
      }
    }
  }

  /** `[/]`, where slashes separate: the standard lets it match itself, in the code it matches nothing. */
  lemma SlashMissed(str: CString)
    ensures var pat: CString, flags := "[/]", Flags(false, true, false);
      && !SlashesOutside(pat, 0, flags) && Match(pat, StandardTokens(pat, 0, flags), "[/]", 0, flags)
      && !Match(pat, Tokens(pat, 0, flags), str, 0, flags)
  {
    hide Tokens, StandardTokens, TokenAt, Match;
    var pat: CString, flags := "[/]", Flags(false, true, false);
    OnlySlash(pat);
    SlashTokens(pat, flags);
    MatchOne(pat, Bracket(1, 2, false), [], str, 0, flags);
    assert [Bracket(1, 2, false)] + [] == [Bracket(1, 2, false)];
    MatchOne(pat, Literal('['), Tokens(pat, 1, flags), pat, 0, flags);
    PlainMatchesItself(pat, 1, pat, 1, flags);
  }

  // The bracket expression of that pattern has a slash and nothing else.
  lemma OnlySlash(pat: CString)
    requires pat == "[/]"
    ensures forall flags :: TokenAt(pat, 0, flags) == Lexeme(Bracket(1, 2, false), 3)
    ensures forall c :: InBracket(pat, 1, 2, c) <==> c == '/'
  {
    var l := [Char('/')];
    assert l[1..] == [] && Show(l) == "/";
    assert Here(pat, 0, ShowBracket(l, false));
    forall flags ensures TokenAt(pat, 0, flags) == Lexeme(Bracket(1, 2, false), 3) {
      BracketRead(pat, 0, l, false, flags);
    }
    forall c ensures InBracket(pat, 1, 2, c) <==> c == '/' {
      BracketRead(pat, 0, l, false, Flags(false, false, false));
      assert InBracket(pat, 1, 2, c) <==> ReadList(l, c);
      assert !RestRead(l[1..], c);
    }
  }

  // Its tokens, both ways.
  lemma SlashTokens(pat: CString, flags: Flags)
    requires pat == "[/]" && flags.pathname && TokenAt(pat, 0, flags) == Lexeme(Bracket(1, 2, false), 3)
    ensures Tokens(pat, 0, flags) == [Bracket(1, 2, false)] && HoldsSlash(pat, 0, flags)
    ensures StandardTokens(pat, 0, flags) == [Literal('[')] + Tokens(pat, 1, flags)
  {
    assert Tokens(pat, 3, flags) == [];
    assert pat[0..3][1] == '/';
    assert SlashesOutside(pat, 3, flags);
    assert SlashesOutside(pat, 2, flags);
    assert SlashesOutside(pat, 1, flags);
    SlashRule(pat, 1, flags);
  }
}
