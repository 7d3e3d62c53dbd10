/** The Thompson construction of regexec: the instruction set, its runs, the code that
    build_nfa lays down for a tree, and the proof that runs and matches coincide. */
module RegexNfa {
  import opened RegexSemantics

  datatype Opcode =
    I_MATCH | I_CHAR | I_ANY | I_BOL | I_EOL | I_BRACKET | I_BACKREF | I_SPLIT | I_JMP | I_SAVE

  datatype NfaInst = NfaInst(op: Opcode, v1: int, v2: int, out1: int, out2: int)

  predicate Consumes(inst: NfaInst) {
    inst.op.I_CHAR? || inst.op.I_ANY? || inst.op.I_BRACKET?
  }

  /** Whether a thread at `inst` may move on when the text position is `i`. */
  predicate Admits(s: Subject, inst: NfaInst, i: nat)
    requires i <= |s.text|
  {
    match inst.op
    case I_MATCH => false
    case I_CHAR => i < |s.text| && CharMatches(s, s.text[i], inst.v1)
    case I_ANY => i < |s.text| && AnyMatches(s, s.text[i])
    case I_BOL => AtBol(s, i)
    case I_EOL => AtEol(s, i)
    case I_BRACKET => i < |s.text| && BracketMatches(s, inst.v1, inst.v2, s.text[i])
    case I_BACKREF => false
    case I_SPLIT => true
    case I_JMP => true
    case I_SAVE => true
  }

  function After(inst: NfaInst, i: nat): nat {
    if Consumes(inst) then i + 1 else i
  }

  /** A run of `n` steps from (pc, i) to (q, j) whose every step leaves an instruction of [lo, hi). */
  ghost predicate Run(s: Subject, nfa: seq<NfaInst>, lo: nat, hi: nat, n: nat, pc: int, i: nat, q: int, j: nat)
    requires hi <= |nfa|
    requires i <= |s.text|
    decreases n
  {
    if n == 0 then pc == q && i == j
    else
      && lo <= pc < hi
      && Admits(s, nfa[pc], i)
      && (|| Run(s, nfa, lo, hi, n - 1, nfa[pc].out1, After(nfa[pc], i), q, j)
          || (nfa[pc].op.I_SPLIT? && Run(s, nfa, lo, hi, n - 1, nfa[pc].out2, After(nfa[pc], i), q, j)))
  }

  predicate Inside(lo: nat, hi: nat, out: int, pc: int) {
    lo <= pc < hi || pc == out
  }

  /** Control leaves the fragment [lo, hi) only towards `out`. */
  ghost predicate Closed(nfa: seq<NfaInst>, lo: nat, hi: nat, out: int)
    requires hi <= |nfa|
  {
    forall pc {:trigger nfa[pc]} | lo <= pc < hi ::
      Inside(lo, hi, out, nfa[pc].out1) && (nfa[pc].op.I_SPLIT? ==> Inside(lo, hi, out, nfa[pc].out2))
  }

  lemma {:induction false} RunSpan(s: Subject, nfa: seq<NfaInst>, lo: nat, hi: nat, n: nat, pc: int, i: nat, q: int,
          j: nat)
    requires hi <= |nfa| && i <= |s.text|
    requires Run(s, nfa, lo, hi, n, pc, i, q, j)
    ensures i <= j <= |s.text|
    decreases n
  {
    if n > 0 {
      var inst := nfa[pc];
      if Run(s, nfa, lo, hi, n - 1, inst.out1, After(inst, i), q, j) {
        RunSpan(s, nfa, lo, hi, n - 1, inst.out1, After(inst, i), q, j);
      } else {
        RunSpan(s, nfa, lo, hi, n - 1, inst.out2, After(inst, i), q, j);
      }
    }
  }

  lemma {:induction false} RunWiden(s: Subject, nfa: seq<NfaInst>, lo: nat, hi: nat, lo': nat, hi': nat,
                   n: nat, pc: int, i: nat, q: int, j: nat)
    requires lo' <= lo && hi <= hi' <= |nfa| && i <= |s.text|
    requires Run(s, nfa, lo, hi, n, pc, i, q, j)
    ensures Run(s, nfa, lo', hi', n, pc, i, q, j)
    decreases n
  {
    if n > 0 {
      var inst := nfa[pc];
      if Run(s, nfa, lo, hi, n - 1, inst.out1, After(inst, i), q, j) {
        RunWiden(s, nfa, lo, hi, lo', hi', n - 1, inst.out1, After(inst, i), q, j);
      } else {
        RunWiden(s, nfa, lo, hi, lo', hi', n - 1, inst.out2, After(inst, i), q, j);
      }
    }
  }

  lemma {:induction false} RunJoin(s: Subject, nfa: seq<NfaInst>, lo: nat, hi: nat,
                  n: nat, pc: int, i: nat, q: int, k: nat, m: nat, r: int, j: nat)
    requires hi <= |nfa| && i <= |s.text| && k <= |s.text|
    requires Run(s, nfa, lo, hi, n, pc, i, q, k)
    requires Run(s, nfa, lo, hi, m, q, k, r, j)
    ensures Run(s, nfa, lo, hi, n + m, pc, i, r, j)
    decreases n
  {
    if n > 0 {
      var inst := nfa[pc];
      if Run(s, nfa, lo, hi, n - 1, inst.out1, After(inst, i), q, k) {
        RunJoin(s, nfa, lo, hi, n - 1, inst.out1, After(inst, i), q, k, m, r, j);
      } else {
        RunJoin(s, nfa, lo, hi, n - 1, inst.out2, After(inst, i), q, k, m, r, j);
      }
    }
  }

  /** A run of the wide range that starts inside a closed fragment first crosses the fragment to
      its exit, and goes on from there. */
  lemma {:induction false} RunCross(s: Subject, nfa: seq<NfaInst>, lo: nat, hi: nat, a: nat, b: nat, out: int,
                   n: nat, pc: int, i: nat, q: int, j: nat)
    returns (m: nat, k: nat)
    requires lo <= a <= b <= hi <= |nfa| && i <= |s.text|
    requires Closed(nfa, a, b, out) && !(a <= out < b) && !(a <= q < b)
    requires Inside(a, b, out, pc)
    requires Run(s, nfa, lo, hi, n, pc, i, q, j)
    ensures m <= n && k <= |s.text|
    ensures Run(s, nfa, a, b, m, pc, i, out, k)
    ensures Run(s, nfa, lo, hi, n - m, out, k, q, j)
    ensures a <= pc < b ==> m > 0
    decreases n
  {
    if pc == out {
      return 0, i;
    }
    var inst := nfa[pc];
    if Run(s, nfa, lo, hi, n - 1, inst.out1, After(inst, i), q, j) {
      m, k := RunCross(s, nfa, lo, hi, a, b, out, n - 1, inst.out1, After(inst, i), q, j);
    } else {
      m, k := RunCross(s, nfa, lo, hi, a, b, out, n - 1, inst.out2, After(inst, i), q, j);
    }
    m := m + 1;
  }

  /** How many instructions build_nfa spends on a tree: one per node, EMPTY and CONCAT being free. */
  function Weight(r: Regex): nat {
    match r
    case Empty => 0
    case Leaf(_) => 1
    case Concat(a, b) => Weight(a) + Weight(b)
    case Alt(a, b) => Weight(a) + Weight(b) + 1
    case Star(b) => Weight(b) + 1
    case Group(_, b) => Weight(b) + 1
  }

  /** Where the code of `r` is entered when it is laid down from `lo` on and continues at `out`. */
  function Entry(r: Regex, out: int, lo: nat): int
    decreases r
  {
    match r
    case Empty => out
    case Leaf(_) => lo
    case Concat(a, b) => Entry(a, Entry(b, out, lo), lo + Weight(b))
    case Alt(a, b) => lo + Weight(a) + Weight(b)
    case Star(_) => lo
    case Group(_, b) => lo + Weight(b)
  }

  function AtomInst(a: Atom, out: int): NfaInst {
    match a
    case Chr(c) => NfaInst(I_CHAR, c, 0, out, -1)
    case Any => NfaInst(I_ANY, 0, 0, out, -1)
    case Bol => NfaInst(I_BOL, 0, 0, out, -1)
    case Eol => NfaInst(I_EOL, 0, 0, out, -1)
    case Bracket(first, last) => NfaInst(I_BRACKET, first, last, out, -1)
    case Backref(g) => NfaInst(I_BACKREF, g, 0, out, -1)
    case GroupEnd(g) => NfaInst(I_SAVE, g * 2 + 1, 0, out, -1)
  }

  /** The instructions from `lo` on are the code of `r` with continuation `out`. */
  predicate Built(nfa: seq<NfaInst>, r: Regex, out: int, lo: nat): (built: bool)
    ensures built ==> lo + Weight(r) <= |nfa|
    decreases r
  {
    && lo + Weight(r) <= |nfa|
    && match r
       case Empty => true
       case Leaf(a) => nfa[lo] == AtomInst(a, out)
       case Concat(a, b) =>
         Built(nfa, b, out, lo) && Built(nfa, a, Entry(b, out, lo), lo + Weight(b))
       case Alt(a, b) =>
         && Built(nfa, a, out, lo)
         && Built(nfa, b, out, lo + Weight(a))
         && nfa[lo + Weight(a) + Weight(b)]
            == NfaInst(I_SPLIT, 0, 0, Entry(a, out, lo), Entry(b, out, lo + Weight(a)))
       case Star(b) =>
         && nfa[lo] == NfaInst(I_SPLIT, 0, 0, Entry(b, lo, lo + 1), out)
         && Built(nfa, b, lo, lo + 1)
       case Group(g, b) =>
         && Built(nfa, b, out, lo)
         && nfa[lo + Weight(b)] == NfaInst(I_SAVE, g * 2, 0, Entry(b, out, lo), -1)
  }

  // What `Built` says of each compound form, for proofs that hide its definition.

  lemma BuiltConcat(nfa: seq<NfaInst>, r: Regex, out: int, lo: nat) returns (next: int, mid: nat, hi: nat)
    requires r.Concat? && Built(nfa, r, out, lo)
    ensures lo <= mid <= hi <= |nfa|
    ensures Built(nfa, r.right, out, lo) && next == Entry(r.right, out, lo) && mid == lo + Weight(r.right)
    ensures Built(nfa, r.left, next, mid) && hi == mid + Weight(r.left)
    ensures Entry(r, out, lo) == Entry(r.left, next, mid) && hi == lo + Weight(r)
  {
    next, mid, hi := Entry(r.right, out, lo), lo + Weight(r.right), lo + Weight(r);
  }

  lemma BuiltAlt(nfa: seq<NfaInst>, r: Regex, out: int, lo: nat) returns (mid: nat, top: nat)
    requires r.Alt? && Built(nfa, r, out, lo)
    ensures lo <= mid <= top < |nfa|
    ensures Built(nfa, r.left, out, lo) && mid == lo + Weight(r.left)
    ensures Built(nfa, r.right, out, mid) && top == mid + Weight(r.right)
    ensures nfa[top] == NfaInst(I_SPLIT, 0, 0, Entry(r.left, out, lo), Entry(r.right, out, mid))
    ensures Entry(r, out, lo) == top && top + 1 == lo + Weight(r)
  {
    mid, top := lo + Weight(r.left), lo + Weight(r.left) + Weight(r.right);
  }

  lemma BuiltStar(nfa: seq<NfaInst>, r: Regex, out: int, lo: nat) returns (entry: int, hi: nat)
    requires r.Star? && Built(nfa, r, out, lo)
    ensures lo < hi <= |nfa|
    ensures Built(nfa, r.body, lo, lo + 1) && entry == Entry(r.body, lo, lo + 1) && hi == lo + 1 + Weight(r.body)
    ensures nfa[lo] == NfaInst(I_SPLIT, 0, 0, entry, out)
    ensures Entry(r, out, lo) == lo && hi == lo + Weight(r)
  {
    entry, hi := Entry(r.body, lo, lo + 1), lo + Weight(r);
  }

  lemma BuiltGroup(nfa: seq<NfaInst>, r: Regex, out: int, lo: nat) returns (top: nat)
    requires r.Group? && Built(nfa, r, out, lo)
    ensures lo <= top < |nfa|
    ensures Built(nfa, r.body, out, lo) && top == lo + Weight(r.body)
    ensures nfa[top] == NfaInst(I_SAVE, r.gid * 2, 0, Entry(r.body, out, lo), -1)
    ensures Entry(r, out, lo) == top && top + 1 == lo + Weight(r)
  {
    top := lo + Weight(r.body);
  }

  /** Code stays built as long as its own instructions are left alone. */
  lemma {:induction false} BuiltFrame(nfa: seq<NfaInst>, nfa': seq<NfaInst>, r: Regex, out: int, lo: nat)
    requires Built(nfa, r, out, lo) && lo + Weight(r) <= |nfa'|
    requires forall pc | lo <= pc < lo + Weight(r) :: nfa[pc] == nfa'[pc]
    ensures Built(nfa', r, out, lo)
    decreases r, 1
  {
    match r
    case Empty =>
    case Leaf(_) =>
    case Concat(a, b) => FrameConcat(nfa, nfa', r, out, lo);
    case Alt(a, b) => FrameAlt(nfa, nfa', r, out, lo);
    case Star(b) => BuiltFrame(nfa, nfa', b, lo, lo + 1);
    case Group(g, b) => BuiltFrame(nfa, nfa', b, out, lo);
  }

  lemma {:induction false} FrameConcat(nfa: seq<NfaInst>, nfa': seq<NfaInst>, r: Regex, out: int, lo: nat)
    requires r.Concat? && Built(nfa, r, out, lo) && lo + Weight(r) <= |nfa'|
    requires forall pc | lo <= pc < lo + Weight(r) :: nfa[pc] == nfa'[pc]
    ensures Built(nfa', r, out, lo)
    decreases r, 0
  {
    hide Built, Entry, Weight;
    var next, mid, _ := BuiltConcat(nfa, r, out, lo);
    BuiltFrame(nfa, nfa', r.right, out, lo);
    BuiltFrame(nfa, nfa', r.left, next, mid);
    MakeConcat(nfa', r.left, r.right, out, lo);
  }

  lemma {:induction false} FrameAlt(nfa: seq<NfaInst>, nfa': seq<NfaInst>, r: Regex, out: int, lo: nat)
    requires r.Alt? && Built(nfa, r, out, lo) && lo + Weight(r) <= |nfa'|
    requires forall pc | lo <= pc < lo + Weight(r) :: nfa[pc] == nfa'[pc]
    ensures Built(nfa', r, out, lo)
    decreases r, 0
  {
    hide Built, Entry, Weight;
    var mid, _ := BuiltAlt(nfa, r, out, lo);
    BuiltFrame(nfa, nfa', r.left, out, lo);
    BuiltFrame(nfa, nfa', r.right, out, mid);
    MakeAlt(nfa', r.left, r.right, out, lo);
  }

  lemma ClosedJoin(nfa: seq<NfaInst>, lo: nat, mid: nat, hi: nat, next: int, out: int)
    requires lo <= mid <= hi <= |nfa|
    requires Closed(nfa, lo, mid, out) && Closed(nfa, mid, hi, next) && Inside(lo, mid, out, next)
    ensures Closed(nfa, lo, hi, out)
  {
  }

  lemma ClosedAtInst(nfa: seq<NfaInst>, lo: nat, hi: nat, out: int, pc: nat)
    requires hi <= |nfa| && Closed(nfa, lo, hi, out) && lo <= pc < hi
    ensures Inside(lo, hi, out, nfa[pc].out1) && (nfa[pc].op.I_SPLIT? ==> Inside(lo, hi, out, nfa[pc].out2))
  {
  }

  lemma ClosedSnoc(nfa: seq<NfaInst>, lo: nat, hi: nat, out: int)
    requires lo <= hi < |nfa| && Closed(nfa, lo, hi, out)
    requires Inside(lo, hi, out, nfa[hi].out1) && (nfa[hi].op.I_SPLIT? ==> Inside(lo, hi, out, nfa[hi].out2))
    ensures Closed(nfa, lo, hi + 1, out)
  {
  }

  lemma ClosedLoop(nfa: seq<NfaInst>, lo: nat, hi: nat, out: int)
    requires lo < hi <= |nfa| && Closed(nfa, lo + 1, hi, lo)
    requires Inside(lo, hi, out, nfa[lo].out1) && Inside(lo, hi, out, nfa[lo].out2)
    ensures Closed(nfa, lo, hi, out)
  {
  }

  /** The shape of built code: it is entered inside and left only towards `out`. */
  lemma {:induction false} BuiltShape(nfa: seq<NfaInst>, r: Regex, out: int, lo: nat)
    requires 0 <= out < lo && Built(nfa, r, out, lo)
    ensures Inside(lo, lo + Weight(r), out, Entry(r, out, lo))
    ensures Closed(nfa, lo, lo + Weight(r), out)
    decreases r
  {
    if r.Empty? || r.Leaf? {
      return;
    }
    BuiltShapeCompound(nfa, r, out, lo);
  }

  lemma {:induction false} BuiltShapeCompound(nfa: seq<NfaInst>, r: Regex, out: int, lo: nat)
    requires 0 <= out < lo && Built(nfa, r, out, lo)
    requires !r.Empty? && !r.Leaf?
    ensures Inside(lo, lo + Weight(r), out, Entry(r, out, lo))
    ensures Closed(nfa, lo, lo + Weight(r), out)
    decreases r, 0
  {
    hide Built, Weight, Entry, Closed;
    match r
    case Concat(a, b) =>
      var next, mid, hi := BuiltConcat(nfa, r, out, lo);
      BuiltShape(nfa, b, out, lo);
      BuiltShape(nfa, a, next, mid);
      ClosedJoin(nfa, lo, mid, hi, next, out);
    case Alt(a, b) =>
      var mid, top := BuiltAlt(nfa, r, out, lo);
      BuiltShape(nfa, a, out, lo);
      BuiltShape(nfa, b, out, mid);
      ClosedJoin(nfa, lo, mid, top, out, out);
      ClosedSnoc(nfa, lo, top, out);
    case Star(b) =>
      var _, hi := BuiltStar(nfa, r, out, lo);
      BuiltShape(nfa, b, lo, lo + 1);
      ClosedLoop(nfa, lo, hi, out);
    case Group(_, b) =>
      var top := BuiltGroup(nfa, r, out, lo);
      BuiltShape(nfa, b, out, lo);
      ClosedSnoc(nfa, lo, top, out);
  }

  /** Every run from the entry of built code to its exit is a match. */
  lemma {:induction false} BuiltSound(s: Subject, nfa: seq<NfaInst>, r: Regex, out: int, lo: nat, n: nat, i: nat,
          j: nat)
    requires 0 <= out < lo && i <= |s.text| && Built(nfa, r, out, lo)
    requires Run(s, nfa, lo, lo + Weight(r), n, Entry(r, out, lo), i, out, j)
    ensures Matches(s, r, i, j)
    decreases r, n, 1
  {
    hide Built, Weight, Entry, Run, Matches;
    match r
    case Empty => SoundSimple(s, nfa, r, out, lo, n, i, j);
    case Leaf(_) => SoundSimple(s, nfa, r, out, lo, n, i, j);
    case Concat(_, _) => SoundConcat(s, nfa, r, out, lo, n, i, j);
    case Alt(_, _) => SoundAlt(s, nfa, r, out, lo, n, i, j);
    case Star(_) => SoundStar(s, nfa, r, out, lo, n, i, j);
    case Group(_, _) => SoundGroup(s, nfa, r, out, lo, n, i, j);
  }

  lemma SoundSimple(s: Subject, nfa: seq<NfaInst>, r: Regex, out: int, lo: nat, n: nat, i: nat, j: nat)
    requires 0 <= out < lo && i <= |s.text| && Built(nfa, r, out, lo) && (r.Empty? || r.Leaf?)
    requires Run(s, nfa, lo, lo + Weight(r), n, Entry(r, out, lo), i, out, j)
    ensures Matches(s, r, i, j)
  {
    if r.Leaf? {
      assert Run(s, nfa, lo, lo + 1, n - 1, out, After(nfa[lo], i), out, j);
    }
  }

  lemma {:induction false} SoundConcat(s: Subject, nfa: seq<NfaInst>, r: Regex, out: int, lo: nat, n: nat, i: nat,
          j: nat)
    requires 0 <= out < lo && i <= |s.text| && Built(nfa, r, out, lo) && r.Concat?
    requires Run(s, nfa, lo, lo + Weight(r), n, Entry(r, out, lo), i, out, j)
    ensures Matches(s, r, i, j)
    decreases r, n, 0
  {
    hide Built, Weight, Entry, Closed, Run;
    var next, mid, hi := BuiltConcat(nfa, r, out, lo);
    BuiltShape(nfa, r.right, out, lo);
    BuiltShape(nfa, r.left, next, mid);
    var m, k := RunCross(s, nfa, lo, hi, mid, hi, next, n, Entry(r.left, next, mid), i, out, j);
    BuiltSound(s, nfa, r.left, next, mid, m, i, k);
    var m', _ := RunCross(s, nfa, lo, hi, lo, mid, out, n - m, next, k, out, j);
    BuiltSound(s, nfa, r.right, out, lo, m', k, j);
  }

  lemma {:induction false} SoundAlt(s: Subject, nfa: seq<NfaInst>, r: Regex, out: int, lo: nat, n: nat, i: nat, j: nat)
    requires 0 <= out < lo && i <= |s.text| && Built(nfa, r, out, lo) && r.Alt?
    requires Run(s, nfa, lo, lo + Weight(r), n, Entry(r, out, lo), i, out, j)
    ensures Matches(s, r, i, j)
    decreases r, n, 0
  {
    hide Built, Weight, Entry, Closed;
    var mid, top := BuiltAlt(nfa, r, out, lo);
    BuiltShape(nfa, r.left, out, lo);
    BuiltShape(nfa, r.right, out, mid);
    if Run(s, nfa, lo, top + 1, n - 1, Entry(r.left, out, lo), i, out, j) {
      var m, _ := RunCross(s, nfa, lo, top + 1, lo, mid, out, n - 1, Entry(r.left, out, lo), i, out, j);
      BuiltSound(s, nfa, r.left, out, lo, m, i, j);
    } else {
      var m, _ := RunCross(s, nfa, lo, top + 1, mid, top, out, n - 1, Entry(r.right, out, mid), i, out, j);
      BuiltSound(s, nfa, r.right, out, mid, m, i, j);
    }
  }

  lemma {:induction false} SoundStar(s: Subject, nfa: seq<NfaInst>, r: Regex, out: int, lo: nat, n: nat, i: nat, j: nat)
    requires 0 <= out < lo && i <= |s.text| && Built(nfa, r, out, lo) && r.Star?
    requires Run(s, nfa, lo, lo + Weight(r), n, Entry(r, out, lo), i, out, j)
    ensures Matches(s, r, i, j)
    decreases r, n, 0
  {
    hide Built, Weight, Entry, Closed;
    var entry, hi := BuiltStar(nfa, r, out, lo);
    if Run(s, nfa, lo, hi, n - 1, entry, i, out, j) {
      BuiltShape(nfa, r.body, lo, lo + 1);
      var m, k := RunCross(s, nfa, lo, hi, lo + 1, hi, lo, n - 1, entry, i, out, j);
      BuiltSound(s, nfa, r.body, lo, lo + 1, m, i, k);
      BuiltSound(s, nfa, r, out, lo, n - 1 - m, k, j);
      StarStep(s, r.body, i, k, j);
    } else {
      assert Power(s, r.body, 0, i, j);
    }
  }

  lemma {:induction false} SoundGroup(s: Subject, nfa: seq<NfaInst>, r: Regex, out: int, lo: nat, n: nat, i: nat,
          j: nat)
    requires 0 <= out < lo && i <= |s.text| && Built(nfa, r, out, lo) && r.Group?
    requires Run(s, nfa, lo, lo + Weight(r), n, Entry(r, out, lo), i, out, j)
    ensures Matches(s, r, i, j)
    decreases r, n, 0
  {
    hide Built, Weight, Entry, Closed;
    var top := BuiltGroup(nfa, r, out, lo);
    BuiltShape(nfa, r.body, out, lo);
    var m, _ := RunCross(s, nfa, lo, top + 1, lo, top, out, n - 1, Entry(r.body, out, lo), i, out, j);
    BuiltSound(s, nfa, r.body, out, lo, m, i, j);
  }

  lemma StarStep(s: Subject, b: Regex, i: nat, k: nat, j: nat)
    requires i <= |s.text| && k <= |s.text|
    requires Matches(s, b, i, k) && Matches(s, Star(b), k, j)
    ensures Matches(s, Star(b), i, j)
  {
    var c: nat :| Power(s, b, c, k, j);
    assert Power(s, b, c + 1, i, j);
  }

  /** Every match is a run of the built code. */
  lemma {:induction false} BuiltComplete(s: Subject, nfa: seq<NfaInst>, r: Regex, out: int, lo: nat, i: nat, j: nat)
    returns (n: nat)
    requires 0 <= out < lo && i <= |s.text| && Built(nfa, r, out, lo)
    requires Matches(s, r, i, j)
    ensures Run(s, nfa, lo, lo + Weight(r), n, Entry(r, out, lo), i, out, j)
    decreases r, 1, 0
  {
    hide Built, Weight, Entry, Run;
    match r
    case Empty => n := CompleteSimple(s, nfa, r, out, lo, i, j);
    case Leaf(_) => n := CompleteSimple(s, nfa, r, out, lo, i, j);
    case Concat(_, _) => n := CompleteConcat(s, nfa, r, out, lo, i, j);
    case Alt(_, _) => n := CompleteAlt(s, nfa, r, out, lo, i, j);
    case Star(b) =>
      var c: nat :| Power(s, b, c, i, j);
      n := CompleteStar(s, nfa, r, out, lo, c, i, j);
    case Group(_, _) => n := CompleteGroup(s, nfa, r, out, lo, i, j);
  }

  lemma CompleteSimple(s: Subject, nfa: seq<NfaInst>, r: Regex, out: int, lo: nat, i: nat, j: nat)
    returns (n: nat)
    requires 0 <= out < lo && i <= |s.text| && Built(nfa, r, out, lo) && (r.Empty? || r.Leaf?)
    requires Matches(s, r, i, j)
    ensures Run(s, nfa, lo, lo + Weight(r), n, Entry(r, out, lo), i, out, j)
  {
    if r.Empty? {
      n := 0;
    } else {
      assert Run(s, nfa, lo, lo + 1, 0, out, j, out, j);
      n := 1;
    }
  }

  lemma {:induction false} CompleteConcat(s: Subject, nfa: seq<NfaInst>, r: Regex, out: int, lo: nat, i: nat, j: nat)
    returns (n: nat)
    requires 0 <= out < lo && i <= |s.text| && Built(nfa, r, out, lo) && r.Concat?
    requires Matches(s, r, i, j)
    ensures Run(s, nfa, lo, lo + Weight(r), n, Entry(r, out, lo), i, out, j)
    decreases r, 0, 0
  {
    hide Built, Weight, Entry, Closed, Run;
    var next, mid, hi := BuiltConcat(nfa, r, out, lo);
    var k: nat :| k <= |s.text| && Matches(s, r.left, i, k) && Matches(s, r.right, k, j);
    BuiltShape(nfa, r.right, out, lo);
    var n1 := BuiltComplete(s, nfa, r.left, next, mid, i, k);
    var n2 := BuiltComplete(s, nfa, r.right, out, lo, k, j);
    RunWiden(s, nfa, mid, hi, lo, hi, n1, Entry(r.left, next, mid), i, next, k);
    RunWiden(s, nfa, lo, mid, lo, hi, n2, next, k, out, j);
    RunJoin(s, nfa, lo, hi, n1, Entry(r.left, next, mid), i, next, k, n2, out, j);
    n := n1 + n2;
  }

  lemma {:induction false} CompleteAlt(s: Subject, nfa: seq<NfaInst>, r: Regex, out: int, lo: nat, i: nat, j: nat)
    returns (n: nat)
    requires 0 <= out < lo && i <= |s.text| && Built(nfa, r, out, lo) && r.Alt?
    requires Matches(s, r, i, j)
    ensures Run(s, nfa, lo, lo + Weight(r), n, Entry(r, out, lo), i, out, j)
    decreases r, 0, 0
  {
    hide Built, Weight, Entry, Closed;
    var mid, top := BuiltAlt(nfa, r, out, lo);
    if Matches(s, r.left, i, j) {
      n := BuiltComplete(s, nfa, r.left, out, lo, i, j);
      RunWiden(s, nfa, lo, mid, lo, top + 1, n, Entry(r.left, out, lo), i, out, j);
    } else {
      n := BuiltComplete(s, nfa, r.right, out, mid, i, j);
      RunWiden(s, nfa, mid, top, lo, top + 1, n, Entry(r.right, out, mid), i, out, j);
    }
    n := n + 1;
  }

  lemma {:induction false} CompleteGroup(s: Subject, nfa: seq<NfaInst>, r: Regex, out: int, lo: nat, i: nat, j: nat)
    returns (n: nat)
    requires 0 <= out < lo && i <= |s.text| && Built(nfa, r, out, lo) && r.Group?
    requires Matches(s, r, i, j)
    ensures Run(s, nfa, lo, lo + Weight(r), n, Entry(r, out, lo), i, out, j)
    decreases r, 0, 0
  {
    hide Built, Weight, Entry, Closed;
    var top := BuiltGroup(nfa, r, out, lo);
    n := BuiltComplete(s, nfa, r.body, out, lo, i, j);
    RunWiden(s, nfa, lo, top, lo, top + 1, n, Entry(r.body, out, lo), i, out, j);
    n := n + 1;
  }

  lemma {:induction false} CompleteStar(s: Subject, nfa: seq<NfaInst>, r: Regex, out: int, lo: nat, c: nat, i: nat,
          j: nat)
    returns (n: nat)
    requires 0 <= out < lo && i <= |s.text| && r.Star? && Built(nfa, r, out, lo)
    requires Power(s, r.body, c, i, j)
    ensures Run(s, nfa, lo, lo + Weight(r), n, Entry(r, out, lo), i, out, j)
    decreases r, 0, c
  {
    hide Built, Weight, Entry, Matches;
    var entry, hi := BuiltStar(nfa, r, out, lo);
    if c == 0 {
      assert Run(s, nfa, lo, hi, 0, out, i, out, j);
      n := 1;
    } else {
      var k: nat :| k <= |s.text| && Matches(s, r.body, i, k) && Power(s, r.body, c - 1, k, j);
      var n1 := BuiltComplete(s, nfa, r.body, lo, lo + 1, i, k);
      var n2 := CompleteStar(s, nfa, r, out, lo, c - 1, k, j);
      RunWiden(s, nfa, lo + 1, hi, lo, hi, n1, entry, i, lo, k);
      RunJoin(s, nfa, lo, hi, n1, entry, i, lo, k, n2, out, j);
      n := 1 + (n1 + n2);
    }
  }

  /** Some run of [lo, hi) leads from (pc, i) to (q, j). */
  ghost predicate Path(s: Subject, nfa: seq<NfaInst>, lo: nat, hi: nat, pc: int, i: nat, q: int, j: nat)
    requires hi <= |nfa| && i <= |s.text|
  {
    exists n: nat :: Run(s, nfa, lo, hi, n, pc, i, q, j)
  }

  /** The construction preserves meaning: the paths through built code are exactly the matches. */
  lemma BuiltCorrect(s: Subject, nfa: seq<NfaInst>, r: Regex, out: int, lo: nat, i: nat, j: nat)
    requires 0 <= out < lo && i <= |s.text| && Built(nfa, r, out, lo)
    ensures Path(s, nfa, lo, lo + Weight(r), Entry(r, out, lo), i, out, j) <==> Matches(s, r, i, j)
  {
    hide Built, Weight, Entry, Run, Matches;
    var hi := lo + Weight(r);
    if Path(s, nfa, lo, hi, Entry(r, out, lo), i, out, j) {
      var n: nat :| Run(s, nfa, lo, hi, n, Entry(r, out, lo), i, out, j);
      BuiltSound(s, nfa, r, out, lo, n, i, j);
    }
    if Matches(s, r, i, j) {
      var n := BuiltComplete(s, nfa, r, out, lo, i, j);
    }
  }

  // ---- laying the code down, one node at a time

  /** `nfa` is `nfa0` with the code of `r` appended; control enters it at `entry`. */
  ghost predicate Appended(nfa0: seq<NfaInst>, nfa: seq<NfaInst>, r: Regex, out: int, entry: int) {
    && nfa0 <= nfa && |nfa| == |nfa0| + Weight(r)
    && Built(nfa, r, out, |nfa0|) && entry == Entry(r, out, |nfa0|)
  }

  lemma AppendNothing(nfa: seq<NfaInst>, out: int)
    ensures Appended(nfa, nfa, Empty, out, out)
  {
  }

  lemma AppendLeaf(nfa: seq<NfaInst>, a: Atom, out: int)
    ensures Appended(nfa, nfa + [AtomInst(a, out)], Leaf(a), out, |nfa|)
  {
  }

  lemma MakeConcat(nfa: seq<NfaInst>, a: Regex, b: Regex, out: int, lo: nat)
    requires Built(nfa, b, out, lo) && Built(nfa, a, Entry(b, out, lo), lo + Weight(b))
    ensures Built(nfa, Concat(a, b), out, lo) && Weight(Concat(a, b)) == Weight(b) + Weight(a)
    ensures Entry(Concat(a, b), out, lo) == Entry(a, Entry(b, out, lo), lo + Weight(b))
  {
  }

  lemma MakeAlt(nfa: seq<NfaInst>, a: Regex, b: Regex, out: int, lo: nat)
    requires Built(nfa, a, out, lo) && Built(nfa, b, out, lo + Weight(a))
    requires lo + Weight(a) + Weight(b) < |nfa|
    requires nfa[lo + Weight(a) + Weight(b)] == NfaInst(I_SPLIT, 0, 0, Entry(a, out, lo), Entry(b, out, lo + Weight(a)))
    ensures Built(nfa, Alt(a, b), out, lo) && Weight(Alt(a, b)) == Weight(a) + Weight(b) + 1
    ensures Entry(Alt(a, b), out, lo) == lo + Weight(a) + Weight(b)
  {
  }

  lemma AppendConcat(nfa0: seq<NfaInst>, nfa1: seq<NfaInst>, nfa2: seq<NfaInst>, a: Regex, b: Regex, out: int,
          next: int, entry: int)
    requires Appended(nfa0, nfa1, b, out, next) && Appended(nfa1, nfa2, a, next, entry)
    ensures Appended(nfa0, nfa2, Concat(a, b), out, entry)
  {
    hide Built, Entry, Weight;
    BuiltFrame(nfa1, nfa2, b, out, |nfa0|);
    MakeConcat(nfa2, a, b, out, |nfa0|);
  }

  lemma AppendAlt(nfa0: seq<NfaInst>, nfa1: seq<NfaInst>, nfa2: seq<NfaInst>, a: Regex, b: Regex, out: int, left: int,
          right: int)
    requires Appended(nfa0, nfa1, a, out, left) && Appended(nfa1, nfa2, b, out, right)
    ensures Appended(nfa0, nfa2 + [NfaInst(I_SPLIT, 0, 0, left, right)], Alt(a, b), out, |nfa2|)
  {
    hide Built, Entry, Weight;
    var nfa3 := nfa2 + [NfaInst(I_SPLIT, 0, 0, left, right)];
    BuiltFrame(nfa1, nfa3, a, out, |nfa0|);
    BuiltFrame(nfa2, nfa3, b, out, |nfa1|);
    MakeAlt(nfa3, a, b, out, |nfa0|);
  }

  lemma AppendStar(nfa0: seq<NfaInst>, nfa1: seq<NfaInst>, nfa2: seq<NfaInst>, b: Regex, out: int, body: int)
    requires nfa1 == nfa0 + [NfaInst(I_SPLIT, 0, 0, -1, out)]
    requires Appended(nfa1, nfa2, b, |nfa0|, body)
    ensures Appended(nfa0, nfa2[|nfa0| := NfaInst(I_SPLIT, 0, 0, body, out)], Star(b), out, |nfa0|)
  {
    var nfa3 := nfa2[|nfa0| := NfaInst(I_SPLIT, 0, 0, body, out)];
    BuiltFrame(nfa2, nfa3, b, |nfa0|, |nfa1|);
    assert nfa0 <= nfa3;
  }

  lemma AppendGroup(nfa0: seq<NfaInst>, nfa1: seq<NfaInst>, g: int, b: Regex, out: int, inner: int)
    requires Appended(nfa0, nfa1, b, out, inner)
    ensures Appended(nfa0, nfa1 + [NfaInst(I_SAVE, g * 2, 0, inner, -1)], Group(g, b), out, |nfa1|)
  {
    BuiltFrame(nfa1, nfa1 + [NfaInst(I_SAVE, g * 2, 0, inner, -1)], b, out, |nfa0|);
  }

  lemma AppendedPrefix(nfa0: seq<NfaInst>, nfa: seq<NfaInst>, r: Regex, out: int, entry: int)
    requires Appended(nfa0, nfa, r, out, entry)
    ensures nfa0 <= nfa
  {
  }

  /** The entry of appended code is an instruction, if the exit is. */
  lemma AppendedEntry(nfa0: seq<NfaInst>, nfa: seq<NfaInst>, r: Regex, out: int, entry: int)
    requires Appended(nfa0, nfa, r, out, entry) && 0 <= out < |nfa0|
    ensures 0 <= entry < |nfa|
  {
    BuiltShape(nfa, r, out, |nfa0|);
  }

  // ---- paths, extended at their far end

  lemma MatchIsFinal(s: Subject, inst: NfaInst, i: nat)
    requires i <= |s.text|
    ensures inst.op.I_MATCH? ==> !Admits(s, inst, i)
  {
  }

  /** Whether one step leads from (p, k) to (q, j). */
  predicate Edge(s: Subject, nfa: seq<NfaInst>, p: int, k: nat, q: int, j: nat)
    requires 0 <= p < |nfa| && k <= |s.text|
  {
    && Admits(s, nfa[p], k)
    && j == After(nfa[p], k)
    && (q == nfa[p].out1 || (nfa[p].op.I_SPLIT? && q == nfa[p].out2))
  }

  /** A nonempty run, cut before its last step. */
  lemma {:induction false} RunLast(s: Subject, nfa: seq<NfaInst>, lo: nat, hi: nat, n: nat, pc: int, i: nat, q: int,
          j: nat)
    returns (p: int, k: nat)
    requires hi <= |nfa| && i <= |s.text| && n > 0
    requires Run(s, nfa, lo, hi, n, pc, i, q, j)
    ensures lo <= p < hi && k <= |s.text|
    ensures Run(s, nfa, lo, hi, n - 1, pc, i, p, k) && Edge(s, nfa, p, k, q, j)
    decreases n
  {
    var inst := nfa[pc];
    if n == 1 {
      p, k := pc, i;
    } else if Run(s, nfa, lo, hi, n - 1, inst.out1, After(inst, i), q, j) {
      p, k := RunLast(s, nfa, lo, hi, n - 1, inst.out1, After(inst, i), q, j);
    } else {
      p, k := RunLast(s, nfa, lo, hi, n - 1, inst.out2, After(inst, i), q, j);
    }
  }

  /** A path that gets past position `k` consumes the character at `k`. */
  lemma {:induction false} RunCrosses(s: Subject, nfa: seq<NfaInst>, lo: nat, hi: nat, n: nat, pc: int, i: nat,
          q: int, j: nat, k: nat)
    returns (p: int)
    requires hi <= |nfa| && i <= k < j && k < |s.text|
    requires Run(s, nfa, lo, hi, n, pc, i, q, j)
    ensures lo <= p < hi && Path(s, nfa, lo, hi, pc, i, p, k) && Consumes(nfa[p])
    decreases n
  {
    var p', k' := RunLast(s, nfa, lo, hi, n, pc, i, q, j);
    if k' == k {
      p := p';
    } else {
      p := RunCrosses(s, nfa, lo, hi, n - 1, pc, i, p', k', k);
    }
  }

  /** I_MATCH has no way on, so a run need not be allowed to leave instruction 0. */
  lemma {:induction false} RunSkipsMatch(s: Subject, nfa: seq<NfaInst>, n: nat, pc: int, i: nat, q: int, j: nat)
    requires |nfa| > 0 && nfa[0].op.I_MATCH? && i <= |s.text|
    requires Run(s, nfa, 0, |nfa|, n, pc, i, q, j)
    ensures Run(s, nfa, 1, |nfa|, n, pc, i, q, j)
    decreases n
  {
    if n > 0 {
      var inst := nfa[pc];
      if Run(s, nfa, 0, |nfa|, n - 1, inst.out1, After(inst, i), q, j) {
        RunSkipsMatch(s, nfa, n - 1, inst.out1, After(inst, i), q, j);
      } else {
        RunSkipsMatch(s, nfa, n - 1, inst.out2, After(inst, i), q, j);
      }
    }
  }

  /** In a whole program - I_MATCH followed by the code of `r` - the paths to I_MATCH are the matches. */
  lemma ProgramCorrect(s: Subject, nfa: seq<NfaInst>, r: Regex, i: nat, j: nat)
    requires i <= |s.text| && |nfa| == 1 + Weight(r) && nfa[0].op.I_MATCH? && Built(nfa, r, 0, 1)
    ensures Path(s, nfa, 0, |nfa|, Entry(r, 0, 1), i, 0, j) <==> Matches(s, r, i, j)
  {
    hide Built, Weight, Entry, Run, Matches;
    BuiltCorrect(s, nfa, r, 0, 1, i, j);
    if n: nat :| Run(s, nfa, 0, |nfa|, n, Entry(r, 0, 1), i, 0, j) {
      RunSkipsMatch(s, nfa, n, Entry(r, 0, 1), i, 0, j);
    }
    if n: nat :| Run(s, nfa, 1, |nfa|, n, Entry(r, 0, 1), i, 0, j) {
      RunWiden(s, nfa, 1, |nfa|, 0, |nfa|, n, Entry(r, 0, 1), i, 0, j);
    }
  }
}
