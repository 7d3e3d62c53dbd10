/** What the SAVE instructions record along a run: what a match of the expression records. */
module RegexCaptures {
  import opened RegexSemantics
  import opened RegexNfa
  import opened RegexRecords

  // ---- the instructions of trees with groups

  /** What a backtracking-free matcher needs to know of an instruction other than I_MATCH. */
  predicate SoundInst(inst: NfaInst, nsub: nat) {
    && !inst.op.I_MATCH?
    && !inst.op.I_BACKREF?
    && (inst.op.I_SAVE? ==> 2 <= inst.v1 < 2 * (nsub + 1))
  }

  /** Groups are laid down as their end, their body, and their start. */
  lemma BuiltCapture(nfa: seq<NfaInst>, r: Regex, base: int, nsub: nat, out: int, lo: nat) returns (top: nat)
    requires r.Group? && Formed(r, base, nsub) && Built(nfa, r, out, lo)
    ensures var g, body := r.gid, r.body.left;
      && lo < top < |nfa| && top == lo + 1 + Weight(body) && Built(nfa, body, lo, lo + 1)
      && nfa[lo] == NfaInst(I_SAVE, g * 2 + 1, 0, out, -1)
      && nfa[top] == NfaInst(I_SAVE, g * 2, 0, Entry(body, lo, lo + 1), -1)
      && Entry(r, out, lo) == top && lo + Weight(r) == top + 1
  {
    top := BuiltGroup(nfa, r, out, lo);
    var next, mid, hi := BuiltConcat(nfa, r.body, out, lo);
  }

  lemma {:induction false} CodeSound(nfa: seq<NfaInst>, r: Regex, base: int, nsub: nat, out: int, lo: nat, pc: nat)
    requires Formed(r, base, nsub) && NoBackref(r) && 0 <= base && Built(nfa, r, out, lo) && lo <= pc < lo + Weight(r)
    ensures SoundInst(nfa[pc], nsub)
    decreases r
  {
    hide Built, Entry;
    match r
    case Empty =>
    case Leaf(_) => LeafSound(nfa, r, base, nsub, out, lo);
    case Concat(_, _) =>
      var next, mid, _ := BuiltConcat(nfa, r, out, lo);
      if pc < mid {
        CodeSound(nfa, r.right, base, nsub, out, lo, pc);
      } else {
        CodeSound(nfa, r.left, base, nsub, next, mid, pc);
      }
    case Alt(_, _) =>
      var mid, top := BuiltAlt(nfa, r, out, lo);
      if pc < mid {
        CodeSound(nfa, r.left, base, nsub, out, lo, pc);
      } else if pc < top {
        CodeSound(nfa, r.right, base, nsub, out, mid, pc);
      }
    case Star(_) =>
      var _, hi := BuiltStar(nfa, r, out, lo);
      if pc > lo {
        CodeSound(nfa, r.body, base, nsub, lo, lo + 1, pc);
      }
    case Group(_, _) =>
      var top := BuiltCapture(nfa, r, base, nsub, out, lo);
      if lo < pc < top {
        CodeSound(nfa, r.body.left, r.gid, nsub, lo, lo + 1, pc);
      }
  }

  lemma LeafSound(nfa: seq<NfaInst>, r: Regex, base: int, nsub: nat, out: int, lo: nat)
    requires r.Leaf? && Formed(r, base, nsub) && NoBackref(r) && Built(nfa, r, out, lo)
    ensures SoundInst(nfa[lo], nsub)
  {
  }

  // ---- runs that record

  /** What executing an instruction at position i leaves in the recorded positions. */
  function Saved(inst: NfaInst, saves: seq<int>, i: nat): (saves': seq<int>)
    ensures |saves'| == |saves|
  {
    if inst.op.I_SAVE? && 0 <= inst.v1 < |saves| then saves[inst.v1 := i] else saves
  }

  /** A run as in RegexNfa.Run, that starts with the recorded positions `a` and ends with `b`. */
  ghost predicate Trace(s: Subject, nfa: seq<NfaInst>, lo: nat, hi: nat, n: nat, pc: int, i: nat, a: seq<int>,
      q: int, j: nat, b: seq<int>)
    requires hi <= |nfa| && i <= |s.text|
    decreases n
  {
    if n == 0 then pc == q && i == j && a == b
    else
      && lo <= pc < hi
      && Admits(s, nfa[pc], i)
      && var inst := nfa[pc];
         var (k, c) := (After(inst, i), Saved(inst, a, i));
         || Trace(s, nfa, lo, hi, n - 1, inst.out1, k, c, q, j, b)
         || (inst.op.I_SPLIT? && Trace(s, nfa, lo, hi, n - 1, inst.out2, k, c, q, j, b))
  }

  // The first step of a trace.
  lemma TraceHead(s: Subject, nfa: seq<NfaInst>, lo: nat, hi: nat, n: nat, pc: int, i: nat, a: seq<int>, q: int,
          j: nat, b: seq<int>)
    returns (out: int, k: nat, c: seq<int>)
    requires hi <= |nfa| && i <= |s.text| && n > 0 && Trace(s, nfa, lo, hi, n, pc, i, a, q, j, b)
    ensures lo <= pc < hi && Admits(s, nfa[pc], i)
    ensures out == nfa[pc].out1 || (nfa[pc].op.I_SPLIT? && out == nfa[pc].out2)
    ensures k == After(nfa[pc], i) && c == Saved(nfa[pc], a, i) && i <= k <= |s.text|
    ensures Trace(s, nfa, lo, hi, n - 1, out, k, c, q, j, b)
  {
    k, c := After(nfa[pc], i), Saved(nfa[pc], a, i);
    out := if Trace(s, nfa, lo, hi, n - 1, nfa[pc].out1, k, c, q, j, b) then nfa[pc].out1 else nfa[pc].out2;
  }

  lemma TraceCons(s: Subject, nfa: seq<NfaInst>, lo: nat, hi: nat, n: nat, pc: int, i: nat, a: seq<int>, out: int,
          q: int, j: nat, b: seq<int>)
    requires hi <= |nfa| && i <= |s.text| && lo <= pc < hi && Admits(s, nfa[pc], i) && After(nfa[pc], i) <= |s.text|
    requires out == nfa[pc].out1 || (nfa[pc].op.I_SPLIT? && out == nfa[pc].out2)
    requires Trace(s, nfa, lo, hi, n, out, After(nfa[pc], i), Saved(nfa[pc], a, i), q, j, b)
    ensures Trace(s, nfa, lo, hi, n + 1, pc, i, a, q, j, b)
  {
  }

  lemma TraceNone(s: Subject, nfa: seq<NfaInst>, lo: nat, hi: nat, pc: int, i: nat, a: seq<int>, q: int, j: nat,
          b: seq<int>)
    requires hi <= |nfa| && i <= |s.text|
    ensures Trace(s, nfa, lo, hi, 0, pc, i, a, q, j, b) <==> pc == q && i == j && a == b
  {
  }

  // Outside the instructions it may leave, a trace is over.
  lemma TraceOver(s: Subject, nfa: seq<NfaInst>, lo: nat, hi: nat, n: nat, pc: int, i: nat, a: seq<int>, q: int,
          j: nat, b: seq<int>)
    requires hi <= |nfa| && i <= |s.text| && !(lo <= pc < hi) && Trace(s, nfa, lo, hi, n, pc, i, a, q, j, b)
    ensures n == 0 && pc == q && i == j && a == b
  {
  }

  /** Without what it records, a trace is a run. */
  lemma {:induction false} TraceIsRun(s: Subject, nfa: seq<NfaInst>, lo: nat, hi: nat, n: nat, pc: int, i: nat,
          a: seq<int>, q: int, j: nat, b: seq<int>)
    requires hi <= |nfa| && i <= |s.text| && Trace(s, nfa, lo, hi, n, pc, i, a, q, j, b)
    ensures Run(s, nfa, lo, hi, n, pc, i, q, j) && i <= j <= |s.text| && |a| == |b|
    decreases n
  {
    hide Trace, Saved;
    TraceNone(s, nfa, lo, hi, pc, i, a, q, j, b);
    if n > 0 {
      var out, k, c := TraceHead(s, nfa, lo, hi, n, pc, i, a, q, j, b);
      TraceIsRun(s, nfa, lo, hi, n - 1, out, k, c, q, j, b);
    }
  }

  /** One more step at the far end. */
  lemma {:induction false} TraceSnoc(s: Subject, nfa: seq<NfaInst>, lo: nat, hi: nat, n: nat, pc: int, i: nat,
          a: seq<int>, q: int, j: nat, b: seq<int>, out: int)
    requires hi <= |nfa| && i <= |s.text| && j <= |s.text| && Trace(s, nfa, lo, hi, n, pc, i, a, q, j, b)
    requires lo <= q < hi && Admits(s, nfa[q], j)
    requires out == nfa[q].out1 || (nfa[q].op.I_SPLIT? && out == nfa[q].out2)
    ensures Trace(s, nfa, lo, hi, n + 1, pc, i, a, out, After(nfa[q], j), Saved(nfa[q], b, j))
    decreases n
  {
    hide Trace, Saved;
    TraceNone(s, nfa, lo, hi, pc, i, a, q, j, b);
    if n == 0 {
      var k, c := After(nfa[q], j), Saved(nfa[q], b, j);
      TraceNone(s, nfa, lo, hi, out, k, c, out, k, c);
      TraceCons(s, nfa, lo, hi, 0, pc, i, a, out, out, k, c);
    } else {
      var first, k, c := TraceHead(s, nfa, lo, hi, n, pc, i, a, q, j, b);
      TraceSnoc(s, nfa, lo, hi, n - 1, first, k, c, q, j, b, out);
      TraceCons(s, nfa, lo, hi, n, pc, i, a, first, out, After(nfa[q], j), Saved(nfa[q], b, j));
    }
  }

  /** A trace that starts inside a closed fragment first crosses it to its exit. */
  lemma {:induction false} TraceCross(s: Subject, nfa: seq<NfaInst>, lo: nat, hi: nat, x: nat, y: nat, out: int,
          n: nat, pc: int, i: nat, a: seq<int>, q: int, j: nat, b: seq<int>)
    returns (m: nat, k: nat, c: seq<int>)
    requires lo <= x <= y <= hi <= |nfa| && i <= |s.text|
    requires Closed(nfa, x, y, out) && !(x <= out < y) && !(x <= q < y) && Inside(x, y, out, pc)
    requires Trace(s, nfa, lo, hi, n, pc, i, a, q, j, b)
    ensures m <= n && k <= |s.text|
    ensures Trace(s, nfa, x, y, m, pc, i, a, out, k, c) && Trace(s, nfa, lo, hi, n - m, out, k, c, q, j, b)
    decreases n
  {
    hide Trace, Saved;
    TraceNone(s, nfa, lo, hi, pc, i, a, q, j, b);
    if pc == out {
      TraceNone(s, nfa, x, y, pc, i, a, out, i, a);
      return 0, i, a;
    }
    var first, i', a' := TraceHead(s, nfa, lo, hi, n, pc, i, a, q, j, b);
    m, k, c := TraceCross(s, nfa, lo, hi, x, y, out, n - 1, first, i', a', q, j, b);
    TraceCons(s, nfa, x, y, m, pc, i, a, first, out, k, c);
    m := m + 1;
  }

  /** I_MATCH is never left, so a trace to it stays in the code behind it. */
  lemma {:induction false} TraceSkipsMatch(s: Subject, nfa: seq<NfaInst>, n: nat, pc: int, i: nat, a: seq<int>, q: int,
          j: nat, b: seq<int>)
    requires |nfa| > 0 && nfa[0].op.I_MATCH? && i <= |s.text| && Trace(s, nfa, 0, |nfa|, n, pc, i, a, q, j, b)
    ensures Trace(s, nfa, 1, |nfa|, n, pc, i, a, q, j, b)
    decreases n
  {
    hide Trace, Saved;
    TraceNone(s, nfa, 0, |nfa|, pc, i, a, q, j, b);
    TraceNone(s, nfa, 1, |nfa|, pc, i, a, q, j, b);
    if n > 0 {
      var first, k, c := TraceHead(s, nfa, 0, |nfa|, n, pc, i, a, q, j, b);
      TraceSkipsMatch(s, nfa, n - 1, first, k, c, q, j, b);
      TraceCons(s, nfa, 1, |nfa|, n - 1, pc, i, a, first, q, j, b);
    }
  }

  // ---- what is recorded on the way through the code of a tree

  /** Every trace through the code of a tree, from its entry to its exit, is a match that records just that. */
  lemma {:induction false} TraceRecords(s: Subject, nfa: seq<NfaInst>, r: Regex, base: int, nsub: nat, out: int,
          lo: nat, n: nat, i: nat, a: seq<int>, j: nat, b: seq<int>)
    requires 0 <= out < lo && i <= |s.text| && Built(nfa, r, out, lo) && Formed(r, base, nsub) && 0 <= base
    requires |a| == 2 * (nsub + 1) && Trace(s, nfa, lo, lo + Weight(r), n, Entry(r, out, lo), i, a, out, j, b)
    ensures Records(s, r, i, a, j, b)
    decreases r, n, 1
  {
    hide Built, Weight, Entry, Trace, Records;
    match r
    case Empty => RecordsSimple(s, nfa, r, base, nsub, out, lo, n, i, a, j, b);
    case Leaf(_) => RecordsSimple(s, nfa, r, base, nsub, out, lo, n, i, a, j, b);
    case Concat(_, _) => RecordsConcat(s, nfa, r, base, nsub, out, lo, n, i, a, j, b);
    case Alt(_, _) => RecordsAlt(s, nfa, r, base, nsub, out, lo, n, i, a, j, b);
    case Star(_) => RecordsStar(s, nfa, r, base, nsub, out, lo, n, i, a, j, b);
    case Group(_, _) => RecordsGroup(s, nfa, r, base, nsub, out, lo, n, i, a, j, b);
  }

  lemma RecordsSimple(s: Subject, nfa: seq<NfaInst>, r: Regex, base: int, nsub: nat, out: int, lo: nat, n: nat, i: nat,
          a: seq<int>, j: nat, b: seq<int>)
    requires 0 <= out < lo && i <= |s.text| && Built(nfa, r, out, lo) && Formed(r, base, nsub) && (r.Empty? || r.Leaf?)
    requires |a| == 2 * (nsub + 1) && Trace(s, nfa, lo, lo + Weight(r), n, Entry(r, out, lo), i, a, out, j, b)
    ensures Records(s, r, i, a, j, b)
  {
    hide Trace;
    if r.Empty? {
      TraceOver(s, nfa, lo, lo, n, out, i, a, out, j, b);
    } else {
      TraceNone(s, nfa, lo, lo + 1, lo, i, a, out, j, b);
      var first, k, c := TraceHead(s, nfa, lo, lo + 1, n, lo, i, a, out, j, b);
      TraceOver(s, nfa, lo, lo + 1, n - 1, first, k, c, out, j, b);
    }
  }

  lemma {:induction false} RecordsConcat(s: Subject, nfa: seq<NfaInst>, r: Regex, base: int, nsub: nat, out: int,
          lo: nat, n: nat, i: nat, a: seq<int>, j: nat, b: seq<int>)
    requires 0 <= out < lo && i <= |s.text| && Built(nfa, r, out, lo) && Formed(r, base, nsub) && 0 <= base && r.Concat?
    requires |a| == 2 * (nsub + 1) && Trace(s, nfa, lo, lo + Weight(r), n, Entry(r, out, lo), i, a, out, j, b)
    ensures Records(s, r, i, a, j, b)
    decreases r, n, 0
  {
    hide Built, Weight, Entry, Closed, Trace, Records;
    var next, mid, hi := BuiltConcat(nfa, r, out, lo);
    BuiltShape(nfa, r.right, out, lo);
    BuiltShape(nfa, r.left, next, mid);
    var m, k, c := TraceCross(s, nfa, lo, hi, mid, hi, next, n, Entry(r.left, next, mid), i, a, out, j, b);
    TraceIsRun(s, nfa, mid, hi, m, Entry(r.left, next, mid), i, a, next, k, c);
    TraceRecords(s, nfa, r.left, base, nsub, next, mid, m, i, a, k, c);
    var m' := TraceWithin(s, nfa, lo, hi, lo, mid, out, n - m, next, k, c, j, b);
    TraceIsRun(s, nfa, lo, mid, m', next, k, c, out, j, b);
    TraceRecords(s, nfa, r.right, base, nsub, out, lo, m', k, c, j, b);
    ConcatRecords(s, r, i, a, k, c, j, b);
  }

  // A trace from inside a closed fragment to its exit, which does not come back.
  lemma TraceWithin(s: Subject, nfa: seq<NfaInst>, lo: nat, hi: nat, x: nat, y: nat, out: int, n: nat, pc: int, i: nat,
          a: seq<int>, j: nat, b: seq<int>)
    returns (m: nat)
    requires lo <= x <= y <= hi <= |nfa| && i <= |s.text| && !(lo <= out < hi)
    requires Closed(nfa, x, y, out) && Inside(x, y, out, pc) && Trace(s, nfa, lo, hi, n, pc, i, a, out, j, b)
    ensures m <= n && Trace(s, nfa, x, y, m, pc, i, a, out, j, b)
  {
    hide Trace, Closed;
    var k, c;
    m, k, c := TraceCross(s, nfa, lo, hi, x, y, out, n, pc, i, a, out, j, b);
    TraceOver(s, nfa, lo, hi, n - m, out, k, c, out, j, b);
  }

  lemma {:induction false} RecordsAlt(s: Subject, nfa: seq<NfaInst>, r: Regex, base: int, nsub: nat, out: int,
          lo: nat, n: nat, i: nat, a: seq<int>, j: nat, b: seq<int>)
    requires 0 <= out < lo && i <= |s.text| && Built(nfa, r, out, lo) && Formed(r, base, nsub) && 0 <= base && r.Alt?
    requires |a| == 2 * (nsub + 1) && Trace(s, nfa, lo, lo + Weight(r), n, Entry(r, out, lo), i, a, out, j, b)
    ensures Records(s, r, i, a, j, b)
    decreases r, n, 0
  {
    hide Built, Weight, Entry, Closed, Trace, Records;
    var mid, top := BuiltAlt(nfa, r, out, lo);
    BuiltShape(nfa, r.left, out, lo);
    BuiltShape(nfa, r.right, out, mid);
    TraceNone(s, nfa, lo, top + 1, top, i, a, out, j, b);
    TraceIsRun(s, nfa, lo, top + 1, n, top, i, a, out, j, b);
    var first, k, c := TraceHead(s, nfa, lo, top + 1, n, top, i, a, out, j, b);
    if first == nfa[top].out1 {
      var m := TraceWithin(s, nfa, lo, top + 1, lo, mid, out, n - 1, first, i, a, j, b);
      TraceRecords(s, nfa, r.left, base, nsub, out, lo, m, i, a, j, b);
      AltRecords(s, r, i, a, j, b);
    } else {
      var m := TraceWithin(s, nfa, lo, top + 1, mid, top, out, n - 1, first, i, a, j, b);
      TraceRecords(s, nfa, r.right, base, nsub, out, mid, m, i, a, j, b);
      AltRecords(s, r, i, a, j, b);
    }
  }

  lemma {:induction false} RecordsStar(s: Subject, nfa: seq<NfaInst>, r: Regex, base: int, nsub: nat, out: int,
          lo: nat, n: nat, i: nat, a: seq<int>, j: nat, b: seq<int>)
    requires 0 <= out < lo && i <= |s.text| && Built(nfa, r, out, lo) && Formed(r, base, nsub) && 0 <= base && r.Star?
    requires |a| == 2 * (nsub + 1) && Trace(s, nfa, lo, lo + Weight(r), n, Entry(r, out, lo), i, a, out, j, b)
    ensures Records(s, r, i, a, j, b)
    decreases r, n, 0
  {
    hide Built, Weight, Entry, Closed, Trace, Records;
    var entry, hi := BuiltStar(nfa, r, out, lo);
    TraceNone(s, nfa, lo, hi, lo, i, a, out, j, b);
    var first, k, c := TraceHead(s, nfa, lo, hi, n, lo, i, a, out, j, b);
    if first == entry {
      BuiltShape(nfa, r.body, lo, lo + 1);
      var m, k', c' := TraceCross(s, nfa, lo, hi, lo + 1, hi, lo, n - 1, entry, i, a, out, j, b);
      TraceIsRun(s, nfa, lo + 1, hi, m, entry, i, a, lo, k', c');
      TraceIsRun(s, nfa, lo, hi, n - 1 - m, lo, k', c', out, j, b);
      TraceRecords(s, nfa, r.body, base, nsub, lo, lo + 1, m, i, a, k', c');
      TraceRecords(s, nfa, r, base, nsub, out, lo, n - 1 - m, k', c', j, b);
      StarRecords(s, r.body, i, a, k', c', j, b);
    } else {
      TraceOver(s, nfa, lo, hi, n - 1, out, i, a, out, j, b);
      StarRecordsNone(s, r.body, i, a);
    }
  }

  lemma {:induction false} RecordsGroup(s: Subject, nfa: seq<NfaInst>, r: Regex, base: int, nsub: nat, out: int,
          lo: nat, n: nat, i: nat, a: seq<int>, j: nat, b: seq<int>)
    requires 0 <= out < lo && i <= |s.text| && Built(nfa, r, out, lo) && Formed(r, base, nsub) && 0 <= base && r.Group?
    requires |a| == 2 * (nsub + 1) && Trace(s, nfa, lo, lo + Weight(r), n, Entry(r, out, lo), i, a, out, j, b)
    ensures Records(s, r, i, a, j, b)
    decreases r, n, 0
  {
    hide Built, Weight, Entry, Closed, Trace, Records;
    var g, body := r.gid, r.body.left;
    var top := BuiltCapture(nfa, r, base, nsub, out, lo);
    BuiltShape(nfa, body, lo, lo + 1);
    TraceNone(s, nfa, lo, top + 1, top, i, a, out, j, b);
    var first, _, a' := TraceHead(s, nfa, lo, top + 1, n, top, i, a, out, j, b);
    var m, k, c := TraceCross(s, nfa, lo, top + 1, lo + 1, top, lo, n - 1, first, i, a', out, j, b);
    TraceIsRun(s, nfa, lo + 1, top, m, first, i, a', lo, k, c);
    TraceRecords(s, nfa, body, g, nsub, lo, lo + 1, m, i, a', k, c);
    TraceNone(s, nfa, lo, top + 1, lo, k, c, out, j, b);
    var last, k', b' := TraceHead(s, nfa, lo, top + 1, n - 1 - m, lo, k, c, out, j, b);
    TraceOver(s, nfa, lo, top + 1, n - 2 - m, last, k', b', out, j, b);
    GroupRecords(s, r, base, nsub, i, a, j, c, b);
  }
}
