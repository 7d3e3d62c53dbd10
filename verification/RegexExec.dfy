/** regexec: the compiled program, the thread lists, and the simulation that finds the
    leftmost-longest match. */
module RegexExec {
  import opened RegexSemantics
  import opened RegexAst
  import opened RegexNfa
  import opened RegexRecords
  import opened RegexCaptures

  const REG_NOMATCH := 1
  const STEP_LIMIT := 2000000000

  datatype Span = Span(so: int, eo: int)

  const NO_SPAN := Span(-1, -1)

  /** The recorded positions at the start: two for the match and for each group, all unset. */
  function Unset(nsub: nat): seq<int> {
    seq(2 * (nsub + 1), _ => -1)
  }

  /** The spans of a match from so to eo that recorded the positions `row`. */
  ghost predicate SpansOf(m: seq<Span>, row: seq<int>, so: int, eo: int) {
    && |row| == 2 * |m| && |m| > 0 && m[0] == Span(so, eo)
    && forall g {:trigger m[g]} | 1 <= g < |m| :: m[g] == Span(row[2 * g], row[2 * g + 1])
  }

  /** What regcomp leaves behind for regexec. */
  datatype Compiled = Compiled(nodes: seq<AstNode>, root: int, nsub: nat, noSub: bool) {
    ghost predicate Valid() {
      && ChildrenBelow(nodes) && NodeIn(nodes, root)
      && Formed(Tree(nodes, root), 0, nsub)
    }

    function Pattern(): Regex
      requires Valid()
    {
      Tree(nodes, root)
    }
  }

  /** Equally long rows of saved positions: the pool of a thread list, or the initial row. */
  class SaveRows {
    var rows: seq<seq<int>>

    constructor (count: nat, width: nat)
      ensures rows == seq(count, _ => seq(width, _ => -1))
    {
      rows := seq(count, _ => seq(width, _ => -1));
    }
  }

  /** The threads waiting for the next character; thread `k` keeps its positions in row `k`. */
  class ThreadList {
    var pcs: seq<int>
    const cap: nat
    const pool: SaveRows

    constructor (cap: nat, width: nat)
      ensures pcs == [] && this.cap == cap
      ensures fresh(pool) && pool.rows == seq(cap, _ => seq(width, _ => -1))
    {
      this.pcs := [];
      this.cap := cap;
      this.pool := new SaveRows(cap, width);
    }

    /** push_thread: a full list drops the thread. */
    method Push(pc: int, saves: SaveRows, row: nat)
      requires row < |saves.rows| && |pcs| <= cap == |pool.rows|
      modifies this`pcs, pool
      ensures old(|pcs|) < cap ==>
        pcs == old(pcs) + [pc] && pool.rows == old(pool.rows)[old(|pcs|) := old(saves.rows[row])]
      ensures old(|pcs|) == cap ==> pcs == old(pcs) && pool.rows == old(pool.rows)
    {
      if |pcs| >= cap {
        return;
      }
      pool.rows := pool.rows[|pcs| := saves.rows[row]];
      pcs := pcs + [pc];
    }
  }

  ghost predicate Distinct(s: seq<int>) {
    forall j, k | 0 <= j < k < |s| :: s[j] != s[k]
  }

  lemma {:induction false} DistinctBound(s: seq<int>, pool: set<int>)
    requires Distinct(s) && forall k | 0 <= k < |s| :: s[k] in pool
    ensures |s| <= |pool|
  {
    if s != [] {
      DistinctBound(s[1..], pool - {s[0]});
    }
  }

  ghost function Below(n: nat): (s: set<int>)
    ensures |s| == n && forall i :: i in s <==> 0 <= i < n
  {
    if n == 0 then {} else Below(n - 1) + {n - 1}
  }

  /** A list of different instructions that misses one of them is not full. */
  lemma NeverFull(pcs: seq<int>, pc: int, n: nat)
    requires Distinct(pcs) && pc !in pcs && 0 <= pc < n
    requires forall k | 0 <= k < |pcs| :: 0 <= pcs[k] < n
    ensures |pcs| < n
  {
    DistinctBound(pcs + [pc], Below(n));
  }

  class ExecCtx {
    const prog: seq<AstNode>
    const subject: Subject
    const nsub: nat
    var startPos: nat
    var bestLen: int
    var bestM: seq<Span>
    var nfa: seq<NfaInst>
    var handled: array<int>
    // The entry of the program (a local of regexec).
    var root: int

    constructor (prog: seq<AstNode>, subject: Subject, nsub: nat)
      ensures this.prog == prog && this.subject == subject && this.nsub == nsub
      ensures nfa == [] && fresh(handled)
    {
      this.prog := prog;
      this.subject := subject;
      this.nsub := nsub;
      startPos, bestLen, bestM, nfa := 0, -1, [], [];
      handled := new int[0];
      root := 0;
    }

    method NewInst(op: Opcode, v1: int, v2: int, out1: int, out2: int) returns (id: int)
      modifies this`nfa
      ensures id == |old(nfa)| && nfa == old(nfa) + [NfaInst(op, v1, v2, out1, out2)]
    {
      id := |nfa|;
      nfa := nfa + [NfaInst(op, v1, v2, out1, out2)];
    }

    /** build_nfa: appends the code of the tree under `node`, leaving every earlier instruction alone. */
    method BuildNfa(node: int, out: int) returns (entry: int)
      requires ChildrenBelow(prog) && NodeIn(prog, node) && 0 <= out < |nfa|
      modifies this`nfa
      ensures Appended(old(nfa), nfa, Tree(prog, node), out, entry) && 0 <= entry < |nfa|
      decreases node + 1
    {
      hide Appended;
      ghost var nfa0 := nfa;
      if node < 0 {
        AppendNothing(nfa, out);
        return out;
      }
      var n := prog[node];
      match n.op {
        case AST_EMPTY =>
          AppendNothing(nfa, out);
          entry := out;
        case AST_CHAR =>
          AppendLeaf(nfa, Chr(n.v1), out);
          entry := NewInst(I_CHAR, n.v1, 0, out, -1);
        case AST_ANY =>
          AppendLeaf(nfa, Any, out);
          entry := NewInst(I_ANY, 0, 0, out, -1);
        case AST_BOL =>
          AppendLeaf(nfa, Bol, out);
          entry := NewInst(I_BOL, 0, 0, out, -1);
        case AST_EOL =>
          AppendLeaf(nfa, Eol, out);
          entry := NewInst(I_EOL, 0, 0, out, -1);
        case AST_BRACKET =>
          AppendLeaf(nfa, Bracket(n.v1, n.v2), out);
          entry := NewInst(I_BRACKET, n.v1, n.v2, out, -1);
        case AST_BACKREF =>
          AppendLeaf(nfa, Backref(n.v1), out);
          entry := NewInst(I_BACKREF, n.v1, 0, out, -1);
        case AST_CONCAT =>
          var right := BuildNfa(n.right, out);
          ghost var nfa1 := nfa;
          entry := BuildNfa(n.left, right);
          AppendConcat(nfa0, nfa1, nfa, Tree(prog, n.left), Tree(prog, n.right), out, right, entry);
        case AST_ALT =>
          var left := BuildNfa(n.left, out);
          ghost var nfa1 := nfa;
          AppendedPrefix(nfa0, nfa, Tree(prog, n.left), out, left);
          var right := BuildNfa(n.right, out);
          AppendAlt(nfa0, nfa1, nfa, Tree(prog, n.left), Tree(prog, n.right), out, left, right);
          entry := NewInst(I_SPLIT, 0, 0, left, right);
        case AST_STAR =>
          var split := NewInst(I_SPLIT, 0, 0, -1, out);
          ghost var nfa1 := nfa;
          var body := BuildNfa(n.left, split);
          AppendedPrefix(nfa1, nfa, Tree(prog, n.left), split, body);
          AppendStar(nfa0, nfa1, nfa, Tree(prog, n.left), out, body);
          nfa := nfa[split := nfa[split].(out1 := body)];
          entry := split;
        case AST_GROUP =>
          var inner := BuildNfa(n.left, out);
          AppendGroup(nfa0, nfa, n.v1, Tree(prog, n.left), out, inner);
          entry := NewInst(I_SAVE, n.v1 * 2, 0, inner, -1);
        case AST_GROUP_END =>
          AppendLeaf(nfa, GroupEnd(n.v1), out);
          entry := NewInst(I_SAVE, n.v1 * 2 + 1, 0, out, -1);
      }
      AppendedEntry(nfa0, nfa, Tree(prog, node), out, entry);
    }

    // ---- what the simulation relies on, and keeps

    /** The program is fit to run: I_MATCH is instruction 0, every other instruction leads to
        instructions, and there are no back references. */
    ghost predicate Ready()
      reads this`nfa, this`handled, this`root
    {
      && |nfa| == handled.Length
      && 0 <= root < |nfa|
      && nfa[0].op.I_MATCH?
      && forall pc {:trigger nfa[pc]} | 0 < pc < |nfa| ::
           && SoundInst(nfa[pc], nsub)
           && 0 <= nfa[pc].out1 < |nfa|
           && (nfa[pc].op.I_SPLIT? ==> 0 <= nfa[pc].out2 < |nfa|)
    }

    /** Some path leads from the root at the start position to `q` at position `i`. */
    ghost predicate Reached(q: int, i: nat)
      requires startPos <= |subject.text|
      reads this`nfa, this`root, this`startPos
    {
      Path(subject, nfa, 0, |nfa|, root, startPos, q, i)
    }

    /** Some path leads there that records the positions `row`. */
    ghost predicate TracedTo(q: int, i: nat, row: seq<int>): (traced: bool)
      requires startPos <= |subject.text|
      reads this`nfa, this`root, this`startPos
      ensures traced ==> Reached(q, i) && |row| == 2 * (nsub + 1)
    {
      TracesReach(q, i, row);
      exists n: nat :: Trace(subject, nfa, 0, |nfa|, n, root, startPos, Unset(nsub), q, i, row)
    }

    lemma TracesReach(q: int, i: nat, row: seq<int>)
      requires startPos <= |subject.text|
      ensures (exists n: nat :: Trace(subject, nfa, 0, |nfa|, n, root, startPos, Unset(nsub), q, i, row)) ==>
        Reached(q, i) && |row| == 2 * (nsub + 1)
    {
      if n: nat :| Trace(subject, nfa, 0, |nfa|, n, root, startPos, Unset(nsub), q, i, row) {
        TraceIsRun(subject, nfa, 0, |nfa|, n, root, startPos, Unset(nsub), q, i, row);
      }
    }

    // Where an instruction leads, and what is recorded on the way.
    lemma TraceStep(pc: int, sp: nat, row: seq<int>)
      requires Ready() && startPos <= sp <= |subject.text| && 0 < pc < |nfa| && TracedTo(pc, sp, row)
      requires Admits(subject, nfa[pc], sp)
      ensures var inst := nfa[pc];
        var (k, saved) := (After(inst, sp), Saved(inst, row, sp));
        && TracedTo(inst.out1, k, saved) && (inst.op.I_SPLIT? ==> TracedTo(inst.out2, k, saved))
    {
      hide Trace;
      var n: nat :| Trace(subject, nfa, 0, |nfa|, n, root, startPos, Unset(nsub), pc, sp, row);
      TraceSnoc(subject, nfa, 0, |nfa|, n, root, startPos, Unset(nsub), pc, sp, row, nfa[pc].out1);
      if nfa[pc].op.I_SPLIT? {
        TraceSnoc(subject, nfa, 0, |nfa|, n, root, startPos, Unset(nsub), pc, sp, row, nfa[pc].out2);
      }
    }

    ghost predicate Stamped(q: int, step: int)
      requires 0 <= q < handled.Length
      reads this`handled, handled
    {
      handled[q] == step
    }

    /** `q` was reached at `sp`, and whatever it leads to without consuming is stamped too. */
    ghost predicate Settled(q: int, sp: nat, step: int)
      requires Ready() && startPos <= |subject.text| && sp <= |subject.text| && 0 <= q < |nfa|
      reads this`nfa, this`handled, this`root, this`startPos, handled
    {
      && Reached(q, sp)
      && (Admits(subject, nfa[q], sp) && !Consumes(nfa[q]) ==>
            && Stamped(nfa[q].out1, step)
            && (nfa[q].op.I_SPLIT? ==> Stamped(nfa[q].out2, step)))
    }

    /** The list holds stamped consuming instructions, each once, with positions recorded on the way there. */
    ghost predicate ListOk(l: ThreadList, sp: nat, step: int)
      requires Ready() && startPos <= |subject.text|
      reads this`nfa, this`handled, this`root, this`startPos, handled, l`pcs, l.pool
    {
      && l.cap == |l.pool.rows| == |nfa|
      && |l.pcs| <= l.cap
      && Distinct(l.pcs)
      && forall k {:trigger l.pcs[k]} | 0 <= k < |l.pcs| ::
           && 0 <= l.pcs[k] < |nfa| && Consumes(nfa[l.pcs[k]]) && Stamped(l.pcs[k], step)
           && TracedTo(l.pcs[k], sp, l.pool.rows[k])
    }

    /** The best match so far ends at startPos + bestLen, and its spans were recorded on a path there. */
    ghost predicate BestOk()
      requires startPos <= |subject.text|
      reads this`nfa, this`root, this`bestLen, this`bestM, this`startPos
    {
      && -1 <= bestLen
      && (bestM == [] || |bestM| == nsub + 1)
      && (bestLen >= 0 && bestM != [] ==> exists row :: BestFrom(row))
    }

    ghost predicate BestFrom(row: seq<int>)
      requires startPos <= |subject.text| && bestLen >= 0
      reads this`nfa, this`root, this`bestLen, this`bestM, this`startPos
    {
      TracedTo(0, startPos + bestLen, row) && SpansOf(bestM, row, startPos, startPos + bestLen)
    }

    /** The I_MATCH arm of add_thread: a longer match than any before from this start is kept. */
    method RecordMatch(saves: SaveRows, row: nat, sp: nat)
      requires startPos <= sp <= |subject.text| && row < |saves.rows| && TracedTo(0, sp, saves.rows[row])
      requires BestOk()
      modifies this`bestLen, this`bestM
      ensures BestOk() && (|bestM| == 0) == old(|bestM| == 0)
      ensures if sp - startPos > old(bestLen) then bestLen == sp - startPos
              else bestLen == old(bestLen) && bestM == old(bestM)
      ensures sp - startPos > old(bestLen) && bestM != [] ==> SpansOf(bestM, saves.rows[row], startPos, sp)
    {
      hide TracedTo;
      if sp - startPos > bestLen {
        bestLen := sp - startPos;
        if bestM != [] {
          bestM := bestM[0 := Span(startPos, sp)];
          for i := 1 to nsub + 1
            invariant |bestM| == nsub + 1 && bestM[0] == Span(startPos, sp) && bestLen == sp - startPos
            invariant forall g {:trigger bestM[g]} | 1 <= g < i ::
              bestM[g] == Span(saves.rows[row][2 * g], saves.rows[row][2 * g + 1])
          {
            bestM := bestM[i := Span(saves.rows[row][2 * i], saves.rows[row][2 * i + 1])];
          }
          assert BestFrom(saves.rows[row]);
        }
      }
    }

    /** The arm of add_thread for the instructions that wait for a character. */
    method Enlist(l: ThreadList, pc: int, saves: SaveRows, row: nat, sp: nat, step: int)
      requires Ready() && startPos <= |subject.text| && ListOk(l, sp, step) && saves != l.pool
      requires 0 <= pc < |nfa| && Consumes(nfa[pc]) && Stamped(pc, step) && pc !in l.pcs
      requires row < |saves.rows| && TracedTo(pc, sp, saves.rows[row])
      modifies l`pcs, l.pool
      ensures ListOk(l, sp, step) && l.pcs == old(l.pcs) + [pc]
    {
      NeverFull(l.pcs, pc, |nfa|);
      l.Push(pc, saves, row);
    }

    /** The instructions not yet met in this step: what makes the closure computation end, on any
        program, cyclic or not. */
    ghost function Todo(step: int): (s: set<int>)
      requires Ready()
      reads this`nfa, this`handled, this`root, handled
      ensures forall q :: q in s <==> 0 <= q < |nfa| && !Stamped(q, step)
    {
      set q | q in Below(|nfa|) && !Stamped(q, step)
    }

    /** What has happened since the stamps were `h0` and the list `pcs0`: only stamps of this step were
        added, everything newly stamped is settled, and newly stamped consumers were put on the list. */
    ghost predicate Progress(h0: seq<int>, pcs0: seq<int>, l: ThreadList, sp: nat, step: int)
      requires Ready() && startPos <= |subject.text| && sp <= |subject.text|
      reads this`nfa, this`handled, this`root, this`startPos, handled, l`pcs
    {
      && |h0| == |nfa| && pcs0 <= l.pcs
      && (forall q {:trigger h0[q]} {:trigger handled[q]} | 0 <= q < |nfa| ::
            handled[q] == h0[q] || (h0[q] != step && Stamped(q, step)))
      && (forall q {:trigger h0[q]} | 0 <= q < |nfa| && Stamped(q, step) && h0[q] != step ::
            Settled(q, sp, step) && (Consumes(nfa[q]) ==> q in l.pcs))
    }

    /** Since the stamps were `h0`, a match ending at `sp` was recorded exactly if I_MATCH was stamped. */
    ghost predicate BestProgress(h0: seq<int>, len0: int, m0: seq<Span>, sp: nat, step: int)
      requires Ready() && startPos <= |subject.text|
      reads this`nfa, this`handled, this`root, this`startPos, this`bestLen, this`bestM, handled
    {
      && BestOk() && (bestM == []) == (m0 == []) && |h0| == |nfa|
      && if Stamped(0, step) && h0[0] != step then bestLen == sp - startPos else bestLen == len0 && bestM == m0
    }

    /** A thread may be added at `pc`: the caller got there, with these positions. */
    ghost predicate Ripe(l: ThreadList, pc: int, saves: SaveRows, row: nat, sp: nat, step: int)
      reads this, handled, l`pcs, l.pool, saves
    {
      && Ready() && startPos <= sp <= |subject.text|
      && 0 <= pc < |nfa| && row < |saves.rows| && TracedTo(pc, sp, saves.rows[row])
      && ListOk(l, sp, step) && BestOk()
      && bestLen <= sp - startPos && (bestLen == sp - startPos ==> Stamped(0, step))
    }

    /** add_thread: follows every edge that consumes nothing, stamps what it meets, and leaves the
        consuming instructions on the list. */
    method AddThread(l: ThreadList, pc: int, saves: SaveRows, row: nat, sp: nat, step: int)
      requires saves != l.pool && Ripe(l, pc, saves, row, sp, step)
      modifies this`bestLen, this`bestM, handled, l`pcs, l.pool, saves
      ensures Ready() && ListOk(l, sp, step) && Stamped(pc, step)
      ensures Progress(old(handled[..]), old(l.pcs), l, sp, step)
      ensures BestProgress(old(handled[..]), old(bestLen), old(bestM), sp, step)
      ensures saves.rows == old(saves.rows)
      decreases Todo(step), 0
    {
      hide Path, TracedTo, Distinct, Admits;
      if pc < 0 || handled[pc] == step {
        return;
      }
      ghost var todo := Todo(step);
      handled[pc] := step;
      assert pc in todo && pc !in Todo(step);
      assert pc !in l.pcs;
      Dispatch(l, pc, saves, row, sp, step);
    }

    /** The switch of add_thread, on an instruction that has just been stamped. */
    method Dispatch(l: ThreadList, pc: int, saves: SaveRows, row: nat, sp: nat, step: int)
      requires saves != l.pool && Ripe(l, pc, saves, row, sp, step) && Stamped(pc, step) && pc !in l.pcs
      requires pc == 0 ==> bestLen < sp - startPos
      modifies this`bestLen, this`bestM, handled, l`pcs, l.pool, saves
      ensures Ready() && ListOk(l, sp, step) && Settled(pc, sp, step)
      ensures Consumes(nfa[pc]) ==> pc in l.pcs
      ensures Progress(old(handled[..]), old(l.pcs), l, sp, step)
      ensures pc > 0 ==> BestProgress(old(handled[..]), old(bestLen), old(bestM), sp, step)
      ensures pc == 0 ==> BestOk() && bestLen == sp - startPos && (bestM == []) == old(bestM == [])
      ensures saves.rows == old(saves.rows)
      decreases Todo(step), 2
    {
      hide Path, TracedTo, Distinct, Admits;
      MatchIsFinal(subject, nfa[pc], sp);
      match nfa[pc].op {
        case I_MATCH => RecordMatch(saves, row, sp);
        case I_JMP | I_SPLIT | I_BOL | I_EOL => FollowEdges(l, pc, saves, row, sp, step);
        case I_SAVE => FollowSave(l, pc, saves, row, sp, step);
        case I_CHAR | I_ANY | I_BRACKET => Enlist(l, pc, saves, row, sp, step);
        case I_BACKREF => assert false;
      }
    }

    /** The arms of add_thread for jumps, splits and anchors. */
    method FollowEdges(l: ThreadList, pc: int, saves: SaveRows, row: nat, sp: nat, step: int)
      requires saves != l.pool && Ripe(l, pc, saves, row, sp, step) && Stamped(pc, step)
      requires pc > 0 && !nfa[pc].op.I_SAVE? && !Consumes(nfa[pc])
      modifies this`bestLen, this`bestM, handled, l`pcs, l.pool, saves
      ensures Ready() && ListOk(l, sp, step) && Settled(pc, sp, step)
      ensures Progress(old(handled[..]), old(l.pcs), l, sp, step)
      ensures BestProgress(old(handled[..]), old(bestLen), old(bestM), sp, step)
      ensures saves.rows == old(saves.rows)
      decreases Todo(step), 1
    {
      hide Path, TracedTo, Distinct, SpansOf;
      var inst := nfa[pc];
      if Admits(subject, inst, sp) {
        TraceStep(pc, sp, saves.rows[row]);
        AddThread(l, inst.out1, saves, row, sp, step);
        if inst.op.I_SPLIT? {
          AddThread(l, inst.out2, saves, row, sp, step);
        }
      }
    }

    /** The I_SAVE arm of add_thread: the position is recorded for the rest of the path only. */
    method FollowSave(l: ThreadList, pc: int, saves: SaveRows, row: nat, sp: nat, step: int)
      requires saves != l.pool && Ripe(l, pc, saves, row, sp, step) && Stamped(pc, step)
      requires pc > 0 && nfa[pc].op.I_SAVE?
      modifies this`bestLen, this`bestM, handled, l`pcs, l.pool, saves
      ensures Ready() && ListOk(l, sp, step) && Settled(pc, sp, step)
      ensures Progress(old(handled[..]), old(l.pcs), l, sp, step)
      ensures BestProgress(old(handled[..]), old(bestLen), old(bestM), sp, step)
      ensures saves.rows == old(saves.rows)
      decreases Todo(step), 1
    {
      hide Path, TracedTo, Distinct, SpansOf;
      var inst := nfa[pc];
      TraceStep(pc, sp, saves.rows[row]);
      ghost var rows := saves.rows;
      var prev := saves.rows[row][inst.v1];
      saves.rows := saves.rows[row := saves.rows[row][inst.v1 := sp]];
      AddThread(l, inst.out1, saves, row, sp, step);
      saves.rows := saves.rows[row := saves.rows[row][inst.v1 := prev]];
      assert saves.rows[row] == rows[row];
    }

    // ---- the main loops

    /** The list holds exactly the consuming instructions reached at `sp`. */
    ghost predicate Frontier(l: ThreadList, sp: nat): (exact: bool)
      requires Ready() && startPos <= |subject.text|
      reads this`nfa, this`handled, this`root, this`startPos, handled, l`pcs, l.pool
      ensures exact ==> l.cap == |l.pool.rows| == |nfa|
    {
      && l.cap == |l.pool.rows| == |nfa|
      && (forall k {:trigger l.pcs[k]} | 0 <= k < |l.pcs| ::
            && 0 <= l.pcs[k] < |nfa| && Consumes(nfa[l.pcs[k]])
            && k < |nfa| && TracedTo(l.pcs[k], sp, l.pool.rows[k]))
      && (forall q | 0 <= q < |nfa| && Consumes(nfa[q]) && Reached(q, sp) :: q in l.pcs)
    }

    /** The stamps of this step mark exactly the instructions reached at `sp`. */
    ghost predicate Exact(sp: nat, step: int)
      requires Ready() && startPos <= |subject.text|
      reads this`nfa, this`handled, this`root, this`startPos, handled
    {
      forall q | 0 <= q < |nfa| :: Stamped(q, step) <==> Reached(q, sp)
    }

    /** The stamps are closed: they follow every edge at `sp`, and every edge that consumes the
        character before `sp`. */
    ghost predicate ClosedAt(sp: nat, step: int)
      requires Ready() && startPos <= sp <= |subject.text|
      reads this`nfa, this`handled, this`root, this`startPos, handled
    {
      && (sp == startPos ==> Stamped(root, step))
      && (forall q {:trigger Stamped(q, step)} | 0 <= q < |nfa| && Stamped(q, step) :: Settled(q, sp, step))
      && (sp > startPos ==> forall p {:trigger Reached(p, sp - 1)} |
            0 <= p < |nfa| && Consumes(nfa[p]) && Reached(p, sp - 1) && Admits(subject, nfa[p], sp - 1) ::
              Stamped(nfa[p].out1, step))
    }

    lemma {:induction false} ClosedIsComplete(n: nat, q: int, sp: nat, step: int)
      requires Ready() && startPos <= sp <= |subject.text| && ClosedAt(sp, step)
      requires Run(subject, nfa, 0, |nfa|, n, root, startPos, q, sp)
      ensures 0 <= q < |nfa| && Stamped(q, step)
      decreases n
    {
      if n > 0 {
        var p, k := RunLast(subject, nfa, 0, |nfa|, n, root, startPos, q, sp);
        MatchIsFinal(subject, nfa[p], k);
        RunSpan(subject, nfa, 0, |nfa|, n - 1, root, startPos, p, k);
        if Consumes(nfa[p]) {
          assert Reached(p, sp - 1);
        } else {
          ClosedIsComplete(n - 1, p, sp, step);
          assert Settled(p, sp, step);
        }
      }
    }

    lemma ClosedIsExact(sp: nat, step: int)
      requires Ready() && startPos <= sp <= |subject.text| && ClosedAt(sp, step)
      ensures Exact(sp, step)
    {
      forall q | 0 <= q < |nfa| && Reached(q, sp) ensures Stamped(q, step) {
        var n: nat :| Run(subject, nfa, 0, |nfa|, n, root, startPos, q, sp);
        ClosedIsComplete(n, q, sp, step);
      }
    }

    /** When the stamps are closed, the list is the frontier. */
    lemma ClosedIsFrontier(l: ThreadList, sp: nat, step: int)
      requires Ready() && startPos <= sp <= |subject.text| && ClosedAt(sp, step)
      requires ListOk(l, sp, step) && AllSettled(l, sp, step)
      ensures Exact(sp, step) && Frontier(l, sp)
    {
      hide Path, TracedTo, Admits;
      ClosedIsExact(sp, step);
    }

    /** Everything stamped in this step is settled, and the consumers among it are listed. */
    ghost predicate AllSettled(l: ThreadList, sp: nat, step: int)
      requires Ready() && startPos <= sp <= |subject.text|
      reads this`nfa, this`handled, this`root, this`startPos, handled, l`pcs
    {
      forall q {:trigger Stamped(q, step)} | 0 <= q < |nfa| && Stamped(q, step) ::
        Settled(q, sp, step) && (Consumes(nfa[q]) ==> q in l.pcs)
    }

    /** add_thread as regexec itself calls it, with no other call in progress. */
    method AddTop(l: ThreadList, pc: int, saves: SaveRows, row: nat, sp: nat, step: int)
      requires saves != l.pool && Ripe(l, pc, saves, row, sp, step) && AllSettled(l, sp, step)
      requires forall q | 0 <= q < |nfa| :: handled[q] <= step
      modifies this`bestLen, this`bestM, handled, l`pcs, l.pool, saves
      ensures Ready() && ListOk(l, sp, step) && Stamped(pc, step) && AllSettled(l, sp, step)
      ensures forall q | 0 <= q < |nfa| :: handled[q] <= step && (old(Stamped(q, step)) ==> Stamped(q, step))
      ensures saves.rows == old(saves.rows)
      ensures BestOk() && (bestM == []) == old(bestM == [])
      ensures if Stamped(0, step) && !old(Stamped(0, step)) then bestLen == sp - startPos
              else bestLen == old(bestLen)
    {
      hide Path, TracedTo, Distinct, Admits, Consumes;
      ghost var h0, pcs0 := handled[..], l.pcs;
      label before:
      AddThread(l, pc, saves, row, sp, step);
      forall q | 0 <= q < |nfa| && Stamped(q, step)
        ensures Settled(q, sp, step) && (Consumes(nfa[q]) ==> q in l.pcs)
      {
        if h0[q] == step {
          assert old@before(Stamped(q, step));
          if q > 0 {
            assert h0[nfa[q].out1] == step ==> Stamped(nfa[q].out1, step);
            assert nfa[q].op.I_SPLIT? && h0[nfa[q].out2] == step ==> Stamped(nfa[q].out2, step);
          } else {
            MatchIsFinal(subject, nfa[q], sp);
          }
        }
      }
    }

    /** `len` is the length of the longest match from the start position that ends by `sp`, -1 if there is none. */
    ghost predicate Longest(len: int, sp: nat)
      requires startPos <= |subject.text|
      reads this`nfa, this`root, this`startPos
    {
      && (len >= 0 ==> startPos + len <= sp && Reached(0, startPos + len))
      && forall j: nat {:trigger Reached(0, j)} | startPos + len < j <= sp :: !Reached(0, j)
    }

    ghost predicate BestBy(sp: nat)
      requires startPos <= |subject.text|
      reads this`nfa, this`root, this`startPos, this`bestLen
    {
      Longest(bestLen, sp)
    }

    /** Between two passes: `cur` is the frontier at `sp`, `next` is free, no stamp is newer than `step`. */
    ghost predicate AtPosition(cur: ThreadList, next: ThreadList, sp: nat, step: int)
      reads this, handled, cur`pcs, cur.pool, next.pool
    {
      && Ready() && startPos <= sp <= |subject.text| && cur != next && cur.pool != next.pool
      && Frontier(cur, sp) && next.cap == |next.pool.rows| == |nfa|
      && BestOk() && bestLen <= sp - startPos && BestBy(sp)
      && forall q {:trigger handled[q]} | 0 <= q < |nfa| :: handled[q] <= step
    }

    /** In the middle of a pass: `i` threads of `cur` have been followed into `next`; before the pass the best
        length was `len`. */
    ghost predicate Passing(cur: ThreadList, next: ThreadList, sp: nat, step: int, i: nat, len: int)
      reads this, handled, cur`pcs, cur.pool, next`pcs, next.pool
    {
      && Ready() && startPos <= sp < |subject.text| && cur != next && cur.pool != next.pool && i <= |cur.pcs|
      && Frontier(cur, sp) && ListOk(next, sp + 1, step) && AllSettled(next, sp + 1, step)
      && BestOk() && Longest(len, sp) && -1 <= len <= sp - startPos
      && bestLen == (if Stamped(0, step) then sp + 1 - startPos else len)
      && (forall q {:trigger handled[q]} | 0 <= q < |nfa| :: handled[q] <= step)
      && (forall k {:trigger cur.pcs[k]} | 0 <= k < i && Admits(subject, nfa[cur.pcs[k]], sp) ::
            Stamped(nfa[cur.pcs[k]].out1, step))
    }

    // One thread of a pass.
    method FollowThread(cur: ThreadList, next: ThreadList, sp: nat, step: int, i: nat, ghost len: int)
      requires i < |cur.pcs| && Passing(cur, next, sp, step, i, len)
      modifies this`bestLen, this`bestM, handled, next`pcs, next.pool, cur.pool
      ensures Passing(cur, next, sp, step, i + 1, len) && (bestM == []) == old(bestM == [])
    {
      hide Path, TracedTo, SpansOf, Settled, Longest, BestOk, Consumes, Distinct;
      var pc := cur.pcs[i];
      if Admits(subject, nfa[pc], sp) {
        RipeNext(cur, next, sp, step, i, len);
        AddTop(next, nfa[pc].out1, cur.pool, i, sp + 1, step);
      }
    }

    // A thread of the frontier that admits the character is ripe behind it.
    lemma RipeNext(cur: ThreadList, next: ThreadList, sp: nat, step: int, i: nat, len: int)
      requires i < |cur.pcs| && Passing(cur, next, sp, step, i, len) && Admits(subject, nfa[cur.pcs[i]], sp)
      ensures Ripe(next, nfa[cur.pcs[i]].out1, cur.pool, i, sp + 1, step)
    {
      hide Path, TracedTo, SpansOf, Settled, Longest, Distinct;
      var pc := cur.pcs[i];
      TraceStep(pc, sp, cur.pool.rows[i]);
    }

    lemma PassBegun(cur: ThreadList, next: ThreadList, sp: nat, step: int)
      requires sp < |subject.text| && AtPosition(cur, next, sp, step - 1) && next.pcs == []
      ensures Passing(cur, next, sp, step, 0, bestLen)
    {
      hide Path, TracedTo, SpansOf, Settled, Longest;
    }

    lemma PassDone(cur: ThreadList, next: ThreadList, sp: nat, step: int, len: int)
      requires Passing(cur, next, sp, step, |cur.pcs|, len)
      ensures AtPosition(next, cur, sp + 1, step)
    {
      hide Path, TracedTo, SpansOf, Settled, Distinct;
      ClosedIsFrontier(next, sp + 1, step);
    }

    /** One pass over the current list: every thread that can consume the character at `sp` is
        followed into `next`. */
    method Advance(cur: ThreadList, next: ThreadList, sp: nat, step: int)
      requires sp < |subject.text| && AtPosition(cur, next, sp, step - 1)
      modifies this`bestLen, this`bestM, handled, next`pcs, next.pool, cur.pool
      ensures AtPosition(next, cur, sp + 1, step) && (bestM == []) == old(bestM == [])
    {
      hide Passing, Frontier, Ready, BestOk, BestBy;
      next.pcs := [];
      ghost var len := bestLen;
      PassBegun(cur, next, sp, step);
      for i := 0 to |cur.pcs|
        invariant Passing(cur, next, sp, step, i, len) && (bestM == []) == old(bestM == [])
      {
        FollowThread(cur, next, sp, step, i, len);
      }
      PassDone(cur, next, sp, step, len);
    }

    /** With nobody waiting for the character at `sp`, no match ends later. */
    lemma NothingLater(l: ThreadList, sp: nat, j: nat)
      requires Ready() && startPos <= sp < j && sp < |subject.text| && Frontier(l, sp) && l.pcs == []
      ensures !Reached(0, j)
    {
      if n: nat :| Run(subject, nfa, 0, |nfa|, n, root, startPos, 0, j) {
        RunSpan(subject, nfa, 0, |nfa|, n, root, startPos, 0, j);
        var p := RunCrosses(subject, nfa, 0, |nfa|, n, root, startPos, 0, j, sp);
        assert Reached(p, sp);
      }
    }

    /** The first closure: the threads of the start position itself. */
    method Seed(cur: ThreadList, next: ThreadList, init: SaveRows, step: int)
      requires Ready() && startPos <= |subject.text| && init != cur.pool && init != next.pool
      requires cur != next && cur.pool != next.pool
      requires cur.pcs == [] && cur.cap == |cur.pool.rows| == |nfa| && next.cap == |next.pool.rows| == |nfa|
      requires init.rows == [Unset(nsub)]
      requires forall q | 0 <= q < |nfa| :: handled[q] < step
      requires BestOk() && bestLen == -1
      modifies this`bestLen, this`bestM, handled, cur`pcs, cur.pool, init
      ensures AtPosition(cur, next, startPos, step) && (bestM == []) == old(bestM == [])
      ensures init.rows == old(init.rows)
    {
      TraceNone(subject, nfa, 0, |nfa|, root, startPos, Unset(nsub), root, startPos, Unset(nsub));
      assert TracedTo(root, startPos, Unset(nsub));
      AddTop(cur, root, init, 0, startPos, step);
      ClosedIsFrontier(cur, startPos, step);
    }

    /** A new generation of stamps; they start over before the counter gets too large. */
    method NextStart(step0: int) returns (step: int)
      requires Ready() && 0 <= step0 && forall q | 0 <= q < |nfa| :: handled[q] <= step0
      modifies handled
      ensures Ready() && 0 < step <= STEP_LIMIT && forall q | 0 <= q < |nfa| :: handled[q] < step
    {
      step := step0 + 1;
      if step >= STEP_LIMIT {
        forall q | 0 <= q < handled.Length {
          handled[q] := 0;
        }
        step := 1;
      }
    }

    /** The loop over text positions: bestLen ends up as the length of the longest match from the
        start position, or -1. */
    method Simulate(list1: ThreadList, list2: ThreadList, step0: int) returns (step: int)
      requires AtPosition(list1, list2, startPos, step0)
      modifies this`bestLen, this`bestM, handled, list1`pcs, list1.pool, list2`pcs, list2.pool
      ensures Ready() && BestBy(|subject.text|) && BestOk() && (bestM == []) == old(bestM == [])
      ensures |list1.pool.rows| == |nfa| && |list2.pool.rows| == |nfa|
      ensures forall q | 0 <= q < |nfa| :: handled[q] <= step
      ensures step0 <= step <= step0 + |subject.text| + 1
    {
      hide Path, TracedTo, SpansOf, Distinct, Frontier;
      step := step0;
      var cur, next := list1, list2;
      var sp := startPos;
      while sp < |subject.text| && cur.pcs != []
        invariant (cur == list1 && next == list2) || (cur == list2 && next == list1)
        invariant AtPosition(cur, next, sp, step) && (bestM == []) == old(bestM == [])
        invariant step == step0 + (sp - startPos)
      {
        step := step + 1;
        Advance(cur, next, sp, step);
        cur, next := next, cur;
        sp := sp + 1;
      }
      if sp < |subject.text| {
        forall j: nat | sp < j ensures !Reached(0, j) {
          NothingLater(cur, sp, j);
        }
      } else if cur.pcs != [] {
        // At the end of the text no thread can consume; the list runs empty and the loop ends.
        next.pcs := [];
        step := step + 1;
      }
    }

    // ---- whole programs

    /** The program is I_MATCH followed by the code of `r`, ready to run. */
    ghost predicate Runs(r: Regex)
      reads this`nfa, this`handled, this`root
    {
      && Ready() && |nfa| == 1 + Weight(r) && Built(nfa, r, 0, 1) && root == Entry(r, 0, 1)
    }

    /** The working storage is in shape: separate lists of full size, the initial row unset, no
        stamp newer than `step`. */
    ghost predicate Idle(list1: ThreadList, list2: ThreadList, init: SaveRows, step: int)
      reads this, handled, list1.pool, list2.pool, init
    {
      && list1 != list2 && list1.pool != list2.pool && init != list1.pool && init != list2.pool
      && list1.cap == |list1.pool.rows| == |nfa| && list2.cap == |list2.pool.rows| == |nfa|
      && init.rows == [Unset(nsub)]
      && handled.Length == |nfa| && 0 <= step
      && forall q {:trigger handled[q]} | 0 <= q < |nfa| :: handled[q] <= step
    }

    /** Code laid down behind I_MATCH is fit to run. */
    lemma MakeReady(r: Regex)
      requires Appended([NfaInst(I_MATCH, 0, 0, -1, -1)], nfa, r, 0, root) && handled.Length == |nfa|
      requires Formed(r, 0, nsub) && NoBackref(r)
      ensures Runs(r)
    {
      hide Built, Entry, SoundInst, Formed, Closed;
      BuiltShape(nfa, r, 0, 1);
      forall pc | 0 < pc < |nfa|
        ensures SoundInst(nfa[pc], nsub) && 0 <= nfa[pc].out1 < |nfa|
        ensures nfa[pc].op.I_SPLIT? ==> 0 <= nfa[pc].out2 < |nfa|
      {
        CodeSound(nfa, r, 0, nsub, 0, 1, pc);
        ClosedAtInst(nfa, 1, |nfa|, 0, pc);
      }
    }

    /** What the best length found from a start position says about matches. */
    lemma BestIsLongest(r: Regex, j: nat)
      requires Runs(r) && startPos <= |subject.text| && BestBy(|subject.text|) && -1 <= bestLen
      ensures bestLen >= 0 ==> Matches(subject, r, startPos, startPos + bestLen)
      ensures bestLen < 0 || startPos + bestLen < j ==> !Matches(subject, r, startPos, j)
    {
      hide Path, Built, Entry, Matches;
      if bestLen >= 0 {
        ProgramCorrect(subject, nfa, r, startPos, startPos + bestLen);
      }
      ProgramCorrect(subject, nfa, r, startPos, j);
      if Matches(subject, r, startPos, j) {
        MatchSpan(subject, r, startPos, j);
        assert Reached(0, j);
      }
    }

    /** The spans of the best match are what a match there records. */
    lemma BestSpans(r: Regex)
      requires Runs(r) && startPos <= |subject.text| && BestOk() && bestLen >= 0 && bestM != []
      requires Formed(r, 0, nsub) && startPos + bestLen <= |subject.text|
      ensures SpansOk(subject, r, nsub, bestM, startPos, startPos + bestLen)
    {
      hide Built, Entry, Formed, Trace, Records;
      var end := startPos + bestLen;
      var row :| BestFrom(row);
      var n: nat :| Trace(subject, nfa, 0, |nfa|, n, root, startPos, Unset(nsub), 0, end, row);
      TraceSkipsMatch(subject, nfa, n, root, startPos, Unset(nsub), 0, end, row);
      TraceRecords(subject, nfa, r, 0, nsub, 0, 1, n, startPos, Unset(nsub), end, row);
    }

    // What the simulation from one start position comes to.
    lemma Settle(r: Regex)
      requires Runs(r) && Formed(r, 0, nsub) && startPos <= |subject.text| && BestBy(|subject.text|) && BestOk()
      ensures bestLen >= 0 && bestM != [] ==> SpansOk(subject, r, nsub, bestM, startPos, startPos + bestLen)
      ensures bestLen >= 0 ==> Matches(subject, r, startPos, startPos + bestLen)
      ensures forall j: nat | bestLen < 0 || startPos + bestLen < j :: !Matches(subject, r, startPos, j)
    {
      hide Path, TracedTo, Built, Entry, Matches, SpansOf, SpansOk, Formed;
      if bestLen >= 0 {
        BestIsLongest(r, startPos + bestLen);
        MatchSpan(subject, r, startPos, startPos + bestLen);
        if bestM != [] {
          BestSpans(r);
        }
      }
      forall j: nat | bestLen < 0 || startPos + bestLen < j ensures !Matches(subject, r, startPos, j) {
        BestIsLongest(r, j);
      }
    }

    /** All matches from one start position: bestLen ends up as the length of the longest, or -1. */
    method MatchFrom(ghost r: Regex, start: nat, list1: ThreadList, list2: ThreadList, init: SaveRows, step0: int)
      returns (step: int)
      requires Runs(r) && Formed(r, 0, nsub) && start <= |subject.text| && Idle(list1, list2, init, step0)
      requires bestM == [] || |bestM| == nsub + 1
      modifies this`startPos, this`bestLen, this`bestM, handled, list1`pcs, list1.pool, list2`pcs, list2.pool, init
      ensures Runs(r) && Idle(list1, list2, init, step) && startPos == start
      ensures step <= STEP_LIMIT + |subject.text| + 1
      ensures (bestM == [] || |bestM| == nsub + 1) && (bestM == []) == old(bestM == []) && -1 <= bestLen
      ensures bestLen >= 0 && bestM != [] ==> SpansOk(subject, r, nsub, bestM, start, start + bestLen)
      ensures bestLen >= 0 ==> Matches(subject, r, start, start + bestLen)
      ensures forall j: nat | bestLen < 0 || start + bestLen < j :: !Matches(subject, r, start, j)
    {
      hide Path, TracedTo, Built, Entry, Matches, Frontier, SpansOf, SpansOk, Formed;
      startPos, bestLen := start, -1;
      bestM := seq(|bestM|, _ => NO_SPAN);
      list1.pcs := [];
      step := NextStart(step0);
      Seed(list1, list2, init, step);
      step := Simulate(list1, list2, step);
      Settle(r);
    }
  }

  /** `so`..`eo` is a match, none starts further left, and none that starts there ends further right. */
  ghost predicate LeftmostLongest(s: Subject, r: Regex, so: int, eo: int) {
    && 0 <= so <= eo <= |s.text| && Matches(s, r, so, eo)
    && (forall i: nat, j: nat | i < so :: !Matches(s, r, i, j))
    && (forall j: nat | eo < j :: !Matches(s, r, so, j))
  }

  /** The spans are those of a match from so to eo, with what it records for the groups. */
  ghost predicate SpansOk(s: Subject, r: Regex, nsub: nat, m: seq<Span>, so: nat, eo: nat) {
    so <= |s.text| && |m| == nsub + 1 &&
      exists row {:trigger Records(s, r, so, Unset(nsub), eo, row)} ::
        Records(s, r, so, Unset(nsub), eo, row) && SpansOf(m, row, so, eo)
  }

  /** The spans reported are those of a match that records `row`, and unset beyond the groups of the pattern. */
  ghost predicate Reported(s: Subject, r: Regex, nsub: nat, m: seq<Span>, row: seq<int>) {
    && |m| > 0 && |row| == 2 * (nsub + 1) && 0 <= m[0].so <= m[0].eo <= |s.text|
    && Records(s, r, m[0].so, Unset(nsub), m[0].eo, row)
    && forall g {:trigger m[g]} | 1 <= g < |m| ::
         m[g] == if g <= nsub then Span(row[2 * g], row[2 * g + 1]) else NO_SPAN
  }

  /** So the span of a group is unset, or inside the match and where the body of a group of that number matched; and
      it is set if the group is under no alternative and no star. */
  lemma GroupsReported(s: Subject, r: Regex, nsub: nat, m: seq<Span>, row: seq<int>, g: nat)
    requires Reported(s, r, nsub, m, row) && Formed(r, 0, nsub) && 1 <= g < |m| && g <= nsub
    ensures m[g] == NO_SPAN || (m[0].so <= m[g].so && m[g].eo <= m[0].eo && Captured(s, r, g, m[g].so, m[g].eo))
    ensures Certain(r, g) ==> m[0].so <= m[g].so <= m[g].eo <= m[0].eo
  {
    hide Records, Captured, Formed;
    RecordsAreMatches(s, r, 0, nsub, m[0].so, Unset(nsub), m[0].eo, row);
    assert row[2 * g] == m[g].so && row[2 * g + 1] == m[g].eo;
    if Certain(r, g) {
      CertainRecorded(s, r, 0, nsub, g, m[0].so, Unset(nsub), m[0].eo, row);
    }
  }

  /** The copy of the result to the caller: spans beyond the groups of the pattern are unset. */
  method Report(bestM: seq<Span>, nmatch: nat, pmatch: array<Span>)
    requires nmatch <= pmatch.Length
    modifies pmatch
    ensures forall g | 0 <= g < nmatch :: pmatch[g] == if g < |bestM| then bestM[g] else NO_SPAN
    ensures forall g | nmatch <= g < pmatch.Length :: pmatch[g] == old(pmatch[g])
  {
    var copied := if nmatch < |bestM| then nmatch else |bestM|;
    for i := 0 to copied
      invariant forall g | 0 <= g < i :: pmatch[g] == bestM[g]
      invariant forall g | i <= g < pmatch.Length :: pmatch[g] == old(pmatch[g])
    {
      pmatch[i] := bestM[i];
    }
    for i := copied to nmatch
      invariant forall g | 0 <= g < i :: pmatch[g] == if g < |bestM| then bestM[g] else NO_SPAN
      invariant forall g | i <= g < pmatch.Length :: pmatch[g] == old(pmatch[g])
    {
      pmatch[i] := NO_SPAN;
    }
  }

  // The copy of the spans of a match, cut or filled up.
  lemma CopyReported(s: Subject, r: Regex, nsub: nat, bestM: seq<Span>, so: nat, eo: nat, m: seq<Span>)
    requires SpansOk(s, r, nsub, bestM, so, eo) && so <= eo <= |s.text| && |m| > 0
    requires forall g | 0 <= g < |m| :: m[g] == if g < |bestM| then bestM[g] else NO_SPAN
    ensures exists row :: Reported(s, r, nsub, m, row)
  {
    hide Records;
    var row :| Records(s, r, so, Unset(nsub), eo, row) && SpansOf(bestM, row, so, eo);
    assert Reported(s, r, nsub, m, row);
  }

  /** The part of regexec that compiles the tree. */
  method Prepare(preg: Compiled, subject: Subject) returns (ex: ExecCtx)
    requires preg.Valid() && NoBackref(preg.Pattern())
    ensures fresh(ex) && fresh(ex.handled) && ex.subject == subject && ex.nsub == preg.nsub
    ensures ex.Runs(preg.Pattern()) && forall q | 0 <= q < ex.handled.Length :: ex.handled[q] == 0
  {
    hide Built, Entry, Weight, Appended, Formed, NoBackref;
    ex := new ExecCtx(preg.nodes, subject, preg.nsub);
    var matchPc := ex.NewInst(I_MATCH, 0, 0, -1, -1);
    assert ex.nfa == [NfaInst(I_MATCH, 0, 0, -1, -1)];
    ex.root := ex.BuildNfa(preg.root, matchPc);
    ex.handled := new int[|ex.nfa|](_ => 0);
    ex.MakeReady(preg.Pattern());
  }

  /** What regexec promises: the answer, the spans it reports, and that it writes nothing else. */
  ghost predicate Answer(s: Subject, r: Regex, nsub: nat, report: bool, nmatch: nat, before: seq<Span>, ret: int,
      after: seq<Span>)
    requires |before| == |after| && (report ==> 0 < nmatch <= |after|)
  {
    && (ret == 0 || ret == REG_NOMATCH)
    // 0 exactly when the pattern matches somewhere.
    && (ret == 0 <==> exists i: nat, j: nat :: i <= |s.text| && Matches(s, r, i, j))
    // The reported span is the leftmost-longest match, and the groups are what a match there records.
    && (ret == 0 && report ==>
          && LeftmostLongest(s, r, after[0].so, after[0].eo)
          && (exists row :: Reported(s, r, nsub, after[..nmatch], row))
          && after[nmatch..] == before[nmatch..])
    && (ret != 0 || !report ==> after == before)
  }

  ghost function Contents(a: array?<Span>): seq<Span>
    reads a
  {
    if a == null then [] else a[..]
  }

  predicate Reports(noSub: bool, nmatch: nat, pmatch: array?<Span>) {
    !noSub && nmatch > 0 && pmatch != null
  }

  /** The loop over start positions. */
  method Search(ex: ExecCtx, ghost r: Regex, clist: ThreadList, nlist: ThreadList, init: SaveRows, nmatch: nat,
          pmatch: array?<Span>)
    returns (ret: int)
    requires ex.Runs(r) && Formed(r, 0, ex.nsub) && ex.Idle(clist, nlist, init, 0)
    requires (ex.bestM == [] || |ex.bestM| == ex.nsub + 1)
    requires pmatch != null ==> nmatch <= pmatch.Length
    modifies ex, ex.handled, clist, clist.pool, nlist, nlist.pool, init
    modifies if pmatch == null then {} else {pmatch}
    ensures Answer(ex.subject, r, ex.nsub, Reports(old(ex.bestM == []), nmatch, pmatch), nmatch,
                   old(Contents(pmatch)), ret, Contents(pmatch))
  {
    hide Matches, Records, ExecCtx.Ready, ExecCtx.Runs, ExecCtx.Idle, Formed;
    ghost var noSub := ex.bestM == [];
    var step, start := 0, 0;
    while start <= |ex.subject.text|
      invariant ex.Runs(r) && ex.Idle(clist, nlist, init, step) && start <= |ex.subject.text| + 1
      invariant ex.handled == old(ex.handled)
      invariant (ex.bestM == []) == noSub && (ex.bestM == [] || |ex.bestM| == ex.nsub + 1)
      invariant forall i: nat, j: nat | i < start :: !Matches(ex.subject, r, i, j)
      invariant Contents(pmatch) == old(Contents(pmatch))
    {
      step := ex.MatchFrom(r, start, clist, nlist, init, step);
      if ex.bestLen != -1 {
        assert Matches(ex.subject, r, start, start + ex.bestLen);
        MatchSpan(ex.subject, r, start, start + ex.bestLen);
        if ex.bestM != [] && nmatch > 0 && pmatch != null {
          Report(ex.bestM, nmatch, pmatch);
          CopyReported(ex.subject, r, ex.nsub, ex.bestM, start, start + ex.bestLen, pmatch[..nmatch]);
        }
        return 0;
      }
      start := start + 1;
    }
    return REG_NOMATCH;
  }

  /** regexec, on a program without back references. */
  method Regexec(preg: Compiled, subject: Subject, nmatch: nat, pmatch: array?<Span>) returns (ret: int)
    requires preg.Valid() && NoBackref(preg.Pattern())
    requires pmatch != null ==> nmatch <= pmatch.Length
    modifies if pmatch == null then {} else {pmatch}
    ensures Answer(subject, preg.Pattern(), preg.nsub, Reports(preg.noSub, nmatch, pmatch), nmatch,
                   old(Contents(pmatch)), ret, Contents(pmatch))
  {
    hide Tree, Formed, NoBackref;
    ghost var r := preg.Pattern();
    var ex := Prepare(preg, subject);
    var width := 2 * (preg.nsub + 1);
    var clist := new ThreadList(|ex.nfa|, width);
    var nlist := new ThreadList(|ex.nfa|, width);
    var init := new SaveRows(1, width);
    ex.bestM := if preg.noSub then [] else seq(preg.nsub + 1, _ => NO_SPAN);
    assert init.rows == [seq(width, _ => -1)];
    ret := Search(ex, r, clist, nlist, init, nmatch, pmatch);
  }
}
