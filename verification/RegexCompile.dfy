/** regcomp: the recursive-descent parser that emits the node array. Every method is proved to
    read exactly what the grammar says and to leave the grammar's tree in the array. */
module RegexCompile {
  import opened RegexSemantics
  import opened RegexAst
  import opened RegexNfa
  import opened RegexGrammar
  import opened RegexVerdict
  import opened CStrings
  import opened RegexShape
  import opened RegexExec

  function Kids(n: AstNode): set<int> {
    {n.left, n.right} - {-1}
  }

  /** Nobody points at node `x`. */
  predicate Orphan(prog: seq<AstNode>, x: int) {
    forall k {:trigger prog[k]} | 0 <= k < |prog| :: x !in Kids(prog[k])
  }

  /** Children have smaller indices than their parents, and no node has two parents (or is twice the
      child of one). */
  ghost predicate Forest(prog: seq<AstNode>): (forest: bool)
    ensures forest ==> ChildrenBelow(prog)
  {
    && ChildrenBelow(prog)
    && (forall k {:trigger prog[k]} | 0 <= k < |prog| :: prog[k].left == -1 || prog[k].left != prog[k].right)
    && (forall j, k {:trigger prog[j], prog[k]} | 0 <= j < k < |prog| :: Kids(prog[j]) !! Kids(prog[k]))
  }

  /** The nodes from `lo` on point at nodes from `lo` on only. */
  predicate OwnKids(prog: seq<AstNode>, lo: nat) {
    forall k, x {:trigger x in Kids(prog[k])} | lo <= k < |prog| && x in Kids(prog[k]) :: lo <= x
  }

  /** `prog` extends `prog0` by nodes of its own, the last tree of which is `r`, rooted at `root`. */
  ghost predicate Grown(prog0: seq<AstNode>, prog: seq<AstNode>, root: int, r: Regex) {
    && prog0 <= prog && Forest(prog) && OwnKids(prog, |prog0|)
    && |prog0| <= root < |prog| && Orphan(prog, root)
    && Tree(prog, root) == r && Weight(r) <= |prog| - |prog0|
  }

  function NodeTree(op: AstOp, v1: int, v2: int, left: Regex, right: Regex): Regex {
    match op
    case AST_EMPTY => Empty
    case AST_CHAR => Leaf(Chr(v1))
    case AST_ANY => Leaf(Any)
    case AST_BOL => Leaf(Bol)
    case AST_EOL => Leaf(Eol)
    case AST_BRACKET => Leaf(RegexSemantics.Bracket(v1, v2))
    case AST_BACKREF => Leaf(Backref(v1))
    case AST_CONCAT => Concat(left, right)
    case AST_ALT => Alt(left, right)
    case AST_STAR => Star(left)
    case AST_GROUP => Group(v1, left)
    case AST_GROUP_END => Leaf(GroupEnd(v1))
  }

  lemma ForestSnoc(prog: seq<AstNode>, n: AstNode)
    requires Forest(prog)
    requires -1 <= n.left < |prog| && -1 <= n.right < |prog| && (n.left == -1 || n.left != n.right)
    requires (n.left == -1 || Orphan(prog, n.left)) && (n.right == -1 || Orphan(prog, n.right))
    ensures Forest(prog + [n]) && Orphan(prog + [n], |prog|)
    ensures forall x | Orphan(prog, x) && x !in Kids(n) :: Orphan(prog + [n], x)
  {
  }

  lemma TreeSnoc(prog: seq<AstNode>, n: AstNode)
    requires ChildrenBelow(prog) && -1 <= n.left < |prog| && -1 <= n.right < |prog|
    ensures ChildrenBelow(prog + [n])
    ensures Tree(prog + [n], |prog|) == NodeTree(n.op, n.v1, n.v2, Tree(prog, n.left), Tree(prog, n.right))
  {
    hide Tree, NodeTree;
    TreeFrame(prog, prog + [n], n.left);
    TreeFrame(prog, prog + [n], n.right);
    TreeTop(prog + [n], |prog|);
  }

  lemma TreeTop(prog: seq<AstNode>, k: nat)
    requires ChildrenBelow(prog) && k < |prog|
    ensures var n := prog[k];
      Tree(prog, k) == NodeTree(n.op, n.v1, n.v2, Tree(prog, n.left), Tree(prog, n.right))
  {
  }

  lemma NodeWeight(op: AstOp, v1: int, v2: int, left: Regex, right: Regex)
    ensures Weight(NodeTree(op, v1, v2, left, right)) <= Weight(left) + Weight(right) + 1
  {
  }

  /** Either a tree that was just emitted, or no node at all. */
  ghost predicate GrownOrNone(prog0: seq<AstNode>, prog: seq<AstNode>, root: int, r: Regex) {
    (root == -1 && prog == prog0 && Forest(prog) && r == Empty) || Grown(prog0, prog, root, r)
  }

  lemma GrownPrefix(prog0: seq<AstNode>, prog: seq<AstNode>, root: int, r: Regex)
    requires GrownOrNone(prog0, prog, root, r)
    ensures prog0 <= prog && Forest(prog) && (root == -1 || |prog0| <= root < |prog|)
  {
  }

  lemma GrownFacts(prog0: seq<AstNode>, prog: seq<AstNode>, root: int, r: Regex)
    requires GrownOrNone(prog0, prog, root, r)
    ensures prog0 <= prog && Forest(prog) && OwnKids(prog, |prog0|) && Weight(r) <= |prog| - |prog0|
    ensures -1 <= root < |prog| && Tree(prog, root) == r && (root == -1 || (|prog0| <= root && Orphan(prog, root)))
  {
  }

  lemma GrownFrame(prog0: seq<AstNode>, prog1: seq<AstNode>, prog2: seq<AstNode>, a: int, ra: Regex, b: int, rb: Regex)
    requires GrownOrNone(prog0, prog1, a, ra) && GrownOrNone(prog1, prog2, b, rb)
    ensures prog0 <= prog2 && Forest(prog2) && OwnKids(prog2, |prog0|)
    ensures -1 <= a < |prog2| && Tree(prog2, a) == ra && (a == -1 || (|prog0| <= a && a != b && Orphan(prog2, a)))
    ensures -1 <= b < |prog2| && Tree(prog2, b) == rb && (b == -1 || (|prog0| <= b && Orphan(prog2, b)))
    ensures Weight(ra) + Weight(rb) <= |prog2| - |prog0|
  {
    hide Grown, GrownOrNone, Orphan, OwnKids, Tree, Forest;
    GrownFacts(prog0, prog1, a, ra);
    GrownFacts(prog1, prog2, b, rb);
    TreeFrame(prog1, prog2, a);
    if a != -1 {
      OrphanFrame(prog1, prog2, a);
    }
    OwnKidsJoin(prog0, prog1, prog2);
  }

  lemma OrphanFrame(prog1: seq<AstNode>, prog2: seq<AstNode>, a: int)
    requires prog1 <= prog2 && OwnKids(prog2, |prog1|) && a < |prog1| && Orphan(prog1, a)
    ensures Orphan(prog2, a)
  {
    forall k | 0 <= k < |prog2| ensures a !in Kids(prog2[k]) {
      if k < |prog1| {
        assert prog2[k] == prog1[k];
      } else {
        assert a in Kids(prog2[k]) ==> |prog1| <= a;
      }
    }
  }

  lemma OwnKidsJoin(prog0: seq<AstNode>, prog1: seq<AstNode>, prog2: seq<AstNode>)
    requires prog0 <= prog1 <= prog2 && OwnKids(prog1, |prog0|) && OwnKids(prog2, |prog1|)
    ensures OwnKids(prog2, |prog0|)
  {
    forall k, x | |prog0| <= k < |prog2| && x in Kids(prog2[k]) ensures |prog0| <= x {
      if k < |prog1| {
        assert prog2[k] == prog1[k];
        assert x in Kids(prog1[k]);
      }
    }
  }

  /** A node on top of up to two freshly emitted trees is itself a freshly emitted tree. */
  lemma GrownNode(prog0: seq<AstNode>, prog1: seq<AstNode>, prog2: seq<AstNode>, a: int, ra: Regex, b: int, rb: Regex,
                  op: AstOp, v1: int, v2: int)
    requires GrownOrNone(prog0, prog1, a, ra) && GrownOrNone(prog1, prog2, b, rb)
    ensures Grown(prog0, prog2 + [AstNode(op, v1, v2, a, b)], |prog2|, NodeTree(op, v1, v2, ra, rb))
  {
    hide Grown, Forest, OwnKids, Orphan, Tree, NodeTree;
    var n := AstNode(op, v1, v2, a, b);
    GrownFrame(prog0, prog1, prog2, a, ra, b, rb);
    GrownSnoc(prog0, prog2, n);
    NodeWeight(op, v1, v2, ra, rb);
    GrownIntro(prog0, prog2 + [n], |prog2|, NodeTree(op, v1, v2, ra, rb));
  }

  lemma GrownSnoc(prog0: seq<AstNode>, prog: seq<AstNode>, n: AstNode)
    requires prog0 <= prog && Forest(prog) && OwnKids(prog, |prog0|)
    requires -1 <= n.left < |prog| && (n.left == -1 || (|prog0| <= n.left && n.left != n.right && Orphan(prog, n.left)))
    requires -1 <= n.right < |prog| && (n.right == -1 || (|prog0| <= n.right && Orphan(prog, n.right)))
    ensures prog0 <= prog + [n] && Forest(prog + [n]) && OwnKids(prog + [n], |prog0|) && Orphan(prog + [n], |prog|)
    ensures Tree(prog + [n], |prog|) == NodeTree(n.op, n.v1, n.v2, Tree(prog, n.left), Tree(prog, n.right))
  {
    ForestSnoc(prog, n);
    TreeSnoc(prog, n);
    forall k, x | |prog0| <= k < |prog + [n]| && x in Kids((prog + [n])[k]) ensures |prog0| <= x {
      if k < |prog| {
        assert x in Kids(prog[k]);
      }
    }
  }

  lemma GrownIntro(prog0: seq<AstNode>, prog: seq<AstNode>, root: int, r: Regex)
    requires prog0 <= prog && Forest(prog) && OwnKids(prog, |prog0|) && |prog0| <= root < |prog|
    requires Orphan(prog, root) && Tree(prog, root) == r && Weight(r) <= |prog| - |prog0|
    ensures Grown(prog0, prog, root, r)
  {
  }

  /** Nodes left unused below do no harm. */
  lemma GrownAbove(prog0: seq<AstNode>, prog1: seq<AstNode>, prog2: seq<AstNode>, a: int, ra: Regex, b: int, rb: Regex)
    requires GrownOrNone(prog0, prog1, a, ra) && Grown(prog1, prog2, b, rb)
    ensures Grown(prog0, prog2, b, rb)
  {
    hide Tree;
    GrownFrame(prog0, prog1, prog2, a, ra, b, rb);
  }

  class Ctx {
    const pat: CString
    var pos: nat
    var prog: seq<AstNode>
    var err: int
    var groupId: nat
    var groupStack: seq<int>
    var groupSp: nat
    var ret: int

    constructor (pat: CString)
      ensures this.pat == pat && pos == 0 && prog == [] && err == 0 && groupId == 0 && groupSp == 0
      ensures |groupStack| == MAX_DEPTH
    {
      this.pat := pat;
      pos, prog, err, groupId, groupSp, ret := 0, [], 0, 0, 0, 0;
      groupStack := seq(MAX_DEPTH, _ => 0);
    }

    /** emit: one more node, made of trees nobody else uses. */
    method Emit(op: AstOp, v1: int, v2: int, left: int, right: int)
      modifies this`prog, this`ret
      ensures prog == old(prog) + [AstNode(op, v1, v2, left, right)] && ret == |old(prog)|
    {
      ret := |prog|;
      prog := prog + [AstNode(op, v1, v2, left, right)];
    }

    /** The state after an expression was read: as the grammar function `p` says. */
    ghost predicate Reads(p: Parse, prog0: seq<AstNode>, sp0: nat)
      reads this`pos, this`prog, this`err, this`groupId, this`groupSp, this`groupStack, this`ret
    {
      && |groupStack| == MAX_DEPTH && pos <= |pat| && Forest(prog)
      && match p
         case Fail(e) => err == e && e != 0
         case Done(end, gid, r) =>
           err == 0 && pos == end && groupId == gid && groupSp == sp0 && Grown(prog0, prog, ret, r)
    }

    ghost predicate Reading()
      reads this`pos, this`prog, this`err, this`groupStack
    {
      err == 0 && pos <= |pat| && Forest(prog) && |groupStack| == MAX_DEPTH
    }

    /** A node without children. */
    method EmitLeaf(op: AstOp, v1: int, v2: int)
      requires Forest(prog)
      modifies this`prog, this`ret
      ensures Grown(old(prog), prog, ret, NodeTree(op, v1, v2, Empty, Empty))
    {
      GrownNode(prog, prog, prog, -1, Empty, -1, Empty, op, v1, v2);
      Emit(op, v1, v2, -1, -1);
    }

    /** copy_ast: a second tree like the one under `node`, built of new nodes only. */
    method CopyAst(node: int) returns (copy: int)
      requires Forest(prog) && -1 <= node < |prog|
      modifies this`prog, this`ret
      ensures GrownOrNone(old(prog), prog, copy, Tree(old(prog), node)) && (node >= 0 ==> copy >= 0 && ret == copy)
      decreases node + 1
    {
      hide Grown, OwnKids, Orphan, Kids;
      if node < 0 {
        return -1;
      }
      ghost var prog0 := prog;
      var left := CopyAst(prog[node].left);
      ghost var prog1 := prog;
      GrownPrefix(prog0, prog1, left, Tree(prog0, prog0[node].left));
      TreeFrame(prog0, prog1, prog0[node].right);
      var right := CopyAst(prog[node].right);
      GrownPrefix(prog1, prog, right, Tree(prog1, prog1[node].right));
      var n := prog[node];
      GrownNode(prog0, prog1, prog, left, Tree(prog0, n.left), right, Tree(prog0, n.right), n.op, n.v1, n.v2);
      Emit(n.op, n.v1, n.v2, left, right);
      copy := ret;
      GrownPrefix(prog0, prog, copy, Tree(prog0, node));
    }

    /** The joining step of every loop: what was read last becomes, or is put behind, the root. */
    method Join(op: AstOp, root: int, ghost prog0: seq<AstNode>, ghost prog1: seq<AstNode>, ghost acc: Partial,
            ghost r: Regex)
      returns (root': int)
      requires op == AST_CONCAT || op == AST_ALT
      requires GrownOrNone(prog0, prog1, root, Whole(acc)) && (root == -1 <==> acc.Nothing?)
      requires Grown(prog1, prog, ret, r)
      modifies this`prog, this`ret
      ensures Grown(prog0, prog, root', if op == AST_CONCAT then Then(acc, r) else OrElse(acc, r)) && ret == root' >= 0
    {
      if root == -1 {
        root' := ret;
      } else {
        GrownNode(prog0, prog1, prog, root, acc.re, ret, r, op, 0, 0);
        Emit(op, 0, 0, root, ret);
        root' := ret;
      }
    }

    /** The end of every loop: an expression that is not there is AST_EMPTY. */
    method Finish(root: int, ghost prog0: seq<AstNode>, ghost acc: Partial)
      requires GrownOrNone(prog0, prog, root, Whole(acc)) && (root == -1 <==> acc.Nothing?)
      modifies this`prog, this`ret
      ensures Grown(prog0, prog, ret, Whole(acc))
    {
      if root == -1 {
        EmitLeaf(AST_EMPTY, 0, 0);
      } else {
        ret := root;
      }
    }

    method SkipClass(t: char)
      requires pos <= |pat|
      modifies this`pos
      ensures pos == ClassEnd(pat, old(pos), t)
    {
      while At(pat, pos) != NUL && !(At(pat, pos) == t && At(pat, pos + 1) == ']')
        invariant pos <= |pat| && ClassEnd(pat, pos, t) == ClassEnd(pat, old(pos), t)
        decreases |pat| - pos
      {
        pos := pos + 1;
      }
    }

    /** A character class, equivalence class or collating symbol inside a bracket expression. */
    method ParseClass()
      requires err == 0 && pos <= |pat| && OpensClass(pat, pos)
      modifies this`pos, this`err
      ensures var t, end := pat[old(pos) + 1], ClassEnd(pat, old(pos) + 2, pat[old(pos) + 1]);
        if end == |pat| then err == REG_EBRACK
        else if t == ':' && pat[old(pos) + 2..end] !in CLASSES then err == REG_ECTYPE
        else if t != ':' && end == old(pos) + 2 then err == REG_ECOLLATE
        else err == 0 && pos == end + 2
      ensures pos <= |pat|
    {
      var t := At(pat, pos + 1);
      var cstart := pos + 2;
      pos := pos + 2;
      SkipClass(t);
      if At(pat, pos) == NUL {
        err := REG_EBRACK;
        return;
      }
      if t == ':' {
        if pat[cstart..pos] !in CLASSES {
          err := REG_ECTYPE;
          return;
        }
      } else if pos - cstart == 0 {
        err := REG_ECOLLATE;
        return;
      }
      pos := pos + 2;
    }

    /** The member loop of parse_bracket. */
    method ParseMembers()
      requires err == 0 && pos <= |pat|
      modifies this`pos, this`err
      ensures match Members(pat, old(pos), -1)
              case BadScan(e) => err == e && e != 0 && pos <= |pat|
              case ScanTo(end) => err == 0 && pos == end
    {
      hide ClassEnd;
      var last := -1;
      while At(pat, pos) != NUL && At(pat, pos) != ']'
        invariant err == 0 && pos <= |pat| && Members(pat, pos, last) == Members(pat, old(pos), -1)
        decreases |pat| - pos
      {
        if OpensClass(pat, pos) {
          ParseClass();
          if err != 0 {
            return;
          }
          last := -1;
        } else if At(pat, pos) == '-' && At(pat, pos + 1) != NUL && At(pat, pos + 1) != ']' && last != -1 {
          pos := pos + 2;
          last := -1;
        } else {
          last := SignedChar(At(pat, pos));
          pos := pos + 1;
        }
      }
      if At(pat, pos) != ']' {
        err := REG_EBRACK;
      }
    }

    method ParseBracket()
      requires Reading() && At(pat, pos) == '['
      modifies this`pos, this`prog, this`err, this`ret
      ensures Reads(BracketAt(pat, old(pos), groupId), old(prog), groupSp)
    {
      hide Grown, Forest, Members;
      var start := pos;
      pos := pos + 1;
      if At(pat, pos) == '^' {
        pos := pos + 1;
      }
      if At(pat, pos) == ']' {
        pos := pos + 1;
      }
      ParseMembers();
      if err != 0 {
        return;
      }
      EmitLeaf(AST_BRACKET, start, pos);
      GrownPrefix(old(prog), prog, ret, Leaf(RegexSemantics.Bracket(start, pos)));
      pos := pos + 1;
    }

    /** The digits at the current position. Where the int of the code would overflow, the model stops. */
    method ParseDigits() returns (value: nat)
      requires pos <= |pat| && err == 0
      modifies this`pos, this`err
      ensures pos <= |pat|
      ensures if Digits(pat, old(pos), 0).1 > INT_MAX then err == OVERFLOW
              else err == 0 && (pos, value) == Digits(pat, old(pos), 0)
    {
      value := 0;
      while IsDigit(At(pat, pos))
        invariant pos <= |pat| && err == 0 && value <= INT_MAX
        invariant Digits(pat, pos, value) == Digits(pat, old(pos), 0)
        decreases |pat| - pos
      {
        value := value * 10 + (At(pat, pos) as int - '0' as int);
        pos := pos + 1;
        DigitsGrow(pat, pos, value);
        if value > INT_MAX {
          err := OVERFLOW;
          return;
        }
      }
    }

    method ParseBounds(isEre: bool) returns (min: int, max: int)
      requires Reading()
      modifies this`pos, this`err
      ensures match BoundsAt(pat, old(pos), isEre)
              case BadBounds(e) => err == e && e != 0 && pos <= |pat|
              case Between(lo, hi, end) => err == 0 && min == lo && max == hi && pos == end
    {
      var start := pos;
      max := -1;
      min := ParseDigits();
      if err != 0 {
        return;
      }
      if pos == start {
        err := REG_BADBR;
        return;
      }
      if At(pat, pos) == ',' {
        pos := pos + 1;
        if IsDigit(At(pat, pos)) {
          max := ParseDigits();
          if err != 0 {
            return;
          }
        }
      } else {
        max := min;
      }
      if isEre {
        if At(pat, pos) == '}' {
          pos := pos + 1;
        } else {
          err := REG_BADBR;
          return;
        }
      } else {
        if At(pat, pos) == '\\' && At(pat, pos + 1) == '}' {
          pos := pos + 2;
        } else {
          err := REG_BADBR;
          return;
        }
      }
      if min > MAX_COUNT || max > MAX_COUNT || (max != -1 && min > max) {
        err := REG_BADBR;
      }
    }

    /** One more copy of the tree under `node`, behind what is there: the body of the first loop
        of apply_bounds. */
    method AppendCopy(node: int, root: int, ghost prog0: seq<AstNode>, ghost acc: Partial) returns (root': int)
      requires GrownOrNone(prog0, prog, root, Whole(acc)) && (root == -1 <==> acc.Nothing?)
      requires Forest(prog0) && 0 <= node < |prog0|
      modifies this`prog, this`ret
      ensures Grown(prog0, prog, root', Then(acc, Tree(prog0, node))) && root' >= 0
    {
      hide Grown, Forest, OwnKids;
      ghost var prog1 := prog;
      GrownPrefix(prog0, prog, root, Whole(acc));
      TreeFrame(prog0, prog, node);
      var copy := CopyAst(node);
      root' := Join(AST_CONCAT, root, prog0, prog1, acc, Tree(prog0, node));
    }

    /** One more optional copy: the body of the second loop of apply_bounds. */
    method AppendOptional(node: int, root: int, ghost prog0: seq<AstNode>, ghost acc: Partial) returns (root': int)
      requires GrownOrNone(prog0, prog, root, Whole(acc)) && (root == -1 <==> acc.Nothing?)
      requires Forest(prog0) && 0 <= node < |prog0|
      modifies this`prog, this`ret
      ensures Grown(prog0, prog, root', Then(acc, Alt(Tree(prog0, node), Empty))) && root' >= 0
    {
      hide Grown, Forest, OwnKids;
      ghost var prog1, r := prog, Tree(prog0, node);
      GrownPrefix(prog0, prog, root, Whole(acc));
      TreeFrame(prog0, prog, node);
      var copy := CopyAst(node);
      ghost var prog2 := prog;
      GrownPrefix(prog1, prog, copy, r);
      EmitLeaf(AST_EMPTY, 0, 0);
      var empty := ret;
      GrownNode(prog1, prog2, prog, copy, r, empty, Empty, AST_ALT, 0, 0);
      Emit(AST_ALT, 0, 0, copy, empty);
      root' := Join(AST_CONCAT, root, prog0, prog1, acc, Alt(r, Empty));
    }

    /** `STAR` of a copy, behind what is there: the unlimited case of apply_bounds. */
    method AppendStar(node: int, root: int, ghost prog0: seq<AstNode>, ghost acc: Partial) returns (root': int)
      requires GrownOrNone(prog0, prog, root, Whole(acc)) && (root == -1 <==> acc.Nothing?)
      requires Forest(prog0) && 0 <= node < |prog0|
      modifies this`prog, this`ret
      ensures Grown(prog0, prog, root', Then(acc, Star(Tree(prog0, node)))) && root' >= 0 && ret == root'
    {
      hide Grown, Forest, OwnKids;
      ghost var prog1, r := prog, Tree(prog0, node);
      GrownPrefix(prog0, prog, root, Whole(acc));
      TreeFrame(prog0, prog, node);
      var copy := CopyAst(node);
      GrownPrefix(prog1, prog, copy, r);
      GrownNode(prog1, prog, prog, copy, r, -1, Empty, AST_STAR, 0, 0);
      Emit(AST_STAR, 0, 0, copy, -1);
      root' := Join(AST_CONCAT, root, prog0, prog1, acc, Star(r));
    }

    /** apply_bounds: min copies, then either an unlimited tail or max - min optional copies. */
    method ApplyBounds(node: int, min: int, max: int)
      requires Forest(prog) && 0 <= node < |prog| && 0 <= min && (max == -1 || min <= max)
      modifies this`prog, this`ret
      ensures Grown(old(prog), prog, ret, BoundsTree(Tree(old(prog), node), min, max))
    {
      hide Grown, Forest, OwnKids, Tree;
      ghost var prog0, r, acc := prog, Tree(prog, node), Nothing;
      var root := -1;
      for i := 0 to min
        invariant acc == Copies(Nothing, r, i)
        invariant GrownOrNone(prog0, prog, root, Whole(acc)) && (root == -1 <==> acc.Nothing?)
      {
        root := AppendCopy(node, root, prog0, acc);
        acc := Something(Then(acc, r));
      }
      if max == -1 {
        root := AppendStar(node, root, prog0, acc);
      } else {
        for i := min to max
          invariant acc == Copies(Copies(Nothing, r, min), Alt(r, Empty), i - min)
          invariant GrownOrNone(prog0, prog, root, Whole(acc)) && (root == -1 <==> acc.Nothing?)
        {
          root := AppendOptional(node, root, prog0, acc);
          acc := Something(Then(acc, Alt(r, Empty)));
        }
        Finish(root, prog0, acc);
      }
    }

    // ---- basic expressions

    method EmitAtom(op: AstOp, v1: int, ghost atom: Atom, skip: nat)
      requires Reading() && pos + skip <= |pat| && NodeTree(op, v1, 0, Empty, Empty) == Leaf(atom)
      modifies this`pos, this`prog, this`ret
      ensures Reads(Done(old(pos) + skip, groupId, Leaf(atom)), old(prog), groupSp)
    {
      EmitLeaf(op, v1, 0);
      pos := pos + skip;
    }

    /** The nodes around the inside of a group, once its closing parenthesis has been seen. */
    method CloseGroup(gid: int, ghost prog0: seq<AstNode>, ghost inner: Regex)
      requires Grown(prog0, prog, ret, inner)
      modifies this`prog, this`ret
      ensures Grown(prog0, prog, ret, Group(gid, Concat(inner, Leaf(GroupEnd(gid)))))
    {
      hide Grown, Forest, OwnKids, Tree;
      var node := ret;
      ghost var prog1 := prog;
      GrownPrefix(prog0, prog, node, inner);
      EmitLeaf(AST_GROUP_END, gid, 0);
      var gend := ret;
      ghost var end := Leaf(GroupEnd(gid));
      GrownNode(prog0, prog1, prog, node, inner, gend, end, AST_CONCAT, 0, 0);
      Emit(AST_CONCAT, 0, 0, node, gend);
      var concat := ret;
      GrownPrefix(prog0, prog, concat, Concat(inner, end));
      GrownNode(prog0, prog, prog, concat, Concat(inner, end), -1, Empty, AST_GROUP, gid, 0);
      Emit(AST_GROUP, gid, 0, concat, -1);
    }

    method ParseBreEscape()
      requires Reading() && pos < |pat| && pat[pos] == '\\' && !BreEnds(pat, pos)
      modifies this
      ensures Reads(BreAtom(pat, old(pos), old(groupId), old(groupSp)), old(prog), old(groupSp))
      decreases |pat| - pos, 0
    {
      hide Grown, Forest, Bre;
      pos := pos + 1;
      var nx := At(pat, pos);
      if nx == NUL {
        err := REG_EESCAPE;
      } else if nx == '(' {
        groupId := groupId + 1;
        if groupSp >= MAX_DEPTH {
          err := REG_ESPACE;
          return;
        }
        var gid := groupId;
        groupStack := groupStack[groupSp := gid];
        groupSp := groupSp + 1;
        pos := pos + 1;
        CompileBre();
        if err != 0 {
          return;
        }
        if At(pat, pos) != '\\' || At(pat, pos + 1) != ')' {
          err := REG_EPAREN;
          return;
        }
        groupSp := groupSp - 1;
        CloseGroup(gid, old(prog), Bre(pat, old(pos) + 2, gid, groupSp + 1, Nothing).re);
        GrownPrefix(old(prog), prog, ret, BreAtom(pat, old(pos), old(groupId), groupSp).re);
        pos := pos + 2;
      } else if nx == '{' {
        err := REG_BADRPT;
      } else if '1' <= nx <= '9' {
        if nx as int - '0' as int > groupId {
          err := REG_ESUBREG;
          return;
        }
        EmitAtom(AST_BACKREF, nx as int - '0' as int, Backref(nx as int - '0' as int), 1);
      } else {
        EmitAtom(AST_CHAR, nx as int, Chr(nx as int), 1);
      }
    }

    method ParseBreAtom()
      requires Reading() && pos < |pat| && !BreEnds(pat, pos)
      modifies this
      ensures Reads(BreAtom(pat, old(pos), old(groupId), old(groupSp)), old(prog), old(groupSp))
      decreases |pat| - pos, 1
    {
      hide Grown, Forest, Bre, BracketAt;
      var x := At(pat, pos);
      if x == '^' {
        if pos == 0 || (pos >= 2 && pat[pos - 1] == '(' && pat[pos - 2] == '\\') {
          EmitAtom(AST_BOL, 0, Bol, 1);
        } else {
          EmitAtom(AST_CHAR, '^' as int, Chr('^' as int), 1);
        }
      } else if x == '$' {
        if At(pat, pos + 1) == NUL || (At(pat, pos + 1) == '\\' && At(pat, pos + 2) == ')') {
          EmitAtom(AST_EOL, 0, Eol, 1);
        } else {
          EmitAtom(AST_CHAR, '$' as int, Chr('$' as int), 1);
        }
      } else if x == '.' {
        EmitAtom(AST_ANY, 0, Any, 1);
      } else if x == '[' {
        ParseBracket();
      } else if x == '\\' {
        ParseBreEscape();
      } else {
        EmitAtom(AST_CHAR, x as int, Chr(x as int), 1);
      }
    }

    method ParseBrePiece()
      requires Reading() && pos < |pat| && !BreEnds(pat, pos)
      modifies this
      ensures Reads(BrePiece(pat, old(pos), old(groupId), old(groupSp)), old(prog), old(groupSp))
      decreases |pat| - pos, 2
    {
      hide Grown, Forest, BreAtom, BoundsAt, BoundsTree;
      if At(pat, pos) == '*' {
        EmitAtom(AST_CHAR, '*' as int, Chr('*' as int), 1);
        return;
      }
      ghost var a := BreAtom(pat, pos, groupId, groupSp);
      ParseBreAtom();
      if err != 0 {
        return;
      }
      var node := ret;
      if At(pat, pos) == '*' {
        GrownNode(old(prog), prog, prog, node, a.re, -1, Empty, AST_STAR, 0, 0);
        Emit(AST_STAR, 0, 0, node, -1);
        GrownPrefix(old(prog), prog, ret, Star(a.re));
        pos := pos + 1;
      } else if At(pat, pos) == '\\' && At(pat, pos + 1) == '{' {
        pos := pos + 2;
        var min, max := ParseBounds(false);
        if err == 0 {
          ApplyTo(node, min, max, old(prog), a.re);
        }
      }
    }

    /** apply_bounds on the piece just read. */
    method ApplyTo(node: int, min: int, max: int, ghost prog0: seq<AstNode>, ghost r: Regex)
      requires Grown(prog0, prog, node, r) && 0 <= min && (max == -1 || min <= max)
      modifies this`prog, this`ret
      ensures Grown(prog0, prog, ret, BoundsTree(r, min, max)) && Forest(prog)
    {
      hide BoundsTree;
      ghost var prog1 := prog;
      ApplyBounds(node, min, max);
      GrownAbove(prog0, prog1, prog, node, r, ret, BoundsTree(r, min, max));
    }

    method CompileBre()
      requires Reading()
      modifies this
      ensures Reads(Bre(pat, old(pos), old(groupId), old(groupSp), Nothing), old(prog), old(groupSp))
      decreases |pat| - pos, 3
    {
      hide Grown, Forest, BrePiece;
      var root := -1;
      ghost var acc, whole, prog0 := Nothing, Bre(pat, pos, groupId, groupSp, Nothing), prog;
      while At(pat, pos) != NUL && !(At(pat, pos) == '\\' && At(pat, pos + 1) == ')')
        invariant Reading() && groupSp == old(groupSp) && pos >= old(pos)
        invariant Bre(pat, pos, groupId, groupSp, acc) == whole
        invariant GrownOrNone(prog0, prog, root, Whole(acc)) && (root == -1 <==> acc.Nothing?)
        decreases |pat| - pos
      {
        ghost var prog1, p := prog, BrePiece(pat, pos, groupId, groupSp);
        ParseBrePiece();
        if err != 0 {
          return;
        }
        root := Join(AST_CONCAT, root, prog0, prog1, acc, p.re);
        acc := Something(Then(acc, p.re));
        GrownPrefix(prog0, prog, root, Whole(acc));
      }
      Finish(root, prog0, acc);
      GrownPrefix(prog0, prog, ret, Whole(acc));
    }

    // ---- extended expressions

    method ParseEreAtom()
      requires Reading() && pos < |pat|
      modifies this
      ensures Reads(EreAtom(pat, old(pos), old(groupId), old(groupSp)), old(prog), old(groupSp))
      decreases |pat| - pos, 1
    {
      hide Grown, Forest, Ere, BracketAt;
      var x := At(pat, pos);
      if x == '*' || x == '+' || x == '?' || x == '{' {
        err := REG_BADRPT;
        return;
      }
      if x == '^' {
        EmitAtom(AST_BOL, 0, Bol, 1);
      } else if x == '$' {
        EmitAtom(AST_EOL, 0, Eol, 1);
      } else if x == '.' {
        EmitAtom(AST_ANY, 0, Any, 1);
      } else if x == '[' {
        ParseBracket();
      } else if x == '(' {
        ParseEreGroup();
      } else if x == '\\' {
        if At(pat, pos + 1) == NUL {
          err := REG_EESCAPE;
          return;
        }
        EmitAtom(AST_CHAR, At(pat, pos + 1) as int, Chr(At(pat, pos + 1) as int), 2);
      } else {
        EmitAtom(AST_CHAR, x as int, Chr(x as int), 1);
      }
    }

    /** The '(' arm of parse_ere_atom. */
    method ParseEreGroup()
      requires Reading() && pos < |pat| && pat[pos] == '('
      modifies this
      ensures Reads(EreAtom(pat, old(pos), old(groupId), old(groupSp)), old(prog), old(groupSp))
      decreases |pat| - pos, 0
    {
      hide Grown, Forest, Ere;
      groupId := groupId + 1;
      if groupSp >= MAX_DEPTH {
        err := REG_ESPACE;
        return;
      }
      var gid := groupId;
      groupStack := groupStack[groupSp := gid];
      groupSp := groupSp + 1;
      pos := pos + 1;
      CompileEre();
      if err != 0 {
        return;
      }
      if At(pat, pos) != ')' {
        err := REG_EPAREN;
        return;
      }
      groupSp := groupSp - 1;
      pos := pos + 1;
      CloseGroup(gid, old(prog), Ere(pat, old(pos) + 1, gid, groupSp + 1, Nothing).re);
      GrownPrefix(old(prog), prog, ret, EreAtom(pat, old(pos), old(groupId), groupSp).re);
    }

    /** The repetition operators behind an atom of an extended expression. */
    method ParseErePiece()
      requires Reading() && pos < |pat|
      modifies this
      ensures Reads(ErePiece(pat, old(pos), old(groupId), old(groupSp)), old(prog), old(groupSp))
      decreases |pat| - pos, 2
    {
      hide Grown, Forest, EreAtom, BoundsAt, BoundsTree;
      ghost var prog0, a := prog, EreAtom(pat, pos, groupId, groupSp);
      ParseEreAtom();
      if err != 0 {
        return;
      }
      var node := ret;
      var x := At(pat, pos);
      if x == '*' {
        GrownNode(prog0, prog, prog, node, a.re, -1, Empty, AST_STAR, 0, 0);
        Emit(AST_STAR, 0, 0, node, -1);
        GrownPrefix(prog0, prog, ret, Star(a.re));
        pos := pos + 1;
      } else if x == '+' {
        EmitPlus(node, prog0, a.re);
        pos := pos + 1;
      } else if x == '?' {
        ghost var prog1 := prog;
        EmitLeaf(AST_EMPTY, 0, 0);
        var empty := ret;
        GrownNode(prog0, prog1, prog, node, a.re, empty, Empty, AST_ALT, 0, 0);
        Emit(AST_ALT, 0, 0, node, empty);
        GrownPrefix(prog0, prog, ret, Alt(a.re, Empty));
        pos := pos + 1;
      } else if x == '{' {
        pos := pos + 1;
        var min, max := ParseBounds(true);
        if err == 0 {
          ApplyTo(node, min, max, prog0, a.re);
        }
      }
    }

    /** The '+' arm: the piece itself, followed by the closure of a copy. */
    method EmitPlus(node: int, ghost prog0: seq<AstNode>, ghost r: Regex)
      requires Grown(prog0, prog, node, r)
      modifies this`prog, this`ret
      ensures Grown(prog0, prog, ret, Concat(r, Star(r))) && Forest(prog)
    {
      hide Forest, OwnKids, Orphan, Tree;
      ghost var prog1 := prog;
      GrownPrefix(prog0, prog, node, r);
      var copy := CopyAst(node);
      GrownNode(prog1, prog, prog, copy, r, -1, Empty, AST_STAR, 0, 0);
      Emit(AST_STAR, 0, 0, copy, -1);
      GrownNode(prog0, prog1, prog, node, r, ret, Star(r), AST_CONCAT, 0, 0);
      Emit(AST_CONCAT, 0, 0, node, ret);
      GrownPrefix(prog0, prog, ret, Concat(r, Star(r)));
    }

    method ParseEreBranch()
      requires Reading()
      modifies this
      ensures Reads(EreBranch(pat, old(pos), old(groupId), old(groupSp), Nothing), old(prog), old(groupSp))
      decreases |pat| - pos, 3
    {
      hide Grown, Forest, ErePiece;
      var root := -1;
      ghost var acc, whole, prog0 := Nothing, EreBranch(pat, pos, groupId, groupSp, Nothing), prog;
      while At(pat, pos) != NUL && At(pat, pos) != '|' && At(pat, pos) != ')'
        invariant Reading() && groupSp == old(groupSp) && pos >= old(pos)
        invariant EreBranch(pat, pos, groupId, groupSp, acc) == whole
        invariant GrownOrNone(prog0, prog, root, Whole(acc)) && (root == -1 <==> acc.Nothing?)
        decreases |pat| - pos
      {
        ghost var prog1, p := prog, ErePiece(pat, pos, groupId, groupSp);
        ParseErePiece();
        if err != 0 {
          return;
        }
        root := Join(AST_CONCAT, root, prog0, prog1, acc, p.re);
        acc := Something(Then(acc, p.re));
        GrownPrefix(prog0, prog, root, Whole(acc));
      }
      Finish(root, prog0, acc);
      GrownPrefix(prog0, prog, ret, Whole(acc));
    }

    method CompileEre()
      requires Reading()
      modifies this
      ensures Reads(Ere(pat, old(pos), old(groupId), old(groupSp), Nothing), old(prog), old(groupSp))
      decreases |pat| - pos, 4
    {
      hide Grown, Forest, ErePiece;
      var root := -1;
      ghost var acc, whole, prog0 := Nothing, Ere(pat, pos, groupId, groupSp, Nothing), prog;
      while At(pat, pos) != NUL && At(pat, pos) != ')'
        invariant Reading() && groupSp == old(groupSp) && pos >= old(pos)
        invariant Ere(pat, pos, groupId, groupSp, acc) == whole
        invariant GrownOrNone(prog0, prog, root, Whole(acc)) && (root == -1 <==> acc.Nothing?)
        decreases |pat| - pos
      {
        ghost var prog1, p := prog, EreBranch(pat, pos, groupId, groupSp, Nothing);
        ParseEreBranch();
        if err != 0 {
          return;
        }
        root := Join(AST_ALT, root, prog0, prog1, acc, p.re);
        acc := Something(OrElse(acc, p.re));
        GrownPrefix(prog0, prog, root, Whole(acc));
        if At(pat, pos) == '|' {
          pos := pos + 1;
        }
      }
      Finish(root, prog0, acc);
      GrownPrefix(prog0, prog, ret, Whole(acc));
    }
  }

  /** regcomp: 0 and a compiled pattern, or the error code; allocation never fails here. OVERFLOW is no
      answer of the code: a repeat count was too large for an int, and nothing is promised then. */
  method Regcomp(pattern: CString, extended: bool, noSub: bool) returns (err: int, preg: Compiled)
    ensures match Pattern(pattern, extended)
            case Fail(e) => err == e && e != 0
            case Done(_, gid, r) =>
              && err == 0 && preg.nsub == gid && preg.noSub == noSub
              && preg.Valid() && preg.Pattern() == r && Forest(preg.nodes)
              // regexec needs no more instructions than there are nodes, and I_MATCH.
              && 1 + Weight(r) <= 1 + |preg.nodes|
    ensures err == Verdict(pattern, extended)
    ensures err == 0 && extended ==> NoBackref(preg.Pattern())
  {
    hide Verdict;
    VerdictRight(pattern, extended);
    var c := new Ctx(pattern);
    preg := Compiled([], -1, 0, noSub);
    if extended {
      c.CompileEre();
    } else {
      c.CompileBre();
    }
    if c.err == 0 && At(pattern, c.pos) != NUL {
      c.err := REG_EPAREN;
    }
    // regcomp also checks for groups left open: by now there are none.
    assert c.err == 0 ==> c.groupSp == 0;
    err := c.err;
    if err == 0 {
      PatternFit(pattern, extended);
      preg := Compiled(c.prog, c.ret, c.groupId, noSub);
    }
  }
}
