/** The node array that regcomp emits and regexec reads, and the tree a node denotes. */
module RegexAst {
  import opened RegexSemantics

  datatype AstOp =
    | AST_EMPTY | AST_CHAR | AST_ANY | AST_BOL | AST_EOL | AST_BRACKET | AST_BACKREF
    | AST_CONCAT | AST_ALT | AST_STAR | AST_GROUP | AST_GROUP_END

  datatype AstNode = AstNode(op: AstOp, v1: int, v2: int, left: int, right: int)

  /** Children come before their parents; -1 stands for no child. */
  predicate ChildrenBelow(prog: seq<AstNode>) {
    forall k {:trigger prog[k]} | 0 <= k < |prog| :: -1 <= prog[k].left < k && -1 <= prog[k].right < k
  }

  predicate NodeIn(prog: seq<AstNode>, node: int) {
    -1 <= node < |prog|
  }

  function Tree(prog: seq<AstNode>, node: int): Regex
    requires ChildrenBelow(prog) && NodeIn(prog, node)
    decreases node + 1
  {
    if node < 0 then Empty
    else
      var n := prog[node];
      match n.op
      case AST_EMPTY => Empty
      case AST_CHAR => Leaf(Chr(n.v1))
      case AST_ANY => Leaf(Any)
      case AST_BOL => Leaf(Bol)
      case AST_EOL => Leaf(Eol)
      case AST_BRACKET => Leaf(Bracket(n.v1, n.v2))
      case AST_BACKREF => Leaf(Backref(n.v1))
      case AST_CONCAT => Concat(Tree(prog, n.left), Tree(prog, n.right))
      case AST_ALT => Alt(Tree(prog, n.left), Tree(prog, n.right))
      case AST_STAR => Star(Tree(prog, n.left))
      case AST_GROUP => Group(n.v1, Tree(prog, n.left))
      case AST_GROUP_END => Leaf(GroupEnd(n.v1))
  }

  /** What a node denotes does not change when the array grows. */
  lemma {:induction false} TreeFrame(prog: seq<AstNode>, prog': seq<AstNode>, node: int)
    requires ChildrenBelow(prog) && ChildrenBelow(prog') && NodeIn(prog, node)
    requires prog <= prog'
    ensures Tree(prog', node) == Tree(prog, node)
    decreases node + 1
  {
    if node >= 0 {
      assert prog'[node] == prog[node];
      TreeFrame(prog, prog', prog[node].left);
      TreeFrame(prog, prog', prog[node].right);
    }
  }
}
