/**
  Search nodes. A node is built, its fields are set once, and it is never
  changed afterwards, so it is modelled as a value: a node holds its parent
  node itself, and the parent chain is finite by construction.
*/
module Nodes {
  import opened Wrappers
  import opened Encoding

  /**
    A search node: its state, the node it was expanded from (`None` for the
    root), the table index of the operator that produced it, the accumulated
    path cost, the path length and the heuristic estimate of its state.
  */
  datatype Node = Node(state: State, parent: Option<Node>, operator: int, cost: real, depth: nat, heuristic: int)

  /**
    The root built from the initial state: operator 0, cost 0, depth 0 and
    no parent, so its chain is itself alone and it is linked from itself.
  */
  function Root(p: CodedProblem, env: Collaborators): (root: Node)
    ensures root.state == p.init && root.depth == 0 && root.cost == 0.0
    ensures Links(root) == 0 && Path(root) == [root]
    ensures WellFormed(p) ==> LinkedFrom(root, root, p, env)
  {
    Node(p.init, None, 0, 0.0, 0, env.estimate(p.init, p.goal))
  }

  /**
    The node invariant between a node and its parent: the operator index is a
    table position whose operator applies to the parent, the state is the
    parent's state with that operator's first effect applied, cost and depth
    extend the parent's, and the heuristic is the estimate of the new state.
  */
  predicate ValidStep(parent: Node, child: Node, p: CodedProblem, env: Collaborators)
    requires WellFormed(p)
  {
    0 <= child.operator < |p.operators| &&
    var op := p.operators[child.operator];
    env.isApplicable(op, parent.state) &&
    child.parent == Some(parent) &&
    child.state == Apply(parent.state, op) &&
    child.cost == parent.cost + op.cost &&
    child.depth == parent.depth + 1 &&
    child.heuristic == env.estimate(child.state, p.goal)
  }

  /** `n` is `root` or hangs below it through valid steps only. */
  predicate LinkedFrom(n: Node, root: Node, p: CodedProblem, env: Collaborators)
    requires WellFormed(p)
    decreases n
  {
    match n.parent
    case None => n == root
    case Some(q) => ValidStep(q, n, p, env) && LinkedFrom(q, root, p, env)
  }

  /** The number of parent links from `n` up to the node without a parent. */
  function Links(n: Node): nat
    decreases n
  {
    match n.parent
    case None => 0
    case Some(q) => Links(q) + 1
  }

  /** The nodes from the top of `n`'s chain down to `n`, top first. */
  function Path(n: Node): (path: seq<Node>)
    ensures |path| == Links(n) + 1
    ensures path[0].parent.None? && path[|path| - 1] == n
    ensures forall i :: 0 < i < |path| ==> path[i].parent == Some(path[i - 1])
    decreases n
  {
    match n.parent
    case None => [n]
    case Some(q) => Path(q) + [n]
  }

  /** Every operator index on `n`'s chain, except the top node's, is a table position. */
  predicate IndicesInRange(n: Node, operators: seq<Operator>)
    decreases n
  {
    match n.parent
    case None => true
    case Some(q) => 0 <= n.operator < |operators| && IndicesInRange(q, operators)
  }

  /**
    Along a chain hanging from `root`, depth counts the links walked, the top
    of the chain is `root`, every node's depth is its position on the path,
    and every operator index is a table position.
  */
  lemma {:induction false} LinkedChain(n: Node, root: Node, p: CodedProblem, env: Collaborators)
    requires WellFormed(p)
    requires LinkedFrom(n, root, p, env)
    ensures n.depth == root.depth + Links(n)
    ensures Path(n)[0] == root
    ensures forall i :: 0 <= i < |Path(n)| ==> Path(n)[i].depth == root.depth + i
    ensures IndicesInRange(n, p.operators)
    decreases n
  {
    match n.parent
    case None =>
    case Some(q) =>
      LinkedChain(q, root, p, env);
      assert Path(n) == Path(q) + [n];
  }

  /** A chain can be extended by one valid step. */
  lemma LinkedExtend(parent: Node, child: Node, root: Node, p: CodedProblem, env: Collaborators)
    requires WellFormed(p)
    requires LinkedFrom(parent, root, p, env) && ValidStep(parent, child, p, env)
    ensures LinkedFrom(child, root, p, env)
  {
  }
}
