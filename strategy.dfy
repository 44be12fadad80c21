/**
  The part shared by every state-space search strategy: its configuration
  (heuristic type, weight, timeout), the diagnostics a search leaves behind
  (searching time, root node), and the conversion of a solution node into a
  sequential plan.
*/
module StateSpaceStrategy {
  import opened Wrappers
  import opened Encoding
  import opened Nodes

  /** The enumerated heuristic kind. Only its identity matters here; resolving it to an estimator is not part of this model. */
  datatype HeuristicType = HeuristicType(tag: nat)

  /**
    The exceptions the core throws. In the Java code all three are a
    NullPointerException: a null problem, a null heuristic type given to the
    setter, and the dereference of the null node picked at a dead end.
  */
  datatype Fault = NullProblem | NullHeuristicType | DeadEndDereference

  /** A sequential plan: the operators in execution order, first action first. */
  type Plan = seq<Operator>

  /**
    The plan read off `n`'s parent chain: one operator per parent link, the
    operator of the node right below the top of the chain first.
  */
  function PlanOf(n: Node, operators: seq<Operator>): (plan: Plan)
    requires IndicesInRange(n, operators)
    ensures |plan| == Links(n)
    decreases n
  {
    match n.parent
    case None => []
    case Some(q) => PlanOf(q, operators) + [operators[n.operator]]
  }

  /**
    The node `j` links below the top of the chain contributes element `j - 1`
    of the extracted plan: the plan runs top first.
  */
  lemma {:induction false} PlanAlongPath(n: Node, operators: seq<Operator>)
    requires IndicesInRange(n, operators)
    ensures forall j :: 0 < j < |Path(n)| ==>
      0 <= Path(n)[j].operator < |operators| && PlanOf(n, operators)[j - 1] == operators[Path(n)[j].operator]
    decreases n
  {
    match n.parent
    case None =>
    case Some(q) =>
      PlanAlongPath(q, operators);
      assert Path(n) == Path(q) + [n];
      assert PlanOf(n, operators) == PlanOf(q, operators) + [operators[n.operator]];
  }

  /** Every operator of the plan has the effect record the search applies. */
  predicate AllHaveEffect(plan: Plan) {
    forall i :: 0 <= i < |plan| ==> HasEffect(plan[i])
  }

  /** The state reached by executing `plan` from `s`, first action first. */
  function Replay(s: State, plan: Plan): State
    requires AllHaveEffect(plan)
    decreases |plan|
  {
    if plan == [] then s else Replay(Apply(s, plan[0]), plan[1..])
  }

  /** Each action of `plan` applies to the state the earlier actions reached. */
  predicate Executable(s: State, plan: Plan, env: Collaborators)
    requires AllHaveEffect(plan)
    decreases |plan|
  {
    plan == [] || (env.isApplicable(plan[0], s) && Executable(Apply(s, plan[0]), plan[1..], env))
  }

  /** The summed cost of the plan's operators. */
  function PlanCost(plan: Plan): real
    decreases |plan|
  {
    if plan == [] then 0.0 else PlanCost(plan[..|plan| - 1]) + plan[|plan| - 1].cost
  }

  /** Executing a plan extended by one action ends where that action takes the plan's end state. */
  lemma {:induction false} ReplaySnoc(s: State, plan: Plan, op: Operator, env: Collaborators)
    requires AllHaveEffect(plan) && HasEffect(op)
    ensures AllHaveEffect(plan + [op])
    ensures Replay(s, plan + [op]) == Apply(Replay(s, plan), op)
    ensures Executable(s, plan + [op], env) <==>
      Executable(s, plan, env) && env.isApplicable(op, Replay(s, plan))
    decreases |plan|
  {
    if plan != [] {
      assert (plan + [op])[1..] == plan[1..] + [op];
      ReplaySnoc(Apply(s, plan[0]), plan[1..], op, env);
    }
  }

  /**
    The plan extracted from a node reached from `root` by valid steps takes
    `root`'s state to the node's state, every action applying where it is
    executed; it has one action per level of depth, and its cost is the
    difference between the node's and the root's accumulated cost.
  */
  lemma {:induction false} PlanReplaysPath(n: Node, root: Node, p: CodedProblem, env: Collaborators)
    requires WellFormed(p)
    requires LinkedFrom(n, root, p, env)
    ensures IndicesInRange(n, p.operators)
    ensures |PlanOf(n, p.operators)| == n.depth - root.depth
    ensures AllHaveEffect(PlanOf(n, p.operators))
    ensures Executable(root.state, PlanOf(n, p.operators), env)
    ensures Replay(root.state, PlanOf(n, p.operators)) == n.state
    ensures n.cost == root.cost + PlanCost(PlanOf(n, p.operators))
    decreases n
  {
    LinkedChain(n, root, p, env);
    match n.parent
    case None =>
    case Some(q) =>
      PlanReplaysPath(q, root, p, env);
      var op := p.operators[n.operator];
      var plan := PlanOf(q, p.operators);
      assert PlanOf(n, p.operators) == plan + [op];
      assert (plan + [op])[..|plan|] == plan;
      ReplaySnoc(root.state, plan, op, env);
  }

  /**
    The configuration and diagnostics every strategy carries. The fields are
    written by the constructors, the setters and the search.
  */
  class Strategy {
    var heuristic: Option<HeuristicType>
    var weight: real
    var timeout: int
    var searchingTime: int
    var rootNode: Option<Node>

    /** The no-argument constructor: the planner's defaults, no searching time yet, no root. */
    constructor Default(defaultHeuristic: HeuristicType, defaultWeight: real, defaultTimeout: int)
      ensures heuristic == Some(defaultHeuristic) && weight == defaultWeight && timeout == defaultTimeout
      ensures searchingTime == 0 && rootNode == None
    {
      heuristic := Some(defaultHeuristic);
      weight := defaultWeight;
      timeout := defaultTimeout;
      searchingTime := 0;
      rootNode := None;
    }

    /** The three-argument constructor stores its arguments as given: it does not reject a null heuristic type. */
    constructor (timeout: int, heuristic: Option<HeuristicType>, weight: real)
      ensures this.heuristic == heuristic && this.weight == weight && this.timeout == timeout
      ensures searchingTime == 0 && rootNode == None
    {
      this.timeout := timeout;
      this.heuristic := heuristic;
      this.weight := weight;
      this.searchingTime := 0;
      this.rootNode := None;
    }

    method GetHeuristicType() returns (h: Option<HeuristicType>)
      ensures h == heuristic
    {
      h := heuristic;
    }

    /** Rejects a null heuristic type, leaving everything as it was; otherwise stores it and changes nothing else. */
    method SetHeuristicType(h: Option<HeuristicType>) returns (r: Outcome<Fault>)
      modifies this
      ensures h.None? ==> r == Fail(NullHeuristicType) && unchanged(this)
      ensures h.Some? ==> r == Pass && heuristic == h
      ensures weight == old(weight) && timeout == old(timeout)
      ensures searchingTime == old(searchingTime) && rootNode == old(rootNode)
    {
      if h.None? {
        return Fail(NullHeuristicType);
      }
      heuristic := h;
      r := Pass;
    }

    method GetWeight() returns (w: real)
      ensures w == weight
    {
      w := weight;
    }

    method SetWeight(w: real)
      modifies this
      ensures weight == w
      ensures heuristic == old(heuristic) && timeout == old(timeout)
      ensures searchingTime == old(searchingTime) && rootNode == old(rootNode)
    {
      weight := w;
    }

    method SetTimeOut(t: int)
      modifies this
      ensures timeout == t
      ensures heuristic == old(heuristic) && weight == old(weight)
      ensures searchingTime == old(searchingTime) && rootNode == old(rootNode)
    {
      timeout := t;
    }

    method GetTimeout() returns (t: int)
      ensures t == timeout
    {
      t := timeout;
    }

    method GetSearchingTime() returns (t: int)
      ensures t == searchingTime
    {
      t := searchingTime;
    }

    method SetSearchingTime(t: int)
      modifies this
      ensures searchingTime == t
      ensures heuristic == old(heuristic) && weight == old(weight)
      ensures timeout == old(timeout) && rootNode == old(rootNode)
    {
      searchingTime := t;
    }

    method GetRootNode() returns (n: Option<Node>)
      ensures n == rootNode
    {
      n := rootNode;
    }

    method SetRootNode(n: Option<Node>)
      modifies this
      ensures rootNode == n
      ensures heuristic == old(heuristic) && weight == old(weight)
      ensures timeout == old(timeout) && searchingTime == old(searchingTime)
    {
      rootNode := n;
    }

    /**
      Walks the parent links from `node` up to the node without a parent,
      putting each visited node's operator in front of the plan, so the plan
      runs from the top of the chain down to `node`. A null node gives a null
      plan; a node without a parent gives the empty plan.
    */
    method ExtractPlan(node: Option<Node>, problem: CodedProblem) returns (plan: Option<Plan>)
      requires node.Some? ==> IndicesInRange(node.value, problem.operators)
      ensures node.None? <==> plan.None?
      ensures node.Some? ==> plan == Some(PlanOf(node.value, problem.operators))
    {
      if node.None? {
        return None;
      }
      var n := node.value;
      var steps: Plan := [];
      while n.parent.Some?
        invariant IndicesInRange(n, problem.operators)
        invariant PlanOf(n, problem.operators) + steps == PlanOf(node.value, problem.operators)
        decreases n
      {
        var op := problem.operators[n.operator];
        assert PlanOf(n, problem.operators) == PlanOf(n.parent.value, problem.operators) + [op];
        steps := [op] + steps;
        n := n.parent.value;
      }
      assert PlanOf(n, problem.operators) == [];
      assert steps == PlanOf(node.value, problem.operators);
      plan := Some(steps);
    }
  }
}
