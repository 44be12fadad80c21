/**
  Small concrete problems run through the model of the search: a two-step
  problem solved by climbing, a problem whose goal already holds in the
  initial state, and the selection rule on a fixed list of nodes.
*/
module Scenarios {
  import opened Wrappers
  import opened Encoding
  import opened Nodes
  import opened StateSpaceStrategy
  import opened HillClimbing

  /** An operator with only a positive precondition and a single unconditional positive effect. */
  function AddOp(pre: State, add: State, cost: real): Operator {
    Operator(BitExp(pre, {}), [CondEffect(BitExp({}, {}), BitExp(add, {}))], cost)
  }

  /** Literal semantics: the positive bits are set and the negative bits are clear. */
  predicate Holds(e: BitExp, s: State) {
    e.positive <= s && e.negative !! s
  }

  /** Propositions p, q, r are bits 0, 1, 2; the estimate counts the steps still missing towards r. */
  function Env(): Collaborators {
    Collaborators(
      (op: Operator, s: State) => Holds(op.precondition, s),
      (s: State, g: BitExp) => Holds(g, s),
      (s: State, g: BitExp) => if 2 in s then 0 else if 1 in s then 1 else 2)
  }

  function OpA(): Operator { AddOp({0}, {1}, 1.0) }
  function OpB(): Operator { AddOp({1}, {2}, 1.0) }

  /** Initial state {p}, goal {r}; A needs p and adds q, B needs q and adds r. */
  function TwoSteps(): CodedProblem {
    CodedProblem([OpA(), OpB()], {0}, BitExp({2}, {}))
  }

  /** The node the first round climbs to: A applied to the root. */
  function NodeA(): Node {
    Node({0, 1}, Some(Root(TwoSteps(), Env())), 0, 1.0, 1, 1)
  }

  /** The node the second round picks: B applied after A. */
  function NodeAB(): Node {
    Node({0, 1, 2}, Some(NodeA()), 1, 2.0, 2, 0)
  }

  /** From {p} only A applies; its node does not reach r and lowers the bound to its estimate 1. */
  lemma TwoStepsFirstRound()
    ensures WellFormed(TwoSteps())
    ensures Step(TwoSteps(), Env(), Root(TwoSteps(), Env()), IntegerMaxValue) == Continue(NodeA(), 1)
  {
    var p, env := TwoSteps(), Env();
    var root := Root(p, env);
    assert !env.isApplicable(OpB(), root.state);
    assert SuccessorsUpTo(root, p, env, 1) == [Child(root, p, env, 0)];
    assert Apply(root.state, OpA()) == {0, 1};
    assert Successors(root, p, env) == [NodeA()];
  }

  /** From {p, q} both apply; the node through B is the last one below the bound 1, and it reaches r. */
  lemma TwoStepsSecondRound()
    ensures WellFormed(TwoSteps())
    ensures Step(TwoSteps(), Env(), NodeA(), 1) == Solved(NodeAB())
  {
    var p, env := TwoSteps(), Env();
    var a := NodeA();
    var a2 := Child(a, p, env, 0);
    assert SuccessorsUpTo(a, p, env, 1) == [a2];
    assert Apply(a.state, OpB()) == {0, 1, 2};
    assert Successors(a, p, env) == [a2, NodeAB()];
    assert BestIndex([a2, NodeAB()], 1) == 1;
  }

  /**
    With a timeout of 10 and the time measured as 3 and then 5: the first
    round climbs to the state {p, q} through A, the second picks the node
    reached through B, which satisfies the goal. The plan is A then B, of
    cost 2 and depth 2, found in 5.
  */
  lemma TwoStepsSolved()
    ensures WellFormed(TwoSteps()) && ClockExpires([3, 5, 20], 10)
    ensures Run(TwoSteps(), Env(), 10, [3, 5, 20], Root(TwoSteps(), Env()), IntegerMaxValue, 0) ==
      Returned(Some(NodeAB()), 5)
    ensures IndicesInRange(NodeAB(), TwoSteps().operators)
    ensures PlanOf(NodeAB(), TwoSteps().operators) == [OpA(), OpB()]
    ensures NodeAB().depth == 2 && NodeAB().cost == 2.0
  {
    TwoStepsFirstRound();
    TwoStepsSecondRound();
    var p, env := TwoSteps(), Env();
    assert Run(p, env, 10, [3, 5, 20], NodeA(), 1, 1) == Returned(Some(NodeAB()), 5);
  }

  /** Initial state {p}, goal {p}: the goal already holds before any search. */
  function GoalAtStart(): CodedProblem {
    CodedProblem([OpA()], {0}, BitExp({0}, {}))
  }

  /**
    The root is never goal-tested: although the goal holds in the initial
    state, the search returns the successor reached through A, one level
    below the root, and the plan extracted from it is [A], not the empty plan.
  */
  lemma GoalAtStartNotRoot()
    ensures WellFormed(GoalAtStart()) && ClockExpires([12], 10)
    ensures Env().satisfy(GoalAtStart().init, GoalAtStart().goal)
    ensures var root := Root(GoalAtStart(), Env());
      var n := Node({0, 1}, Some(root), 0, 1.0, 1, 1);
      Run(GoalAtStart(), Env(), 10, [12], root, IntegerMaxValue, 0) == Returned(Some(n), 12) &&
      IndicesInRange(n, GoalAtStart().operators) && PlanOf(n, GoalAtStart().operators) == [OpA()]
  {
    var p, env := GoalAtStart(), Env();
    var root := Root(p, env);
    var a := Node({0, 1}, Some(root), 0, 1.0, 1, 1);
    assert Apply(root.state, OpA()) == {0, 1};
    assert Successors(root, p, env) == [a];
    assert Step(p, env, root, IntegerMaxValue) == Solved(a);
  }

  /** A node with the given heuristic; only the heuristic matters to the selection. */
  function WithHeuristic(h: int): Node {
    Node({}, None, 0, 0.0, 0, h)
  }

  /**
    The selection is not a minimum: against the bound 10 the last node below
    the bound wins even though an earlier one is lower; against the bound 3
    no later node is strictly below it and the first node is taken, although
    its own heuristic is above the bound, because it is never compared.
  */
  lemma SelectionAgainstCarriedBound()
    ensures BestIndex([WithHeuristic(5), WithHeuristic(3), WithHeuristic(4)], 10) == 2
    ensures BestIndex([WithHeuristic(5), WithHeuristic(3), WithHeuristic(4)], 3) == 0
  {
    var nodes := [WithHeuristic(5), WithHeuristic(3), WithHeuristic(4)];
    assert BestUpTo(nodes, 3, 2) == 0;
  }
}
