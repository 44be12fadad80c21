/**
  Greedy hill climbing over the state space: expand the one open node, pick
  one successor against a bound carried over from earlier rounds, stop when
  the picked successor satisfies the goal or the time is up, and otherwise
  make the picked successor the only open node.
*/
module HillClimbing {
  import opened Wrappers
  import opened Encoding
  import opened Nodes
  import opened StateSpaceStrategy

  /** `Integer.MAX_VALUE`, the value the best-heuristic bound starts from. */
  const IntegerMaxValue: int := 2147483647

  // ---------------------------------------------------------------------------
  // Successor generation

  /** The table positions below `k` whose operator applies to `s`, in table order. */
  function ApplicableUpTo(p: CodedProblem, env: Collaborators, s: State, k: nat): (idx: seq<nat>)
    requires k <= |p.operators|
    ensures |idx| <= k
    decreases k
  {
    if k == 0 then []
    else
      var below := ApplicableUpTo(p, env, s, k - 1);
      if env.isApplicable(p.operators[k - 1], s) then below + [k - 1] else below
  }

  /**
    The positions collected are exactly the applicable ones below `k`, each
    once, in increasing table order.
  */
  lemma {:induction false} ApplicableInOrder(p: CodedProblem, env: Collaborators, s: State, k: nat)
    requires k <= |p.operators|
    ensures forall j :: 0 <= j < |ApplicableUpTo(p, env, s, k)| ==>
      ApplicableUpTo(p, env, s, k)[j] < k && env.isApplicable(p.operators[ApplicableUpTo(p, env, s, k)[j]], s)
    ensures forall j, j' :: 0 <= j < j' < |ApplicableUpTo(p, env, s, k)| ==>
      ApplicableUpTo(p, env, s, k)[j] < ApplicableUpTo(p, env, s, k)[j']
    ensures forall i :: 0 <= i < k && env.isApplicable(p.operators[i], s) ==> i in ApplicableUpTo(p, env, s, k)
    decreases k
  {
    if k > 0 {
      ApplicableInOrder(p, env, s, k - 1);
      var below := ApplicableUpTo(p, env, s, k - 1);
      if env.isApplicable(p.operators[k - 1], s) {
        assert ApplicableUpTo(p, env, s, k) == below + [k - 1];
      } else {
        assert ApplicableUpTo(p, env, s, k) == below;
      }
    }
  }

  /** The table positions of all operators that apply to `s`, in table order. */
  function Applicable(p: CodedProblem, env: Collaborators, s: State): seq<nat> {
    ApplicableUpTo(p, env, s, |p.operators|)
  }

  /** The node obtained by applying operator `i` to `parent`. */
  function Child(parent: Node, p: CodedProblem, env: Collaborators, i: nat): (child: Node)
    requires WellFormed(p) && i < |p.operators|
    ensures child.operator == i
    ensures env.isApplicable(p.operators[i], parent.state) ==> ValidStep(parent, child, p, env)
  {
    var op := p.operators[i];
    var next := Apply(parent.state, op);
    Node(next, Some(parent), i, parent.cost + op.cost, parent.depth + 1, env.estimate(next, p.goal))
  }

  /** The successors generated from the operators below `k`, one per applicable operator, in table order. */
  function SuccessorsUpTo(parent: Node, p: CodedProblem, env: Collaborators, k: nat): (succ: seq<Node>)
    requires WellFormed(p) && k <= |p.operators|
    ensures |succ| == |ApplicableUpTo(p, env, parent.state, k)|
    decreases k
  {
    if k == 0 then []
    else
      var below := SuccessorsUpTo(parent, p, env, k - 1);
      if env.isApplicable(p.operators[k - 1], parent.state) then below + [Child(parent, p, env, k - 1)] else below
  }

  /**
    Successor `j` is a valid step from `parent` whose operator field is the
    `j`-th applicable table position.
  */
  lemma {:induction false} SuccessorsAreSteps(parent: Node, p: CodedProblem, env: Collaborators, k: nat)
    requires WellFormed(p) && k <= |p.operators|
    ensures var succ := SuccessorsUpTo(parent, p, env, k);
      forall j :: 0 <= j < |succ| ==>
        succ[j].operator == ApplicableUpTo(p, env, parent.state, k)[j] && ValidStep(parent, succ[j], p, env)
    decreases k
  {
    if k > 0 {
      SuccessorsAreSteps(parent, p, env, k - 1);
    }
  }

  /** All successors of `parent`. */
  function Successors(parent: Node, p: CodedProblem, env: Collaborators): seq<Node>
    requires WellFormed(p)
  {
    SuccessorsUpTo(parent, p, env, |p.operators|)
  }

  /**
    Expands `parent`: for each operator in table order, when it applies, the
    parent's state is copied, or-ed with the first effect's positive bits and
    and-not-ed with its negative bits, and a node recording the operator's
    table position is appended. The index advances for every operator.
  */
  method GetSuccessors(parent: Node, problem: CodedProblem, env: Collaborators) returns (successors: seq<Node>)
    requires WellFormed(problem)
    ensures successors == Successors(parent, problem, env)
  {
    successors := [];
    var index := 0;
    while index < |problem.operators|
      invariant 0 <= index <= |problem.operators|
      invariant successors == SuccessorsUpTo(parent, problem, env, index)
    {
      var op := problem.operators[index];
      if env.isApplicable(op, parent.state) {
        var nextState := parent.state;
        nextState := nextState + op.condEffects[0].effects.positive;
        nextState := nextState - op.condEffects[0].effects.negative;
        var successor := Node(nextState, Some(parent), index, parent.cost + op.cost,
                              parent.depth + 1, env.estimate(nextState, problem.goal));
        successors := successors + [successor];
      }
      index := index + 1;
    }
  }

  // ---------------------------------------------------------------------------
  // Selection

  /**
    The position `popBestNode` settles on after looking at the first `k`
    nodes: the last position from 1 on whose heuristic is strictly below
    `bound`, or 0 when there is none. The first node is never compared.
  */
  function BestUpTo(nodes: seq<Node>, bound: int, k: nat): (b: nat)
    requires 1 <= k <= |nodes|
    ensures b < k
    ensures b == 0 || nodes[b].heuristic < bound
    ensures forall j :: b < j < k ==> nodes[j].heuristic >= bound
    decreases k
  {
    if k == 1 then 0
    else if nodes[k - 1].heuristic < bound then k - 1
    else BestUpTo(nodes, bound, k - 1)
  }

  function BestIndex(nodes: seq<Node>, bound: int): nat
    requires nodes != []
  {
    BestUpTo(nodes, bound, |nodes|)
  }

  /**
    The contract of `BestUpTo` leaves exactly one position: any position
    meeting it is the one selected.
  */
  lemma BestIndexUnique(nodes: seq<Node>, bound: int, b: nat)
    requires nodes != [] && b < |nodes|
    requires b == 0 || nodes[b].heuristic < bound
    requires forall j :: b < j < |nodes| ==> nodes[j].heuristic >= bound
    ensures b == BestIndex(nodes, bound)
  {
  }

  /**
    Scans the nodes after the first one, keeping the last whose heuristic is
    strictly below the bound carried over from earlier rounds; an empty list
    gives no node. The selection is returned as a position in the list.
  */
  method PopBestNode(nodes: seq<Node>, bestHeuristic: int) returns (best: Option<nat>)
    ensures nodes == [] <==> best.None?
    ensures nodes != [] ==> best == Some(BestIndex(nodes, bestHeuristic)) && best.value < |nodes|
  {
    best := None;
    if nodes != [] {
      var node := 0;
      var i := 1;
      while i < |nodes|
        invariant 1 <= i <= |nodes|
        invariant node == BestUpTo(nodes, bestHeuristic, i)
      {
        if nodes[i].heuristic < bestHeuristic {
          node := i;
        }
        i := i + 1;
      }
      best := Some(node);
    }
  }

  // ---------------------------------------------------------------------------
  // One round, and the whole run

  /** How one round ends: the picked successor satisfies the goal, or it becomes the open node under a new bound, or nothing applies. */
  datatype Round = Solved(node: Node) | Continue(node: Node, bound: int) | DeadEnd

  /**
    One round: expand `current`, pick a successor against `bound`, goal-test
    only that successor. Only an expansion without successors is a dead end,
    and a continued round carries the minimum of the old bound and the picked
    node's heuristic: the bound never rises.
  */
  function Step(p: CodedProblem, env: Collaborators, current: Node, bound: int): (outcome: Round)
    requires WellFormed(p)
    ensures outcome.DeadEnd? <==> Successors(current, p, env) == []
    ensures outcome.Continue? ==>
      outcome.bound <= bound && outcome.bound <= outcome.node.heuristic &&
      (outcome.bound == bound || outcome.bound == outcome.node.heuristic)
  {
    var successors := Successors(current, p, env);
    if successors == [] then DeadEnd
    else
      var successor := successors[BestIndex(successors, bound)];
      if env.satisfy(successor.state, p.goal) then Solved(successor)
      else Continue(successor, if successor.heuristic <= bound then successor.heuristic else bound)
  }

  /**
    A round ends at a dead end exactly when no operator applies to the
    expanded state. Otherwise the picked node is a valid step from the
    expanded node, it is one of its successors, and it is goal-tested: a
    solved round returns a node satisfying the goal, and a continued round
    carries a node that does not (how its bound moves is part of the
    contract of `Step`).
  */
  lemma StepFacts(p: CodedProblem, env: Collaborators, current: Node, bound: int)
    requires WellFormed(p)
    ensures Step(p, env, current, bound).DeadEnd? <==>
      forall i :: 0 <= i < |p.operators| ==> !env.isApplicable(p.operators[i], current.state)
    ensures Step(p, env, current, bound).Solved? ==>
      var n := Step(p, env, current, bound).node;
      n in Successors(current, p, env) && ValidStep(current, n, p, env) && env.satisfy(n.state, p.goal)
    ensures Step(p, env, current, bound).Continue? ==>
      var n := Step(p, env, current, bound).node;
      var b := Step(p, env, current, bound).bound;
      n in Successors(current, p, env) && ValidStep(current, n, p, env) && !env.satisfy(n.state, p.goal)
  {
    ApplicableInOrder(p, env, current.state, |p.operators|);
    SuccessorsAreSteps(current, p, env, |p.operators|);
    var idx := Applicable(p, env, current.state);
    if idx != [] {
      assert env.isApplicable(p.operators[idx[0]], current.state);
    }
  }

  /** The clock reading the loop condition sees before round `round`: 0 before the first. */
  function Elapsed(clock: seq<int>, round: nat): int
    requires round <= |clock|
  {
    if round == 0 then 0 else clock[round - 1]
  }

  /**
    The environment lets time pass: the last reading taken reaches the
    timeout (with no reading at all, the timeout is already reached at 0).
  */
  predicate ClockExpires(clock: seq<int>, timeout: int) {
    if clock == [] then timeout <= 0 else clock[|clock| - 1] >= timeout
  }

  /** How a search ends: it returns a node or null with the measured time, or it dereferences the null node of a dead end. */
  datatype Final = Returned(solution: Option<Node>, searchingTime: int) | DeadEndCrash

  /**
    The search from round `round` on, with `current` the one open node and
    `bound` the best heuristic so far. `clock[k]` is the elapsed time
    measured after round `k`; a round starts only while the last measured
    time is below the timeout.
  */
  function Run(p: CodedProblem, env: Collaborators, timeout: int, clock: seq<int>,
               current: Node, bound: int, round: nat): (f: Final)
    requires WellFormed(p) && ClockExpires(clock, timeout) && round <= |clock|
    ensures f.Returned? && f.solution.None? ==> f.searchingTime >= timeout
    decreases |clock| - round
  {
    if Elapsed(clock, round) >= timeout then Returned(None, Elapsed(clock, round))
    else
      match Step(p, env, current, bound)
      case DeadEnd => DeadEndCrash
      case Solved(n) => Returned(Some(n), clock[round])
      case Continue(n, b) => Run(p, env, timeout, clock, n, b, round + 1)
  }

  /** Helper: a round that starts has a clock reading after it, and the run continues as that round ends. */
  lemma RunRound(p: CodedProblem, env: Collaborators, timeout: int, clock: seq<int>,
                 current: Node, bound: int, round: nat)
    requires WellFormed(p) && ClockExpires(clock, timeout) && round <= |clock|
    requires Elapsed(clock, round) < timeout
    ensures round < |clock|
    ensures Step(p, env, current, bound).DeadEnd? ==> Run(p, env, timeout, clock, current, bound, round) == DeadEndCrash
    ensures Step(p, env, current, bound).Solved? ==>
      Run(p, env, timeout, clock, current, bound, round) == Returned(Some(Step(p, env, current, bound).node), clock[round])
    ensures Step(p, env, current, bound).Continue? ==>
      Run(p, env, timeout, clock, current, bound, round) ==
      Run(p, env, timeout, clock, Step(p, env, current, bound).node, Step(p, env, current, bound).bound, round + 1)
  {
  }

  /**
    A node the run returns satisfies the goal, was produced by expansion
    (it has a parent, so it is never the node the run started from), hangs
    below the run's root through valid steps, and is deeper than the node the
    run started from. A run that returns null stopped because the measured
    time reached the timeout.
  */
  lemma {:induction false} RunFacts(p: CodedProblem, env: Collaborators, timeout: int, clock: seq<int>,
                                    current: Node, bound: int, round: nat, root: Node)
    requires WellFormed(p) && ClockExpires(clock, timeout) && round <= |clock|
    requires LinkedFrom(current, root, p, env)
    ensures var f := Run(p, env, timeout, clock, current, bound, round);
      f.Returned? && f.solution.Some? ==>
        var n := f.solution.value;
        env.satisfy(n.state, p.goal) && n.parent.Some? && LinkedFrom(n, root, p, env) && n.depth > current.depth
    decreases |clock| - round
  {
    if Elapsed(clock, round) < timeout {
      StepFacts(p, env, current, bound);
      match Step(p, env, current, bound)
      case DeadEnd =>
      case Solved(n) =>
        LinkedExtend(current, n, root, p, env);
      case Continue(n, b) =>
        LinkedExtend(current, n, root, p, env);
        RunFacts(p, env, timeout, clock, n, b, round + 1, root);
    }
  }

  /** With a timeout of at most 0 the loop body never runs: nothing is expanded and null is returned with time 0. */
  lemma RunNonPositiveTimeout(p: CodedProblem, env: Collaborators, timeout: int, clock: seq<int>, current: Node, bound: int)
    requires WellFormed(p) && ClockExpires(clock, timeout) && timeout <= 0
    ensures Run(p, env, timeout, clock, current, bound, 0) == Returned(None, 0)
  {
  }

  /**
    If no operator applies to the initial state and the timeout is positive,
    the first round finds no successor and the search crashes on the null
    node instead of returning null.
  */
  lemma RunDeadEndAtRoot(p: CodedProblem, env: Collaborators, timeout: int, clock: seq<int>)
    requires WellFormed(p) && ClockExpires(clock, timeout) && timeout > 0
    requires forall i :: 0 <= i < |p.operators| ==> !env.isApplicable(p.operators[i], p.init)
    ensures Run(p, env, timeout, clock, Root(p, env), IntegerMaxValue, 0) == DeadEndCrash
  {
    StepFacts(p, env, Root(p, env), IntegerMaxValue);
  }

  // ---------------------------------------------------------------------------
  // The search and the entry points

  /**
    The state of the search loop before round `round`: `current` is the one
    open node, `round` levels below the root, and running on from it with
    `bound` ends as the whole search ends.
  */
  ghost predicate Climbing(p: CodedProblem, env: Collaborators, timeout: int, clock: seq<int>, final: Final,
                           current: Node, bound: int, round: nat)
    requires WellFormed(p) && ClockExpires(clock, timeout)
  {
    round <= |clock| && current.depth == round && Run(p, env, timeout, clock, current, bound, round) == final
  }

  /**
    A round that starts from a loop state ends as the whole search ends when
    it hits a dead end or solves the goal; a continued round leads to the next
    loop state, one level deeper, with the node and bound it carries.
  */
  lemma RoundAdvances(p: CodedProblem, env: Collaborators, timeout: int, clock: seq<int>, final: Final,
                      current: Node, bound: int, round: nat, outcome: Round)
    requires WellFormed(p) && ClockExpires(clock, timeout)
    requires Climbing(p, env, timeout, clock, final, current, bound, round)
    requires Elapsed(clock, round) < timeout
    requires outcome == Step(p, env, current, bound)
    ensures round < |clock|
    ensures outcome.DeadEnd? ==> final == DeadEndCrash
    ensures outcome.Solved? ==> final == Returned(Some(outcome.node), clock[round])
    ensures outcome.Continue? ==>
      Climbing(p, env, timeout, clock, final, outcome.node, outcome.bound, round + 1)
  {
    RunRound(p, env, timeout, clock, current, bound, round);
    StepFacts(p, env, current, bound);
  }

  /** Helper: a loop state whose measured time has reached the timeout is where the search returns null with that time. */
  lemma RoundsExhausted(p: CodedProblem, env: Collaborators, timeout: int, clock: seq<int>, final: Final,
                        current: Node, bound: int, round: nat)
    requires WellFormed(p) && ClockExpires(clock, timeout)
    requires Climbing(p, env, timeout, clock, final, current, bound, round)
    requires Elapsed(clock, round) >= timeout
    ensures final == Returned(None, Elapsed(clock, round))
  {
  }

  /**
    What a search of `p` leaves behind: the root recorded as the strategy's
    root node, and the result and searching time of the run from the root
    with the bound at `Integer.MAX_VALUE`. A crash leaves the searching time
    as it was.
  */
  ghost predicate Searched(p: CodedProblem, env: Collaborators, timeout: int, clock: seq<int>,
                           r: Result<Option<Node>, Fault>, rootNode: Option<Node>,
                           searchingTime: int, previousSearchingTime: int)
    requires WellFormed(p) && ClockExpires(clock, timeout)
  {
    rootNode == Some(Root(p, env)) &&
    match Run(p, env, timeout, clock, Root(p, env), IntegerMaxValue, 0)
    case Returned(solution, t) => r == Success(solution) && searchingTime == t
    case DeadEndCrash => r == Failure(DeadEndDereference) && searchingTime == previousSearchingTime
  }

  /**
    The plan extracted from the node a search returns solves the problem:
    executed from the initial state, every action applies where it is
    executed and the state reached satisfies the goal; the plan is never
    empty, has one action per level of the node's depth, and costs the
    node's accumulated cost.
  */
  lemma FoundPlanSolves(p: CodedProblem, env: Collaborators, timeout: int, clock: seq<int>)
    requires WellFormed(p) && ClockExpires(clock, timeout)
    ensures var f := Run(p, env, timeout, clock, Root(p, env), IntegerMaxValue, 0);
      f.Returned? && f.solution.Some? ==>
        var n := f.solution.value;
        IndicesInRange(n, p.operators) &&
        var plan := PlanOf(n, p.operators);
        1 <= |plan| == n.depth && AllHaveEffect(plan) && Executable(p.init, plan, env) &&
        env.satisfy(Replay(p.init, plan), p.goal) && PlanCost(plan) == n.cost
  {
    var root := Root(p, env);
    RunFacts(p, env, timeout, clock, root, IntegerMaxValue, 0, root);
    var f := Run(p, env, timeout, clock, root, IntegerMaxValue, 0);
    if f.Returned? && f.solution.Some? {
      PlanReplaysPath(f.solution.value, root, p, env);
    }
  }

  /**
    The body of one round of the search loop: expand the open node, pick
    the successor to climb to, and goal-test it. No successor at all is the
    dead end at which the Java code goes on to dereference the null node.
  */
  method ClimbRound(current: Node, p: CodedProblem, env: Collaborators, bestHeuristic: int)
    returns (outcome: Round)
    requires WellFormed(p)
    ensures outcome == Step(p, env, current, bestHeuristic)
  {
    var successors := GetSuccessors(current, p, env);
    var picked := PopBestNode(successors, bestHeuristic);
    if picked.None? {
      return DeadEnd;
    }
    var successor := successors[picked.value];
    if env.satisfy(successor.state, p.goal) {
      outcome := Solved(successor);
    } else if successor.heuristic <= bestHeuristic {
      outcome := Continue(successor, successor.heuristic);
    } else {
      outcome := Continue(successor, bestHeuristic);
    }
  }

  /**
    What the recorded outcome of a search means: a returned node satisfies
    the goal, was reached from the recorded root through valid steps (so it
    is never the root itself, which is not goal-tested), and all its operator
    indices are table positions; null is returned only once the measured time
    has reached the timeout; and a timeout of at most 0 gives null at time 0.
  */
  lemma SearchedMeaning(p: CodedProblem, env: Collaborators, timeout: int, clock: seq<int>,
                        r: Result<Option<Node>, Fault>, rootNode: Option<Node>,
                        searchingTime: int, previousSearchingTime: int)
    requires WellFormed(p) && ClockExpires(clock, timeout)
    requires Searched(p, env, timeout, clock, r, rootNode, searchingTime, previousSearchingTime)
    ensures r.Success? && r.value.Some? ==>
      var n := r.value.value;
      env.satisfy(n.state, p.goal) && n.parent.Some? && LinkedFrom(n, rootNode.value, p, env) &&
      IndicesInRange(n, p.operators) && n.depth >= 1
    ensures r.Success? && r.value.None? ==> searchingTime >= timeout
    ensures timeout <= 0 ==> r == Success(None) && searchingTime == 0
  {
    var root := Root(p, env);
    RunFacts(p, env, timeout, clock, root, IntegerMaxValue, 0, root);
    if timeout <= 0 {
      RunNonPositiveTimeout(p, env, timeout, clock, root, IntegerMaxValue);
    }
    if r.Success? && r.value.Some? {
      LinkedChain(r.value.value, root, p, env);
    }
  }

  /**
    The loop of the hill-climbing search, from the open list holding only
    `root` and the bound at `Integer.MAX_VALUE`. The open list holds exactly
    the one node being climbed from, whose depth is the number of rounds
    done; it runs the rounds of `Run`.
  */
  method Climb(p: CodedProblem, env: Collaborators, timeout: int, clock: seq<int>, root: Node)
    returns (f: Final)
    requires WellFormed(p) && ClockExpires(clock, timeout)
    requires root == Root(p, env)
    ensures f == Run(p, env, timeout, clock, root, IntegerMaxValue, 0)
  {
    var openList: seq<Node> := [root];
    var bestHeuristic := IntegerMaxValue;
    var solution: Option<Node> := None;
    var deadEndFree := true;
    var searchingTime := 0;
    var round: nat := 0;  // how many readings of the clock have been taken
    ghost var final := Run(p, env, timeout, clock, root, bestHeuristic, 0);
    ghost var current := root;  // the node the open list holds

    while openList != [] && solution.None? && deadEndFree && searchingTime < timeout
      invariant round <= |clock| && searchingTime == Elapsed(clock, round)
      invariant deadEndFree
      invariant solution.None? ==> openList == [current] && Climbing(p, env, timeout, clock, final, current, bestHeuristic, round)
      invariant solution.Some? ==> openList == [] && final == Returned(solution, searchingTime)
      decreases |clock| - round
    {
      var currentState := openList[0];
      openList := openList[1..];
      var outcome := ClimbRound(currentState, p, env, bestHeuristic);
      deadEndFree := !outcome.DeadEnd?;
      RoundAdvances(p, env, timeout, clock, final, currentState, bestHeuristic, round, outcome);
      match outcome {
        case DeadEnd =>
          // the goal test dereferences the null node before `deadEndFree` is read again
          return DeadEndCrash;
        case Solved(n) =>
          solution := Some(n);
        case Continue(n, b) =>
          openList := [n];
          bestHeuristic := b;
          current := n;
      }
      searchingTime := clock[round];
      round := round + 1;
    }
    if solution.None? {
      RoundsExhausted(p, env, timeout, clock, final, current, bestHeuristic, round);
    }
    f := Returned(solution, searchingTime);
  }

  /**
    The hill-climbing search. A null problem fails before anything is done.
    Otherwise the root is built from the initial state and recorded, the
    loop runs, and the time it measured is recorded unless it crashed.
  */
  method Search(strategy: Strategy, problem: Option<CodedProblem>, env: Collaborators, clock: seq<int>)
    returns (r: Result<Option<Node>, Fault>)
    requires problem.Some? ==> WellFormed(problem.value) && ClockExpires(clock, strategy.timeout)
    modifies strategy
    ensures problem.None? ==> r == Failure(NullProblem) && unchanged(strategy)
    ensures problem.Some? ==>
      Searched(problem.value, env, old(strategy.timeout), clock, r,
               strategy.rootNode, strategy.searchingTime, old(strategy.searchingTime))
    ensures strategy.heuristic == old(strategy.heuristic) && strategy.weight == old(strategy.weight)
    ensures strategy.timeout == old(strategy.timeout)
  {
    if problem.None? {
      return Failure(NullProblem);
    }
    var p := problem.value;
    var init := p.init;
    var root := Node(init, None, 0, 0.0, 0, env.estimate(init, p.goal));
    strategy.SetRootNode(Some(root));
    var timeout := strategy.GetTimeout();
    var f := Climb(p, env, timeout, clock, root);
    match f
    case DeadEndCrash =>
      r := Failure(DeadEndDereference);
    case Returned(solution, searchingTime) =>
      strategy.SetSearchingTime(searchingTime);
      r := Success(solution);
  }

  /** Fails on a null problem before any search work; otherwise it is the search. */
  method SearchSolutionNode(strategy: Strategy, problem: Option<CodedProblem>, env: Collaborators, clock: seq<int>)
    returns (r: Result<Option<Node>, Fault>)
    requires problem.Some? ==> WellFormed(problem.value) && ClockExpires(clock, strategy.timeout)
    modifies strategy
    ensures problem.None? ==> r == Failure(NullProblem) && unchanged(strategy)
    ensures problem.Some? ==>
      Searched(problem.value, env, old(strategy.timeout), clock, r,
               strategy.rootNode, strategy.searchingTime, old(strategy.searchingTime))
    ensures strategy.heuristic == old(strategy.heuristic) && strategy.weight == old(strategy.weight)
    ensures strategy.timeout == old(strategy.timeout)
  {
    if problem.None? {
      return Failure(NullProblem);
    }
    r := Search(strategy, problem, env, clock);
  }

  /**
    Fails on a null problem before any search work. Otherwise it searches;
    it returns null exactly when the search returns null, the plan extracted
    from the returned node when there is one, and the search's failure when
    it crashes.
  */
  method SearchPlan(strategy: Strategy, problem: Option<CodedProblem>, env: Collaborators, clock: seq<int>)
    returns (r: Result<Option<Plan>, Fault>)
    requires problem.Some? ==> WellFormed(problem.value) && ClockExpires(clock, strategy.timeout)
    modifies strategy
    ensures problem.None? ==> r == Failure(NullProblem) && unchanged(strategy)
    ensures problem.Some? ==>
      var p := problem.value;
      strategy.rootNode == Some(Root(p, env)) &&
      match Run(p, env, old(strategy.timeout), clock, Root(p, env), IntegerMaxValue, 0)
      case Returned(None, t) => r == Success(None) && strategy.searchingTime == t
      case Returned(Some(n), t) =>
        IndicesInRange(n, p.operators) && r == Success(Some(PlanOf(n, p.operators))) && strategy.searchingTime == t
      case DeadEndCrash => r == Failure(DeadEndDereference) && strategy.searchingTime == old(strategy.searchingTime)
    ensures strategy.heuristic == old(strategy.heuristic) && strategy.weight == old(strategy.weight)
    ensures strategy.timeout == old(strategy.timeout)
  {
    if problem.None? {
      return Failure(NullProblem);
    }
    var p := problem.value;
    var solutionNode := Search(strategy, problem, env, clock);
    SearchedMeaning(p, env, old(strategy.timeout), clock, solutionNode,
                    strategy.rootNode, strategy.searchingTime, old(strategy.searchingTime));
    if solutionNode.Failure? {
      return Failure(solutionNode.error);
    }
    if solutionNode.value.Some? {
      var plan := strategy.ExtractPlan(solutionNode.value, p);
      r := Success(plan);
    } else {
      r := Success(None);
    }
  }

  /**
    The constructor: the planner's defaults, then the three setters. A null
    heuristic type makes it throw.
  */
  method NewHillClimbing(timeout: int, heuristic: Option<HeuristicType>, weight: real,
                         defaultHeuristic: HeuristicType, defaultWeight: real, defaultTimeout: int)
    returns (r: Result<Strategy, Fault>)
    ensures heuristic.None? <==> r.Failure?
    ensures r.Failure? ==> r.error == NullHeuristicType
    ensures r.Success? ==>
      fresh(r.value) && r.value.timeout == timeout && r.value.heuristic == heuristic &&
      r.value.weight == weight && r.value.searchingTime == 0 && r.value.rootNode == None
  {
    var s := new Strategy.Default(defaultHeuristic, defaultWeight, defaultTimeout);
    s.SetTimeOut(timeout);
    var outcome := s.SetHeuristicType(heuristic);
    if outcome.Fail? {
      return Failure(outcome.error);
    }
    s.SetWeight(weight);
    r := Success(s);
  }
}
