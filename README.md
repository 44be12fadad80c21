# PDDL4J state-space search: hill climbing and the strategy framework

This project models the core of PDDL4J's state-space search and proves
properties of the model in Dafny.

**Hill climbing (`HillClimbing`).**
- The search builds a root node from the initial state and records it.
- Each round it expands the single open node. Every applicable operator, in table order, gives a successor: the parent's state or-ed with the operator's first effect's positive bits, then and-not-ed with its negative bits.
- It picks one successor against a bound carried over from earlier rounds and goal-tests only that successor.
- On a miss, the picked node becomes the only open node and the bound drops to its heuristic when that is not above the bound.
- It stops when a picked node satisfies the goal or the measured time reaches the timeout.

**The strategy framework (`StateSpaceStrategy`).**
- Configuration fields with their getters and setters; the heuristic-type setter rejects null.
- The two constructors.
- The entry points `searchSolutionNode` and `searchPlan`.
- `extractPlan`, which walks parent links and prepends each operator, so the plan runs root first.

Modules:
- `Wrappers`: Java `null` and thrown exceptions as `Option`, `Result` and `Outcome` values.
- `Encoding`: the coded problem. A bit state is a set of proposition indices, and an operator has its conditional effects. The applicability test, the goal test and the heuristic estimator are the function-valued fields of `Collaborators`.
- `Nodes`: immutable search nodes that hold their parent. `ValidStep` is the relation between a node and its parent that the successor generator establishes, and `LinkedFrom` is a chain of valid steps.
- `StateSpaceStrategy`:
  - `PlanOf`, the plan read off a node's parent chain.
  - Plan execution (`Replay`, `Executable`) and cost (`PlanCost`).
  - The class `Strategy`, holding the fields the Java code updates in place: `heuristic`, `weight`, `timeout`, `searchingTime` and `rootNode`.
- `HillClimbing`:
  - the specification functions of one round (`Successors`, `BestIndex`, `Step`) and of the whole search (`Run`);
  - the imperative methods proved against them (`GetSuccessors`, `PopBestNode`, `ClimbRound`, `Climb`, `Search`);
  - the entry points and the constructor.
- `Scenarios`: concrete problems run through `Run`.

The clock is a parameter. `clock[k]` is the elapsed time measured after round `k`. A round starts only while the last measured time (0 before the first round) is below the timeout, exactly the comparison `searchingTime < timeout` of the loop. The caller promises that the readings eventually reach the timeout (`ClockExpires`), which is what makes the loop end when no solution is found.

A dead end is a crash, not a null result. With no applicable operator, `popBestNode` returns null and the goal test dereferences it. The model returns `Failure(DeadEndDereference)`. The root node is recorded by then, and the searching time is not written.

The code never goal-tests the root, so a problem whose goal already holds still yields a depth-1 successor and the plan [A], not the root and an empty plan (`Scenarios.GoalAtStartNotRoot`).

## Model

All paths are under `src/main/java/fr/uga/pddl4j/planners/statespace/search/strategy/`; the table writes them out in full.

| member | source | states |
|---|---|---|
| Encoding.Apply | src/main/java/fr/uga/pddl4j/planners/statespace/search/strategy/HillClimbing.java:121-123 | every negative bit of the first effect ends clear, every positive bit not also negative ends set, the other bits of the state are kept, and no other bit appears |
| Nodes.Root | src/main/java/fr/uga/pddl4j/planners/statespace/search/strategy/HillClimbing.java:67-68 | the root holds the initial state with cost 0 and depth 0, has no parent, its chain is itself alone, and it is linked from itself |
| Nodes.LinkedChain | src/main/java/fr/uga/pddl4j/planners/statespace/search/strategy/HillClimbing.java:127-131 | along a chain of valid steps from a root, depth counts the parent links, the top of the chain is the root, each node's depth is its position on the path, and every operator index is a table position |
| StateSpaceStrategy.PlanOf | src/main/java/fr/uga/pddl4j/planners/statespace/search/strategy/AbstractStateSpaceStrategy.java:234-238 | the plan read off a node has exactly one operator per parent link |
| StateSpaceStrategy.PlanAlongPath | src/main/java/fr/uga/pddl4j/planners/statespace/search/strategy/AbstractStateSpaceStrategy.java:235-237 | element `j-1` of the plan is the operator recorded by the node `j` links below the top of the chain: the plan runs root first |
| StateSpaceStrategy.PlanReplaysPath | src/main/java/fr/uga/pddl4j/planners/statespace/search/strategy/HillClimbing.java:121-131 | for a node reached from a root through valid steps, the extracted plan executes from the root's state (every action applicable where executed), ends in the node's state, has depth-many actions, and costs the node's cost minus the root's |
| StateSpaceStrategy.Strategy.Default | src/main/java/fr/uga/pddl4j/planners/statespace/search/strategy/AbstractStateSpaceStrategy.java:170-176 | the planner defaults are stored, searching time is 0, no root node |
| StateSpaceStrategy.Strategy.constructor | src/main/java/fr/uga/pddl4j/planners/statespace/search/strategy/AbstractStateSpaceStrategy.java:185-191 | the three arguments are stored as given, a null heuristic type included; searching time is 0, no root node |
| StateSpaceStrategy.Strategy.GetHeuristicType | src/main/java/fr/uga/pddl4j/planners/statespace/search/strategy/AbstractStateSpaceStrategy.java:71-74 | returns the stored heuristic type |
| StateSpaceStrategy.Strategy.SetHeuristicType | src/main/java/fr/uga/pddl4j/planners/statespace/search/strategy/AbstractStateSpaceStrategy.java:81-85 | null fails and leaves the object unchanged; otherwise the value is stored and no other field changes |
| StateSpaceStrategy.Strategy.GetWeight | src/main/java/fr/uga/pddl4j/planners/statespace/search/strategy/AbstractStateSpaceStrategy.java:92-95 | returns the stored weight |
| StateSpaceStrategy.Strategy.SetWeight | src/main/java/fr/uga/pddl4j/planners/statespace/search/strategy/AbstractStateSpaceStrategy.java:102-105 | stores the weight; no other field changes |
| StateSpaceStrategy.Strategy.SetTimeOut | src/main/java/fr/uga/pddl4j/planners/statespace/search/strategy/AbstractStateSpaceStrategy.java:112-115 | stores the timeout; no other field changes |
| StateSpaceStrategy.Strategy.GetTimeout | src/main/java/fr/uga/pddl4j/planners/statespace/search/strategy/AbstractStateSpaceStrategy.java:122-125 | returns the stored timeout |
| StateSpaceStrategy.Strategy.GetSearchingTime | src/main/java/fr/uga/pddl4j/planners/statespace/search/strategy/AbstractStateSpaceStrategy.java:132-135 | returns the stored searching time |
| StateSpaceStrategy.Strategy.SetSearchingTime | src/main/java/fr/uga/pddl4j/planners/statespace/search/strategy/AbstractStateSpaceStrategy.java:142-145 | stores the searching time; no other field changes |
| StateSpaceStrategy.Strategy.GetRootNode | src/main/java/fr/uga/pddl4j/planners/statespace/search/strategy/AbstractStateSpaceStrategy.java:152-155 | returns the stored root node |
| StateSpaceStrategy.Strategy.SetRootNode | src/main/java/fr/uga/pddl4j/planners/statespace/search/strategy/AbstractStateSpaceStrategy.java:162-165 | stores the root node; no other field changes |
| StateSpaceStrategy.Strategy.ExtractPlan | src/main/java/fr/uga/pddl4j/planners/statespace/search/strategy/AbstractStateSpaceStrategy.java:229-243 | null gives null and only null does; otherwise the loop over parent links builds exactly `PlanOf` of the node (empty for a node without parent) |
| HillClimbing.ApplicableUpTo | src/main/java/fr/uga/pddl4j/planners/statespace/search/strategy/HillClimbing.java:118-134 | the table positions collected below `k` are at most `k` (their exact characterisation is `ApplicableInOrder`) |
| HillClimbing.ApplicableInOrder | src/main/java/fr/uga/pddl4j/planners/statespace/search/strategy/HillClimbing.java:118-135 | the positions collected are exactly the applicable table positions, each once, in increasing table order |
| HillClimbing.Child | src/main/java/fr/uga/pddl4j/planners/statespace/search/strategy/HillClimbing.java:126-131 | the node built for table position `i` records `i`, and when that operator applies it is a valid step from the parent |
| HillClimbing.SuccessorsUpTo | src/main/java/fr/uga/pddl4j/planners/statespace/search/strategy/HillClimbing.java:118-135 | one successor per applicable operator |
| HillClimbing.SuccessorsAreSteps | src/main/java/fr/uga/pddl4j/planners/statespace/search/strategy/HillClimbing.java:121-131 | successor `j` records the `j`-th applicable table position and is a valid step: its parent is the expanded node, its state is the or/and-not of the first effect, its cost and depth extend the parent's, its heuristic is the estimate of its state |
| HillClimbing.GetSuccessors | src/main/java/fr/uga/pddl4j/planners/statespace/search/strategy/HillClimbing.java:114-138 | the loop with its per-operator index produces exactly `Successors` of the parent |
| HillClimbing.BestUpTo | src/main/java/fr/uga/pddl4j/planners/statespace/search/strategy/HillClimbing.java:146-160 | the selection is a position of the list; it is 0 or strictly below the bound, and every later position is not below the bound |
| HillClimbing.BestIndexUnique | src/main/java/fr/uga/pddl4j/planners/statespace/search/strategy/HillClimbing.java:146-160 | any position with those properties is the one selected |
| HillClimbing.PopBestNode | src/main/java/fr/uga/pddl4j/planners/statespace/search/strategy/HillClimbing.java:146-160 | an empty list gives no node and only an empty list does; otherwise the scan returns `BestIndex`, a position of the list |
| HillClimbing.Step | src/main/java/fr/uga/pddl4j/planners/statespace/search/strategy/HillClimbing.java:81-95 | a round is a dead end exactly when the expansion has no successor; a continued round's bound is the minimum of the old bound and the picked node's heuristic, so the bound never rises |
| HillClimbing.StepFacts | src/main/java/fr/uga/pddl4j/planners/statespace/search/strategy/HillClimbing.java:81-95 | a round hits a dead end exactly when no operator applies; otherwise the picked node is a successor and a valid step, and it is goal-tested: a solved round's node satisfies the goal, a continued round's does not |
| HillClimbing.Run | src/main/java/fr/uga/pddl4j/planners/statespace/search/strategy/HillClimbing.java:78-99 | the loop from a given open node, bound and clock reading onward; a null result comes only once the measured time has reached the timeout |
| HillClimbing.RunFacts | src/main/java/fr/uga/pddl4j/planners/statespace/search/strategy/HillClimbing.java:78-103 | a returned node satisfies the goal, has a parent, hangs below the run's root through valid steps and is deeper than the node the run started from |
| HillClimbing.RunNonPositiveTimeout | src/main/java/fr/uga/pddl4j/planners/statespace/search/strategy/HillClimbing.java:75-79 | with a timeout of at most 0 no round runs and the result is null with searching time 0 |
| HillClimbing.RunDeadEndAtRoot | src/main/java/fr/uga/pddl4j/planners/statespace/search/strategy/HillClimbing.java:83-86 | with no operator applicable to the initial state and a positive timeout, the search crashes rather than returning null |
| HillClimbing.RoundAdvances | src/main/java/fr/uga/pddl4j/planners/statespace/search/strategy/HillClimbing.java:81-98 | from a loop state, a dead end and a solved round end the search as the whole run does; a continued round gives the next loop state, one level deeper, with the one picked node open |
| HillClimbing.SearchedMeaning | src/main/java/fr/uga/pddl4j/planners/statespace/search/strategy/HillClimbing.java:61-104 | after a search, a returned node satisfies the goal, is below the recorded root (never the root) through valid steps with in-range indices; null only once the time reached the timeout; a timeout of at most 0 gives null at time 0 |
| HillClimbing.FoundPlanSolves | src/main/java/fr/uga/pddl4j/planners/statespace/search/strategy/AbstractStateSpaceStrategy.java:214-216 | the plan extracted from the node a search returns is non-empty, executable from the initial state, reaches a state satisfying the goal, has one action per level of depth and costs the node's cost |
| HillClimbing.ClimbRound | src/main/java/fr/uga/pddl4j/planners/statespace/search/strategy/HillClimbing.java:81-95 | expanding, picking and goal-testing one node gives exactly the round `Step` |
| HillClimbing.Climb | src/main/java/fr/uga/pddl4j/planners/statespace/search/strategy/HillClimbing.java:63-99 | the loop ends as `Run` from the root with the bound at `Integer.MAX_VALUE`; its invariant keeps exactly one open node whose depth is the number of rounds |
| HillClimbing.Search | src/main/java/fr/uga/pddl4j/planners/statespace/search/strategy/HillClimbing.java:61-104 | null problem fails with nothing changed; otherwise the root is recorded, the result is the run's, the measured time is recorded unless the search crashed, and the configuration is unchanged |
| HillClimbing.SearchSolutionNode | src/main/java/fr/uga/pddl4j/planners/statespace/search/strategy/AbstractStateSpaceStrategy.java:199-203 | null problem fails before any work; otherwise it is the search; heuristic type, weight and timeout are unchanged |
| HillClimbing.SearchPlan | src/main/java/fr/uga/pddl4j/planners/statespace/search/strategy/AbstractStateSpaceStrategy.java:211-220 | null problem fails before any work; null exactly when the search returns null; the extracted plan of the returned node otherwise; a crash propagates and leaves the searching time as it was; heuristic type, weight and timeout are unchanged |
| HillClimbing.NewHillClimbing | src/main/java/fr/uga/pddl4j/planners/statespace/search/strategy/HillClimbing.java:49-54 | fails exactly on a null heuristic type; otherwise a fresh strategy holding the three arguments, searching time 0 and no root |
| Scenarios.TwoStepsFirstRound | src/main/java/fr/uga/pddl4j/planners/statespace/search/strategy/HillClimbing.java:81-94 | from {p} only A applies, and its node continues the climb with bound 1 |
| Scenarios.TwoStepsSecondRound | src/main/java/fr/uga/pddl4j/planners/statespace/search/strategy/HillClimbing.java:81-87 | from {p, q} the node reached through B is picked and satisfies the goal |
| Scenarios.TwoStepsSolved | src/main/java/fr/uga/pddl4j/planners/statespace/search/strategy/HillClimbing.java:61-104 | the two-step problem is solved in two rounds by the plan [A, B] of cost 2 and depth 2 |
| Scenarios.GoalAtStartNotRoot | src/main/java/fr/uga/pddl4j/planners/statespace/search/strategy/HillClimbing.java:81-87 | with the goal true initially, the search still returns a depth-1 successor and the plan [A], not the root and the empty plan |
| Scenarios.SelectionAgainstCarriedBound | src/main/java/fr/uga/pddl4j/planners/statespace/search/strategy/HillClimbing.java:146-160 | selection takes the last node strictly below the carried bound, not the minimum, and falls back to the never-compared first node |

## Left out

- Wall-clock time (`System.currentTimeMillis`): replaced by the `clock` parameter of measured readings. Milliseconds are not converted to the seconds in which the timeout is documented. The caller must supply readings that reach the timeout (`ClockExpires`), and a search whose time never reaches the timeout is outside the model.
- Heuristic construction (`HeuristicToolKit.createHeuristic`) and the mapping from heuristic type to estimator: the estimator is the `estimate` field of `Collaborators`, an integer-valued function. The Java `double` heuristic and bound are only compared, so they are integers here, with `Integer.MAX_VALUE` as the starting bound.
- `BitOp.isApplicable` and `Node.satisfy` are abstract predicates (`isApplicable`, `satisfy`). `BitState`, `Node` and `CodedProblem` are not part of this model beyond the fields the core reads.
- `Node` is not modelled; the root's depth is assumed to be 0. The depth-based facts rest on that assumption: `|plan| == n.depth` in `HillClimbing.FoundPlanSolves`, `n.depth >= 1` in `HillClimbing.SearchedMeaning`, and `current.depth == round` in the loop state `Climbing`. `StateSpaceStrategy.PlanReplaysPath` states the same relative to the root (`n.depth - root.depth`) and does not depend on it.
- Operator cost is a `real`, standing for a `double` without rounding.
- `nodes.remove(node)` in `popBestNode`: the list is discarded afterwards, so selection returns a position and removal is not modelled.
- `weight` is stored and returned but hill climbing never uses it.
- The planner defaults (`StateSpacePlanner.DEFAULT_*`) are unseen constants and become parameters of `Strategy.Default` and `NewHillClimbing`.
- An out-of-range `get(0)` on an operator without conditional effects, or an out-of-range operator index: operators are required to have an effect record (`WellFormed`), and `ExtractPlan` requires in-range indices (`IndicesInRange`), which every node the search produces has (`SearchedMeaning`).
- HillClimbing.Climb: the loop is a method of its own, taking the coded problem and the timeout the search read, so the `deadEndFree` flag is still set each round but is never what ends the loop: a dead end crashes first.
- StateSpaceStrategy.Strategy.ExtractPlan: a null problem is not modelled (the problem parameter cannot be null). The Java code then throws a NullPointerException when the node has a parent and returns the empty plan when it has none; the only caller, `searchPlan`, passes a problem it has already checked for null.
- Serialisation, plan printing, grounding and parsing are outside the core.
