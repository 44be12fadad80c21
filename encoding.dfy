/**
  The compiled ("coded") planning problem the search consumes: bit states,
  operators with their first conditional effect, and the collaborators whose
  code is not part of this model (applicability test, goal test, heuristic).
*/
module Encoding {

  /** A bit state: the set of proposition indices whose bit is set. */
  type State = set<nat>

  /** A conjunction of literals: the propositions that must be set and those that must be clear. */
  datatype BitExp = BitExp(positive: State, negative: State)

  /** A conditional effect record. The search never looks at `condition`. */
  datatype CondEffect = CondEffect(condition: BitExp, effects: BitExp)

  /** A grounded operator. `cost` stands for a Java `double`, taken exactly. */
  datatype Operator = Operator(precondition: BitExp, condEffects: seq<CondEffect>, cost: real)

  /** The ordered operator table, the initial state and the goal. */
  datatype CodedProblem = CodedProblem(operators: seq<Operator>, init: State, goal: BitExp)

  /**
    The code the search calls but which is not part of this model:
    `isApplicable` stands for `BitOp.isApplicable`, `satisfy` for `Node.satisfy`
    and `estimate` for the estimator the heuristic factory built for the
    configured heuristic type.
  */
  datatype Collaborators = Collaborators(
    isApplicable: (Operator, State) -> bool,
    satisfy: (State, BitExp) -> bool,
    estimate: (State, BitExp) -> int)

  /** The search reads `getCondEffects().get(0)` of every applicable operator, so each needs one. */
  predicate HasEffect(op: Operator) {
    |op.condEffects| > 0
  }

  predicate WellFormed(p: CodedProblem) {
    forall i :: 0 <= i < |p.operators| ==> HasEffect(p.operators[i])
  }

  /**
    The state reached by applying `op` to `s`: `or` with the first effect's
    positive bits, then `andNot` with its negative bits. Every negative bit
    ends clear, every positive bit not also negative ends set, every other
    bit of `s` is kept, and no bit outside `s` and the positive bits appears.
  */
  function Apply(s: State, op: Operator): (next: State)
    requires HasEffect(op)
    ensures var eff := op.condEffects[0].effects;
      next !! eff.negative && eff.positive - eff.negative <= next &&
      s - eff.negative <= next && next <= s + eff.positive
  {
    (s + op.condEffects[0].effects.positive) - op.condEffects[0].effects.negative
  }
}
