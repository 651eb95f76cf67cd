/**
 * The part of a CP model that the presolve rules rewrite: constraints over
 * signed references (module Refs), each with a list of enforcement
 * literals, and what it means for an assignment of the variables to
 * satisfy them.
 */
module CpModel {

  import opened Refs
  import Domains

  /** `sum(coeffs[i] * vars[i])` must lie in `domain`. */
  datatype LinearArgument = LinearArgument(vars: seq<int>, coeffs: seq<int>, domain: Domains.Domain)

  /** A circuit given arc by arc: arc `i` goes from node `tails[i]` to node `heads[i]` and is used when `literals[i]` is true. */
  datatype CircuitArgument = CircuitArgument(tails: seq<int>, heads: seq<int>, literals: seq<int>)

  /**
   * The constraint kinds the rules of this model rewrite. `Empty` is what
   * clearing a constraint leaves; `OtherKind` stands for every other kind,
   * of which only the references are kept.
   */
  datatype Body =
    | Empty
    | BoolOr(literals: seq<int>)
    | BoolAnd(literals: seq<int>)
    | AtMostOne(literals: seq<int>)
    | Linear(linear: LinearArgument)
    | Circuit(circuit: CircuitArgument)
    | OtherKind(refs: seq<int>)

  /** The body must hold when every enforcement literal is true. */
  datatype Constraint = Constraint(enforcement: seq<int>, body: Body)

  /** A constraint after `Clear()`: no enforcement and no body. */
  const Cleared: Constraint := Constraint([], Empty)

  // ---------------------------------------------------------------------
  // Assignments

  /** A value for every variable, by index. */
  type Assignment = seq<int>

  /** The value of a reference: the variable's value, or its opposite for a negative reference. */
  function RefValue(values: Assignment, ref: int): int
  {
    var v := PositiveRef(ref);
    if v < |values| then (if RefIsPositive(ref) then values[v] else -values[v]) else 0
  }

  /** A literal holds when its variable is 1 (positive literal) or 0 (negated literal). */
  predicate LiteralHolds(values: Assignment, lit: int)
  {
    PositiveRef(lit) < |values| && values[PositiveRef(lit)] == (if RefIsPositive(lit) then 1 else 0)
  }

  predicate AllHold(values: Assignment, lits: seq<int>)
  {
    forall i :: 0 <= i < |lits| ==> LiteralHolds(values, lits[i])
  }

  predicate SomeHolds(values: Assignment, lits: seq<int>)
  {
    exists i :: 0 <= i < |lits| && LiteralHolds(values, lits[i])
  }

  /** How many entries of `lits` hold. */
  function CountHolding(values: Assignment, lits: seq<int>): nat
  {
    if |lits| == 0 then 0
    else CountHolding(values, lits[..|lits| - 1]) + (if LiteralHolds(values, lits[|lits| - 1]) then 1 else 0)
  }

  /** `sum(coeffs[i] * value(vars[i]))`. */
  function WeightedSum(values: Assignment, vars: seq<int>, coeffs: seq<int>): int
    requires |vars| == |coeffs|
  {
    if |vars| == 0 then 0
    else WeightedSum(values, vars[..|vars| - 1], coeffs[..|coeffs| - 1]) + coeffs[|coeffs| - 1] * RefValue(values, vars[|vars| - 1])
  }

  /** The kinds whose meaning this model states. */
  predicate HasMeaning(body: Body)
  {
    body.Empty? || body.BoolOr? || body.BoolAnd? || body.AtMostOne? ||
    (body.Linear? && |body.linear.vars| == |body.linear.coeffs|)
  }

  predicate BodyHolds(values: Assignment, body: Body)
    requires HasMeaning(body)
  {
    match body
    case Empty => true
    case BoolOr(lits) => SomeHolds(values, lits)
    case BoolAnd(lits) => AllHold(values, lits)
    case AtMostOne(lits) => CountHolding(values, lits) <= 1
    case Linear(arg) => Domains.Contains(arg.domain, WeightedSum(values, arg.vars, arg.coeffs))
  }

  /** An enforced constraint holds when one of its enforcement literals is false, or its body holds. */
  predicate Holds(values: Assignment, ct: Constraint)
    requires HasMeaning(ct.body)
  {
    AllHold(values, ct.enforcement) ==> BodyHolds(values, ct.body)
  }

  // ---------------------------------------------------------------------
  // References

  /** Every reference a constraint holds, enforcement literals first. */
  function References(ct: Constraint): seq<int>
  {
    ct.enforcement +
    match ct.body
    case Empty => []
    case BoolOr(lits) => lits
    case BoolAnd(lits) => lits
    case AtMostOne(lits) => lits
    case Linear(arg) => arg.vars
    case Circuit(arg) => arg.literals
    case OtherKind(refs) => refs
  }

  /** The variables of a list of references, whatever their polarity. */
  function VariablesOf(refs: seq<int>): (vars: set<nat>)
    ensures forall v :: v in vars <==> exists i :: 0 <= i < |refs| && PositiveRef(refs[i]) == v
  {
    set i | 0 <= i < |refs| :: PositiveRef(refs[i])
  }

  /** The variables a constraint uses. */
  function UsedVariables(ct: Constraint): set<nat>
  {
    VariablesOf(References(ct))
  }
}
