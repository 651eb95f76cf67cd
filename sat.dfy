/**
 * The part of the Boolean solver that the integer layer talks to: Boolean
 * variables, their current assignment, the assignment trail, the decision
 * level, the clauses added so far and the conflict of the last failure.
 * Propagation of the clauses happens inside the Boolean solver and is not
 * part of this model; here a clause is only recorded.
 */
module Sat {

  datatype Literal = Literal(variable: nat, positive: bool)
  {
    function Negated(): Literal
    {
      Literal(variable, !positive)
    }
  }

  /** `l` holds under the partial assignment. */
  predicate TrueIn(assignment: map<nat, bool>, l: Literal)
  {
    l.variable in assignment && assignment[l.variable] == l.positive
  }

  /** `l` is refuted by the partial assignment. */
  predicate FalseIn(assignment: map<nat, bool>, l: Literal)
  {
    l.variable in assignment && assignment[l.variable] != l.positive
  }

  class SatSolver {
    var numVariables: nat
    var assignment: map<nat, bool>
    var trail: seq<Literal>
    var level: nat
    var clauses: seq<seq<Literal>>
    var conflict: seq<Literal>

    /** Only existing variables are assigned. */
    ghost predicate Valid()
      reads this`assignment, this`numVariables
    {
      forall b :: b in assignment ==> b < numVariables
    }

    predicate VariableIsAssigned(b: nat)
      reads this`assignment
    {
      b in assignment
    }

    predicate LiteralIsTrue(l: Literal)
      reads this`assignment
    {
      TrueIn(assignment, l)
    }

    predicate LiteralIsFalse(l: Literal)
      reads this`assignment
    {
      FalseIn(assignment, l)
    }

    constructor ()
      ensures Valid()
      ensures numVariables == 0 && assignment == map[] && trail == [] && level == 0
      ensures clauses == [] && conflict == []
    {
      numVariables := 0;
      assignment := map[];
      trail := [];
      level := 0;
      clauses := [];
      conflict := [];
    }

    method NewBooleanVariable() returns (b: nat)
      modifies this`numVariables
      ensures b == old(numVariables) && numVariables == b + 1
    {
      b := numVariables;
      numVariables := numVariables + 1;
    }

    method AddClause(c: seq<Literal>)
      modifies this`clauses
      ensures clauses == old(clauses) + [c]
    {
      clauses := clauses + [c];
    }

    /** Adds the clauses `cs`, in order. */
    method AddClauses(cs: seq<seq<Literal>>)
      modifies this`clauses
      ensures clauses == old(clauses) + cs
    {
      clauses := clauses + cs;
    }

    /** Assigns `l` true and records it on the trail. */
    method Enqueue(l: Literal)
      requires Valid() && l.variable < numVariables && !VariableIsAssigned(l.variable)
      modifies this`assignment, this`trail
      ensures Valid()
      ensures assignment == old(assignment)[l.variable := l.positive]
      ensures trail == old(trail) + [l]
    {
      assignment := assignment[l.variable := l.positive];
      trail := trail + [l];
    }

    method SetConflict(c: seq<Literal>)
      modifies this`conflict
      ensures conflict == c
    {
      conflict := c;
    }
  }

  /** At most `n` variables below `n` can be assigned. */
  lemma AssignedCountIsBounded(assignment: map<nat, bool>, n: nat)
    requires forall b :: b in assignment ==> b < n
    ensures |assignment.Keys| <= n
  {
    SubsetSize(assignment.Keys, NatsBelow(n));
  }

  ghost function NatsBelow(n: nat): (s: set<nat>)
    ensures forall b: nat :: b in s <==> b < n
    ensures |s| == n
  {
    if n == 0 then {} else NatsBelow(n - 1) + {n - 1}
  }

  lemma SubsetSize<T>(x: set<T>, y: set<T>)
    requires x <= y
    ensures |x| <= |y|
  {
    assert y == x + (y - x);
    assert x * (y - x) == {};
  }
}
