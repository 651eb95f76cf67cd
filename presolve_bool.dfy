/**
 * Presolve rules for enforcement literals and for the Boolean constraints
 * `bool_or`, `bool_and` and `at_most_one`. Each rule takes the constraint,
 * may reduce domains through the context, and returns whether it changed
 * something together with the rewritten constraint.
 */
module PresolveBool {

  import opened Refs
  import opened CpModel
  import opened PresolveContext
  import Domains

  // ---------------------------------------------------------------------
  // Literal lists

  /** `lits` without the literals the context fixes to true, in order. */
  function WithoutTrue(ctx: Context, lits: seq<int>): seq<int>
    reads ctx`domains
    requires ctx.AllBoolean(lits)
  {
    if |lits| == 0 then []
    else WithoutTrue(ctx, lits[..|lits| - 1]) + (if ctx.LiteralIsTrue(lits[|lits| - 1]) then [] else [lits[|lits| - 1]])
  }

  /** `lit` is fixed to true by the domain `d` of its variable. */
  predicate FixedTrue(d: Domains.Domain, lit: int)
    requires d != []
  {
    Domains.Min(d) == Domains.Max(d) && if RefIsPositive(lit) then Domains.Min(d) == 1 else Domains.Max(d) == 0
  }

  /** `WithoutTrue` on a snapshot of the domains. */
  function WithoutTrueIn(domains: seq<Domains.Domain>, lits: seq<int>): seq<int>
    requires forall i :: 0 <= i < |lits| ==> PositiveRef(lits[i]) < |domains| && domains[PositiveRef(lits[i])] != []
  {
    if |lits| == 0 then []
    else
      var last := lits[|lits| - 1];
      WithoutTrueIn(domains, lits[..|lits| - 1]) + (if FixedTrue(domains[PositiveRef(last)], last) then [] else [last])
  }

  /** `lits` without the literals the context fixes to false, in order. */
  function WithoutFalse(ctx: Context, lits: seq<int>): seq<int>
    reads ctx`domains
    requires ctx.AllBoolean(lits)
  {
    if |lits| == 0 then []
    else WithoutFalse(ctx, lits[..|lits| - 1]) + (if ctx.LiteralIsFalse(lits[|lits| - 1]) then [] else [lits[|lits| - 1]])
  }

  /** The negation of every literal of `lits`. */
  function NegatedAll(lits: seq<int>): (r: seq<int>)
    ensures |r| == |lits| && forall i :: 0 <= i < |lits| ==> r[i] == NegatedRef(lits[i])
  {
    seq(|lits|, i requires 0 <= i < |lits| => NegatedRef(lits[i]))
  }

  lemma {:induction false} WithoutTrueIsIn(ctx: Context, lits: seq<int>)
    requires ctx.AllBoolean(lits)
    ensures forall i :: 0 <= i < |lits| ==> PositiveRef(lits[i]) < |ctx.domains| && ctx.domains[PositiveRef(lits[i])] != []
    ensures WithoutTrue(ctx, lits) == WithoutTrueIn(ctx.domains, lits)
    decreases |lits|
  {
    if |lits| > 0 {
      WithoutTrueIsIn(ctx, lits[..|lits| - 1]);
    }
  }

  /** `WithoutTrueIn` only looks at the domains of the listed literals. */
  lemma {:induction false} WithoutTrueInFrame(before: seq<Domains.Domain>, after: seq<Domains.Domain>, lits: seq<int>)
    requires forall i :: 0 <= i < |lits| ==> PositiveRef(lits[i]) < |before| && before[PositiveRef(lits[i])] != []
    requires forall i :: 0 <= i < |lits| ==> PositiveRef(lits[i]) < |after| && after[PositiveRef(lits[i])] == before[PositiveRef(lits[i])]
    ensures WithoutTrueIn(after, lits) == WithoutTrueIn(before, lits)
    decreases |lits|
  {
    if |lits| > 0 {
      WithoutTrueInFrame(before, after, lits[..|lits| - 1]);
    }
  }

  /** Dropping the true literals keeps the literals that are not true, and only those, in their order. */
  lemma {:induction false} WithoutTrueKeepsTheOthers(ctx: Context, lits: seq<int>)
    requires ctx.AllBoolean(lits)
    ensures |WithoutTrue(ctx, lits)| <= |lits|
    ensures forall l :: l in WithoutTrue(ctx, lits) <==> l in lits && !ctx.LiteralIsTrue(l)
    decreases |lits|
  {
    if |lits| > 0 {
      var front := lits[..|lits| - 1];
      WithoutTrueKeepsTheOthers(ctx, front);
      assert lits == front + [lits[|lits| - 1]];
    }
  }

  /** Under every assignment within the domains, dropping the true literals does not change whether all literals hold. */
  lemma {:induction false} WithoutTrueMeaning(ctx: Context, lits: seq<int>, values: Assignment)
    requires ctx.Valid() && ctx.AllBoolean(lits) && Satisfies(values, ctx.domains)
    ensures AllHold(values, WithoutTrue(ctx, lits)) <==> AllHold(values, lits)
    decreases |lits|
  {
    if |lits| > 0 {
      var front, last := lits[..|lits| - 1], lits[|lits| - 1];
      WithoutTrueMeaning(ctx, front, values);
      ctx.FixedLiteralsDecide(values, last);
      assert lits == front + [last];
      AllHoldAppend(values, front, [last]);
      AllHoldAppend(values, WithoutTrue(ctx, front), if ctx.LiteralIsTrue(last) then [] else [last]);
    }
  }

  /** Under every assignment within the domains, dropping the false literals changes neither whether one holds nor how many do. */
  lemma WithoutFalseMeaning(ctx: Context, lits: seq<int>, values: Assignment)
    requires ctx.Valid() && ctx.AllBoolean(lits) && Satisfies(values, ctx.domains)
    ensures SomeHolds(values, WithoutFalse(ctx, lits)) <==> SomeHolds(values, lits)
    ensures CountHolding(values, WithoutFalse(ctx, lits)) == CountHolding(values, lits)
  {
    WithoutFalseSomeHolds(ctx, lits, values);
    WithoutFalseCount(ctx, lits, values);
  }

  lemma {:induction false} WithoutFalseSomeHolds(ctx: Context, lits: seq<int>, values: Assignment)
    requires ctx.Valid() && ctx.AllBoolean(lits) && Satisfies(values, ctx.domains)
    ensures SomeHolds(values, WithoutFalse(ctx, lits)) <==> SomeHolds(values, lits)
    decreases |lits|
  {
    if |lits| > 0 {
      var front, last := lits[..|lits| - 1], lits[|lits| - 1];
      WithoutFalseSomeHolds(ctx, front, values);
      ctx.FixedLiteralsDecide(values, last);
      assert lits == front + [last];
      SomeHoldsAppend(values, front, [last]);
      var kept := WithoutFalse(ctx, front);
      if ctx.LiteralIsFalse(last) {
        assert WithoutFalse(ctx, lits) == kept;
        assert !SomeHolds(values, [last]);
      } else {
        assert WithoutFalse(ctx, lits) == kept + [last];
        SomeHoldsAppend(values, kept, [last]);
      }
    }
  }

  lemma {:induction false} WithoutFalseCount(ctx: Context, lits: seq<int>, values: Assignment)
    requires ctx.Valid() && ctx.AllBoolean(lits) && Satisfies(values, ctx.domains)
    ensures CountHolding(values, WithoutFalse(ctx, lits)) == CountHolding(values, lits)
    decreases |lits|
  {
    if |lits| > 0 {
      var front, last := lits[..|lits| - 1], lits[|lits| - 1];
      WithoutFalseCount(ctx, front, values);
      ctx.FixedLiteralsDecide(values, last);
      var kept := WithoutFalse(ctx, front);
      CountHoldingPush(values, front, last);
      if ctx.LiteralIsFalse(last) {
        assert WithoutFalse(ctx, lits) == kept;
      } else {
        assert WithoutFalse(ctx, lits) == kept + [last];
        CountHoldingPush(values, kept, last);
      }
    }
  }

  lemma CountHoldingPush(values: Assignment, lits: seq<int>, l: int)
    ensures CountHolding(values, lits + [l]) == CountHolding(values, lits) + (if LiteralHolds(values, l) then 1 else 0)
  {
    assert (lits + [l])[..|lits|] == lits;
  }

  lemma AllHoldAppend(values: Assignment, a: seq<int>, b: seq<int>)
    ensures AllHold(values, a + b) <==> AllHold(values, a) && AllHold(values, b)
  {
    if AllHold(values, a) && AllHold(values, b) {
      forall i | 0 <= i < |a + b|
        ensures LiteralHolds(values, (a + b)[i])
      {
        if i >= |a| {
          assert (a + b)[i] == b[i - |a|];
        }
      }
    }
    if AllHold(values, a + b) {
      forall i | 0 <= i < |a|
        ensures LiteralHolds(values, a[i])
      {
        assert (a + b)[i] == a[i];
      }
      forall i | 0 <= i < |b|
        ensures LiteralHolds(values, b[i])
      {
        assert (a + b)[|a| + i] == b[i];
      }
    }
  }

  lemma SomeHoldsAppend(values: Assignment, a: seq<int>, b: seq<int>)
    ensures SomeHolds(values, a + b) <==> SomeHolds(values, a) || SomeHolds(values, b)
  {
    if SomeHolds(values, a + b) {
      var i :| 0 <= i < |a + b| && LiteralHolds(values, (a + b)[i]);
      if i >= |a| {
        assert (a + b)[i] == b[i - |a|];
      }
    }
    if SomeHolds(values, a) {
      var i :| 0 <= i < |a| && LiteralHolds(values, a[i]);
      assert (a + b)[i] == a[i];
    }
    if SomeHolds(values, b) {
      var i :| 0 <= i < |b| && LiteralHolds(values, b[i]);
      assert (a + b)[|a| + i] == b[i];
    }
  }

  /** On a Boolean variable the negation of a literal holds exactly when the literal does not. */
  lemma NegatedHolds(ctx: Context, values: Assignment, lit: int)
    requires ctx.Valid() && ctx.IsBooleanRef(lit) && Satisfies(values, ctx.domains)
    ensures LiteralHolds(values, NegatedRef(lit)) <==> !LiteralHolds(values, lit)
  {
    var d := ctx.domains[PositiveRef(lit)];
    Domains.MinMaxAreExtremeValues(d);
    assert Domains.Contains(d, values[PositiveRef(lit)]);
  }

  /** Some negated literal holds exactly when not all the literals hold. */
  lemma {:induction false} NegatedAllMeaning(ctx: Context, values: Assignment, lits: seq<int>)
    requires ctx.Valid() && ctx.AllBoolean(lits) && Satisfies(values, ctx.domains)
    ensures SomeHolds(values, NegatedAll(lits)) <==> !AllHold(values, lits)
  {
    var n := NegatedAll(lits);
    if SomeHolds(values, n) {
      var i :| 0 <= i < |n| && LiteralHolds(values, n[i]);
      NegatedHolds(ctx, values, lits[i]);
    }
    if !AllHold(values, lits) {
      var i :| 0 <= i < |lits| && !LiteralHolds(values, lits[i]);
      NegatedHolds(ctx, values, lits[i]);
      assert LiteralHolds(values, n[i]);
    }
  }

  // ---------------------------------------------------------------------
  // Enforcement literals

  /** What stops the scan of the enforcement literals: a literal that is not true and is false or unique to this constraint. */
  predicate EnforcementStop(ctx: Context, lit: int)
    reads ctx`domains, ctx`varToConstraints, ctx`enumerateAllSolutions
    requires ctx.Valid() && ctx.IsBooleanRef(lit)
  {
    !ctx.LiteralIsTrue(lit) && (ctx.LiteralIsFalse(lit) || ctx.VariableIsUniqueAndRemovable(lit))
  }

  /** No enforcement literal stops the scan. */
  predicate EnforcementRuns(ctx: Context, lits: seq<int>)
    reads ctx`domains, ctx`varToConstraints, ctx`enumerateAllSolutions
    requires ctx.Valid() && ctx.AllBoolean(lits)
  {
    forall i :: 0 <= i < |lits| ==> !EnforcementStop(ctx, lits[i])
  }

  /**
   * Removes the true enforcement literals, keeping the order of the rest.
   * A false enforcement literal removes the constraint; so does one whose
   * variable appears in no other constraint, after being set to false.
   * Reports whether the constraint changed.
   */
  method PresolveEnforcementLiteral(ct: Constraint, ctx: Context) returns (changed: bool, r: Constraint)
    requires ctx.Valid() && ctx.AllBoolean(ct.enforcement)
    modifies ctx`domains, ctx`modifiedDomains, ctx`isUnsat
    ensures ctx.Valid() && |ctx.domains| == old(|ctx.domains|) && (old(ctx.isUnsat) ==> ctx.isUnsat)
    ensures forall w :: 0 <= w < |ctx.domains| ==> (BooleanDomain(old(ctx.domains)[w]) ==> BooleanDomain(ctx.domains[w]))
    ensures ct.enforcement == [] ==> !changed && r == ct && ctx.domains == old(ctx.domains) && ctx.isUnsat == old(ctx.isUnsat)
    ensures old(EnforcementRuns(ctx, ct.enforcement)) ==>
      r == ct.(enforcement := old(WithoutTrue(ctx, ct.enforcement))) && changed == (|r.enforcement| != |ct.enforcement|) &&
      ctx.domains == old(ctx.domains) && ctx.modifiedDomains == old(ctx.modifiedDomains) && ctx.isUnsat == old(ctx.isUnsat)
    ensures !old(EnforcementRuns(ctx, ct.enforcement)) ==>
      changed && r == Cleared && ctx.AllBoolean(ct.enforcement) &&
      (ctx.isUnsat || exists i :: 0 <= i < |ct.enforcement| && ctx.LiteralIsFalse(ct.enforcement[i]))
  {
    if ct.enforcement == [] {
      return false, ct;
    }
    var lits := ct.enforcement;
    var kept := [];
    var i := 0;
    while i < |lits|
      invariant i <= |lits|
      invariant kept == WithoutTrue(ctx, lits[..i])
      invariant forall j :: 0 <= j < i ==> !EnforcementStop(ctx, lits[j])
      invariant ctx.domains == old(ctx.domains) && ctx.modifiedDomains == old(ctx.modifiedDomains) && ctx.isUnsat == old(ctx.isUnsat)
    {
      var l := lits[i];
      assert lits[..i + 1] == lits[..i] + [l];
      if ctx.LiteralIsTrue(l) {
        i := i + 1;
        continue;
      }
      if ctx.LiteralIsFalse(l) {
        return true, Cleared;
      } else if ctx.VariableIsUniqueAndRemovable(l) {
        ctx.SetLiteralToFalse(l);
        return true, Cleared;
      }
      kept := kept + [l];
      i := i + 1;
    }
    assert lits[..i] == lits;
    return |kept| != |lits|, ct.(enforcement := kept);
  }

  /** Dropping the true enforcement literals keeps the meaning of a constraint under every assignment within the domains. */
  lemma EnforcementRewriteMeaning(ctx: Context, ct: Constraint, values: Assignment)
    requires ctx.Valid() && ctx.AllBoolean(ct.enforcement) && HasMeaning(ct.body) && Satisfies(values, ctx.domains)
    ensures Holds(values, ct.(enforcement := WithoutTrue(ctx, ct.enforcement))) <==> Holds(values, ct)
  {
    WithoutTrueMeaning(ctx, ct.enforcement, values);
  }

  /** A constraint with a false enforcement literal holds under every assignment within the domains, so clearing it loses nothing. */
  lemma FalseEnforcementHolds(ctx: Context, ct: Constraint, values: Assignment, i: int)
    requires ctx.Valid() && ctx.AllBoolean(ct.enforcement) && HasMeaning(ct.body) && Satisfies(values, ctx.domains)
    requires 0 <= i < |ct.enforcement| && ctx.LiteralIsFalse(ct.enforcement[i])
    ensures Holds(values, ct)
  {
    ctx.FixedLiteralsDecide(values, ct.enforcement[i]);
  }

  // ---------------------------------------------------------------------
  // Shared steps

  /** Every literal `WithoutFalse` keeps is one of `lits` that is not false, and it drops nothing when no literal is false. */
  lemma WithoutFalseKeepsTheOthers(ctx: Context, lits: seq<int>)
    requires ctx.AllBoolean(lits)
    ensures |WithoutFalse(ctx, lits)| <= |lits|
    ensures forall l :: l in WithoutFalse(ctx, lits) <==> l in lits && !ctx.LiteralIsFalse(l)
    ensures |WithoutFalse(ctx, lits)| == |lits| ==> WithoutFalse(ctx, lits) == lits
  {
    WithoutFalseMembers(ctx, lits);
    WithoutFalseDropsNothing(ctx, lits);
  }

  lemma {:induction false} WithoutFalseMembers(ctx: Context, lits: seq<int>)
    requires ctx.AllBoolean(lits)
    ensures |WithoutFalse(ctx, lits)| <= |lits|
    ensures forall l :: l in WithoutFalse(ctx, lits) <==> l in lits && !ctx.LiteralIsFalse(l)
    decreases |lits|
  {
    if |lits| > 0 {
      var front, last := lits[..|lits| - 1], lits[|lits| - 1];
      WithoutFalseMembers(ctx, front);
      assert lits == front + [last];
      if ctx.LiteralIsFalse(last) {
        assert WithoutFalse(ctx, lits) == WithoutFalse(ctx, front);
      } else {
        assert WithoutFalse(ctx, lits) == WithoutFalse(ctx, front) + [last];
      }
    }
  }

  lemma {:induction false} WithoutFalseDropsNothing(ctx: Context, lits: seq<int>)
    requires ctx.AllBoolean(lits)
    ensures |WithoutFalse(ctx, lits)| == |lits| ==> WithoutFalse(ctx, lits) == lits
    decreases |lits|
  {
    if |lits| > 0 {
      var front, last := lits[..|lits| - 1], lits[|lits| - 1];
      AllBooleanPrefix(ctx, lits, |lits| - 1);
      WithoutFalseDropsNothing(ctx, front);
      WithoutFalseLength(ctx, front);
      if !ctx.LiteralIsFalse(last) {
        assert WithoutFalse(ctx, lits) == WithoutFalse(ctx, front) + [last];
        assert lits == front + [last];
      }
    }
  }

  lemma {:induction false} WithoutFalseLength(ctx: Context, lits: seq<int>)
    requires ctx.AllBoolean(lits)
    ensures |WithoutFalse(ctx, lits)| <= |lits|
    decreases |lits|
  {
    if |lits| > 0 {
      AllBooleanPrefix(ctx, lits, |lits| - 1);
      WithoutFalseLength(ctx, lits[..|lits| - 1]);
    }
  }

  lemma AllBooleanPrefix(ctx: Context, lits: seq<int>, n: nat)
    requires ctx.AllBoolean(lits) && n <= |lits|
    ensures ctx.AllBoolean(lits[..n])
  {
  }

  lemma NegatedAllBoolean(ctx: Context, lits: seq<int>)
    requires ctx.AllBoolean(lits)
    ensures ctx.AllBoolean(NegatedAll(lits))
  {
    forall i | 0 <= i < |lits|
      ensures ctx.IsBooleanRef(NegatedAll(lits)[i])
    {
      NegatedRefIsInvolution(lits[i]);
    }
  }

  lemma AllBooleanAppend(ctx: Context, a: seq<int>, b: seq<int>)
    requires ctx.AllBoolean(a) && ctx.AllBoolean(b)
    ensures ctx.AllBoolean(a + b)
  {
    forall i | 0 <= i < |a + b|
      ensures ctx.IsBooleanRef((a + b)[i])
    {
      if i >= |a| {
        assert (a + b)[i] == b[i - |a|];
      }
    }
  }

  /** A Boolean literal that is neither true nor false leaves both values to its variable. */
  lemma NotFixedBoolean(ctx: Context, l: int)
    requires ctx.Valid() && ctx.IsBooleanRef(l) && !ctx.IsFixed(l)
    ensures Domains.Contains(ctx.domains[PositiveRef(l)], 0) && Domains.Contains(ctx.domains[PositiveRef(l)], 1)
  {
    Domains.MinMaxAreExtremeValues(ctx.domains[PositiveRef(l)]);
  }

  /**
   * Sets a Boolean literal that is not fixed to true. Only its variable
   * changes, and since both values were possible the model stays feasible.
   */
  method MakeTrue(ctx: Context, l: int)
    requires ctx.Valid() && ctx.IsBooleanRef(l) && !ctx.IsFixed(l)
    modifies ctx`domains, ctx`modifiedDomains, ctx`isUnsat
    ensures ctx.Valid() && ctx.isUnsat == old(ctx.isUnsat) && ctx.IsBooleanRef(l) && ctx.LiteralIsTrue(l)
    ensures KeepsBoolean(old(ctx.domains), ctx.domains) && Shrinks(old(ctx.domains), ctx.domains)
    ensures forall w :: 0 <= w < |ctx.domains| && w != PositiveRef(l) ==> ctx.domains[w] == old(ctx.domains[w])
    ensures ctx.modifiedDomains == old(ctx.modifiedDomains) + {PositiveRef(l)}
  {
    NotFixedBoolean(ctx, l);
    ctx.SetLiteralToTrue(l);
    var v := PositiveRef(l);
    assert Domains.Contains(ctx.domains[v], 1 - FalseValue(l));
    ctx.LiteralIsTrueMeaning(l);
  }

  // ---------------------------------------------------------------------
  // bool_or

  /** The clause a `bool_or` stands for once its enforcement literals are moved inside: its literals, then the negated enforcement literals. */
  function ClauseOf(ct: Constraint): seq<int>
    requires ct.body.BoolOr?
  {
    ct.body.literals + NegatedAll(ct.enforcement)
  }

  /** What stops the scan of a clause: a literal that is not false and is true or unique to this constraint. */
  predicate ClauseStop(ctx: Context, lit: int)
    reads ctx`domains, ctx`varToConstraints, ctx`enumerateAllSolutions
    requires ctx.Valid() && ctx.IsBooleanRef(lit)
  {
    !ctx.LiteralIsFalse(lit) && (ctx.LiteralIsTrue(lit) || ctx.VariableIsUniqueAndRemovable(lit))
  }

  /** No literal of the clause stops the scan. */
  predicate ClauseRuns(ctx: Context, lits: seq<int>)
    reads ctx`domains, ctx`varToConstraints, ctx`enumerateAllSolutions
    requires ctx.Valid() && ctx.AllBoolean(lits)
  {
    forall i :: 0 <= i < |lits| ==> !ClauseStop(ctx, lits[i])
  }

  /**
   * What presolving the clause `lits` leaves when no literal stopped the
   * scan, with `kept` its literals that are not false: none left makes the
   * model infeasible; one left is set true and the constraint removed; two
   * left become the implication `not kept[0] => kept[1]`; more stay a
   * clause. The rule reports a change when a literal was dropped.
   */
  twostate predicate ClauseKeptOutcome(ctx: Context, lits: seq<int>, kept: seq<int>, changed: bool, r: Constraint)
    reads ctx
    requires |ctx.domains| == old(|ctx.domains|)
  {
    (|kept| == 0 ==>
      changed && r == Constraint([], BoolOr(lits)) && ctx.isUnsat && ctx.domains == old(ctx.domains)) &&
    (|kept| == 1 ==>
      changed && r == Cleared && ctx.isUnsat == old(ctx.isUnsat) && kept[0] in lits && ctx.IsBooleanRef(kept[0]) && ctx.LiteralIsTrue(kept[0]) &&
      forall w :: 0 <= w < |ctx.domains| && w != PositiveRef(kept[0]) ==> ctx.domains[w] == old(ctx.domains[w])) &&
    (|kept| >= 2 ==>
      changed == (|kept| != |lits|) &&
      ctx.domains == old(ctx.domains) && ctx.modifiedDomains == old(ctx.modifiedDomains) && ctx.isUnsat == old(ctx.isUnsat) &&
      r == if |kept| == 2 then Constraint([NegatedRef(kept[0])], BoolAnd([kept[1]])) else Constraint([], BoolOr(kept)))
  }

  /**
   * What presolving the clause `lits` leaves when a literal stopped the
   * scan: the constraint is removed, a literal of the clause is true, and
   * only variables used by this constraint alone changed.
   */
  twostate predicate ClauseStopOutcome(ctx: Context, lits: seq<int>, changed: bool, r: Constraint)
    reads ctx
    requires old(ctx.Valid()) && |ctx.domains| == old(|ctx.domains|)
  {
    changed && r == Cleared && ctx.isUnsat == old(ctx.isUnsat) &&
    (exists i :: 0 <= i < |lits| && ctx.IsBooleanRef(lits[i]) && ctx.LiteralIsTrue(lits[i])) &&
    forall w :: 0 <= w < |ctx.domains| && ctx.domains[w] != old(ctx.domains[w]) ==>
      old(ctx.VariableIsUniqueAndRemovable(w))
  }

  /** What presolving the clause `lits` leaves, against the context it started from. */
  twostate predicate ClauseOutcome(ctx: Context, lits: seq<int>, changed: bool, r: Constraint)
    reads ctx
    requires old(ctx.Valid()) && old(ctx.AllBoolean(lits))
  {
    ctx.Valid() && KeepsBoolean(old(ctx.domains), ctx.domains) && Shrinks(old(ctx.domains), ctx.domains) &&
    if old(ClauseRuns(ctx, lits)) then ClauseKeptOutcome(ctx, lits, old(WithoutFalse(ctx, lits)), changed, r)
    else ClauseStopOutcome(ctx, lits, changed, r)
  }

  /** The end of the scan when `lits[stop]` stopped it: a true literal removes the constraint, a literal used by it alone is set true first. */
  method StopClause(ctx: Context, lits: seq<int>, stop: int) returns (changed: bool, r: Constraint)
    requires ctx.Valid() && ctx.AllBoolean(lits) && 0 <= stop < |lits| && ClauseStop(ctx, lits[stop])
    modifies ctx`domains, ctx`modifiedDomains, ctx`isUnsat
    ensures ctx.Valid() && KeepsBoolean(old(ctx.domains), ctx.domains) && Shrinks(old(ctx.domains), ctx.domains)
    ensures ClauseStopOutcome(ctx, lits, changed, r) && MeansClause(ctx.domains, r, lits)
  {
    var l := lits[stop];
    if !ctx.LiteralIsTrue(l) {
      MakeTrue(ctx, l);
    }
    assert ctx.IsBooleanRef(lits[stop]) && ctx.LiteralIsTrue(lits[stop]);
    forall values | Satisfies(values, ctx.domains)
      ensures SomeHolds(values, lits)
    {
      ctx.FixedLiteralsDecide(values, lits[stop]);
    }
    return true, Cleared;
  }

  /** The end of the scan when nothing stopped it, on the literals `kept` that are not false. */
  method FinishClause(ctx: Context, lits: seq<int>, kept: seq<int>, dropped: bool) returns (changed: bool, r: Constraint)
    requires ctx.Valid() && ctx.AllBoolean(lits) && ClauseRuns(ctx, lits) && kept == WithoutFalse(ctx, lits)
    requires dropped == (|kept| != |lits|)
    modifies ctx`domains, ctx`modifiedDomains, ctx`isUnsat
    ensures ctx.Valid() && KeepsBoolean(old(ctx.domains), ctx.domains) && Shrinks(old(ctx.domains), ctx.domains)
    ensures ClauseKeptOutcome(ctx, lits, kept, changed, r)
    ensures !ctx.isUnsat ==> MeansClause(ctx.domains, r, lits)
  {
    WithoutFalseKeepsTheOthers(ctx, lits);
    if |kept| == 0 {
      ctx.isUnsat := true;
      return true, Constraint([], BoolOr(lits));
    }
    if |kept| == 1 {
      assert kept[0] in kept;
      ghost var i :| 0 <= i < |lits| && lits[i] == kept[0];
      assert !ClauseStop(ctx, lits[i]);
      MakeTrue(ctx, kept[0]);
      forall values | Satisfies(values, ctx.domains)
        ensures SomeHolds(values, lits)
      {
        ctx.FixedLiteralsDecide(values, lits[i]);
      }
      return true, Cleared;
    }
    ClauseKeptMeaning(ctx, lits);
    if |kept| == 2 {
      return dropped, Constraint([NegatedRef(kept[0])], BoolAnd([kept[1]]));
    }
    changed := dropped;
    r := Constraint([], BoolOr(lits));
    if changed {
      r := Constraint([], BoolOr(kept));
    }
  }

  /** Two or more literals not false say what the clause says: as a clause, or as the implication `not kept[0] => kept[1]` when there are two. */
  lemma ClauseKeptMeaning(ctx: Context, lits: seq<int>)
    requires ctx.Valid() && ctx.AllBoolean(lits) && |WithoutFalse(ctx, lits)| >= 2
    ensures MeansClause(ctx.domains, Constraint([], BoolOr(lits)), lits)
    ensures MeansClause(ctx.domains, Constraint([], BoolOr(WithoutFalse(ctx, lits))), lits)
    ensures |WithoutFalse(ctx, lits)| == 2 ==>
      MeansClause(ctx.domains, Constraint([NegatedRef(WithoutFalse(ctx, lits)[0])], BoolAnd([WithoutFalse(ctx, lits)[1]])), lits)
  {
    forall values | Satisfies(values, ctx.domains)
      ensures SomeHolds(values, WithoutFalse(ctx, lits)) <==> SomeHolds(values, lits)
    {
      WithoutFalseSomeHolds(ctx, lits, values);
    }
    if |WithoutFalse(ctx, lits)| == 2 {
      ImplicationKept(ctx, lits);
    }
  }

  lemma ImplicationKept(ctx: Context, lits: seq<int>)
    requires ctx.Valid() && ctx.AllBoolean(lits) && |WithoutFalse(ctx, lits)| == 2
    ensures var kept := WithoutFalse(ctx, lits);
      MeansClause(ctx.domains, Constraint([NegatedRef(kept[0])], BoolAnd([kept[1]])), lits)
  {
    var kept := WithoutFalse(ctx, lits);
    WithoutFalseKeepsTheOthers(ctx, lits);
    assert kept[0] in kept;
    assert kept == [kept[0], kept[1]];
    forall values | Satisfies(values, ctx.domains)
      ensures SomeHolds(values, lits) <==> Holds(values, Constraint([NegatedRef(kept[0])], BoolAnd([kept[1]])))
    {
      WithoutFalseSomeHolds(ctx, lits, values);
      ImplicationMeaning(ctx, values, kept[0], kept[1]);
    }
  }

  /** The end of the scan of the clause `lits`, stopped at `stop` or run through when `stop == |lits|`. */
  method EndClause(ctx: Context, lits: seq<int>, stop: int, kept: seq<int>) returns (changed: bool, r: Constraint)
    requires ctx.Valid() && ctx.AllBoolean(lits) && 0 <= stop <= |lits|
    requires forall j :: 0 <= j < stop ==> !ClauseStop(ctx, lits[j])
    requires stop < |lits| ==> ClauseStop(ctx, lits[stop])
    requires stop == |lits| ==> kept == WithoutFalse(ctx, lits[..stop])
    modifies ctx`domains, ctx`modifiedDomains, ctx`isUnsat
    ensures ClauseOutcome(ctx, lits, changed, r) && (!ctx.isUnsat ==> MeansClause(ctx.domains, r, lits))
  {
    if stop < |lits| {
      changed, r := StopClause(ctx, lits, stop);
    } else {
      assert lits[..stop] == lits;
      WithoutFalseKeepsTheOthers(ctx, lits);
      changed, r := FinishClause(ctx, lits, kept, |kept| != |lits|);
    }
  }

  /** The scan of the clause `lits`: drops the false literals, and stops at a literal that is true or used by this constraint alone. */
  method PresolveClause(ctx: Context, lits: seq<int>) returns (changed: bool, r: Constraint)
    requires ctx.Valid() && ctx.AllBoolean(lits)
    modifies ctx`domains, ctx`modifiedDomains, ctx`isUnsat
    ensures ClauseOutcome(ctx, lits, changed, r)
    ensures !ctx.isUnsat ==> MeansClause(ctx.domains, r, lits)
  {
    var kept := [];
    var i := 0;
    while i < |lits|
      invariant i <= |lits|
      invariant kept == WithoutFalse(ctx, lits[..i])
      invariant forall j :: 0 <= j < i ==> !ClauseStop(ctx, lits[j])
    {
      var l := lits[i];
      assert lits[..i + 1] == lits[..i] + [l];
      if ctx.LiteralIsFalse(l) {
        i := i + 1;
        continue;
      }
      if ctx.LiteralIsTrue(l) || ctx.VariableIsUniqueAndRemovable(l) {
        break;
      }
      kept := kept + [l];
      i := i + 1;
    }
    changed, r := EndClause(ctx, lits, i, kept);
  }

  /**
   * Presolves a `bool_or`: moves the enforcement literals inside as their
   * negations, then presolves the clause they form with the literals
   * (`ClauseOutcome` states the result).
   */
  method PresolveBoolOr(ct: Constraint, ctx: Context) returns (changed: bool, r: Constraint)
    requires ct.body.BoolOr? && ctx.Valid() && ctx.AllBoolean(ct.body.literals) && ctx.AllBoolean(ct.enforcement)
    modifies ctx`domains, ctx`modifiedDomains, ctx`isUnsat
    ensures old(ctx.AllBoolean(ClauseOf(ct))) && ClauseOutcome(ctx, ClauseOf(ct), changed, r)
    ensures HasMeaning(r.body) && (!ctx.isUnsat ==> SameMeaning(ctx.domains, ct, r))
  {
    NegatedAllBoolean(ctx, ct.enforcement);
    AllBooleanAppend(ctx, ct.body.literals, NegatedAll(ct.enforcement));
    changed, r := PresolveClause(ctx, ClauseOf(ct));
    if !ctx.isUnsat {
      forall i | 0 <= i < |ct.enforcement|
        ensures ctx.IsBooleanRef(ct.enforcement[i])
      {
        assert old(ctx.IsBooleanRef(ct.enforcement[i]));
      }
      forall values | Satisfies(values, ctx.domains)
        ensures Holds(values, r) <==> Holds(values, ct)
      {
        ClauseOfMeaning(ctx, ct, values);
      }
    }
  }

  /** Moving the enforcement literals inside a `bool_or` as their negations keeps its meaning under every assignment within the domains. */
  lemma ClauseOfMeaning(ctx: Context, ct: Constraint, values: Assignment)
    requires ct.body.BoolOr? && ctx.Valid() && ctx.AllBoolean(ct.enforcement) && Satisfies(values, ctx.domains)
    ensures Holds(values, ct) <==> SomeHolds(values, ClauseOf(ct))
  {
    NegatedAllMeaning(ctx, values, ct.enforcement);
    SomeHoldsAppend(values, ct.body.literals, NegatedAll(ct.enforcement));
  }

  /** Two literals, one of which holds, say the same as the implication from the negation of the first to the second. */
  lemma ImplicationMeaning(ctx: Context, values: Assignment, a: int, b: int)
    requires ctx.Valid() && ctx.IsBooleanRef(a) && Satisfies(values, ctx.domains)
    ensures SomeHolds(values, [a, b]) <==> Holds(values, Constraint([NegatedRef(a)], BoolAnd([b])))
  {
    NegatedHolds(ctx, values, a);
    assert AllHold(values, [NegatedRef(a)]) <==> LiteralHolds(values, NegatedRef(a)) by {
      assert [NegatedRef(a)][0] == NegatedRef(a);
    }
    assert AllHold(values, [b]) <==> LiteralHolds(values, b) by {
      assert [b][0] == b;
    }
    assert SomeHolds(values, [a, b]) <==> LiteralHolds(values, a) || LiteralHolds(values, b) by {
      assert [a, b][0] == a && [a, b][1] == b;
    }
  }

  /**
   * Dropping the false literals of a `bool_or` and moving its enforcement
   * inside keeps its meaning under every assignment within the domains:
   * it holds exactly when one of the kept literals does.
   */
  lemma BoolOrRewriteMeaning(ctx: Context, ct: Constraint, values: Assignment)
    requires ct.body.BoolOr? && ctx.Valid() && ctx.AllBoolean(ct.body.literals) && ctx.AllBoolean(ct.enforcement)
    requires Satisfies(values, ctx.domains)
    ensures ctx.AllBoolean(ClauseOf(ct))
    ensures Holds(values, ct) <==> SomeHolds(values, WithoutFalse(ctx, ClauseOf(ct)))
  {
    NegatedAllBoolean(ctx, ct.enforcement);
    AllBooleanAppend(ctx, ct.body.literals, NegatedAll(ct.enforcement));
    ClauseOfMeaning(ctx, ct, values);
    WithoutFalseMeaning(ctx, ClauseOf(ct), values);
  }

  /** A clause some literal of which is true holds under every assignment within the domains. */
  lemma SomeTrueSatisfiesClause(ctx: Context, lits: seq<int>, values: Assignment)
    requires ctx.Valid() && Satisfies(values, ctx.domains)
    requires exists i :: 0 <= i < |lits| && ctx.IsBooleanRef(lits[i]) && ctx.LiteralIsTrue(lits[i])
    ensures SomeHolds(values, lits)
  {
    var i :| 0 <= i < |lits| && ctx.IsBooleanRef(lits[i]) && ctx.LiteralIsTrue(lits[i]);
    ctx.FixedLiteralsDecide(values, lits[i]);
  }

  /** A clause with a true literal holds under every assignment within the domains, so removing it loses nothing. */
  lemma TrueLiteralSatisfiesClause(ctx: Context, lits: seq<int>, values: Assignment, i: int)
    requires ctx.Valid() && ctx.AllBoolean(lits) && Satisfies(values, ctx.domains)
    requires 0 <= i < |lits| && ctx.LiteralIsTrue(lits[i])
    ensures SomeHolds(values, lits)
  {
    ctx.FixedLiteralsDecide(values, lits[i]);
  }

  // ---------------------------------------------------------------------
  // Meaning under the reduced domains

  /** Under every assignment within `domains`, `r` holds exactly when `ct` does. */
  ghost predicate SameMeaning(domains: seq<Domains.Domain>, ct: Constraint, r: Constraint)
    requires HasMeaning(ct.body) && HasMeaning(r.body)
  {
    forall values :: Satisfies(values, domains) ==> (Holds(values, r) <==> Holds(values, ct))
  }

  /** Under every assignment within `domains`, `r` holds exactly when one of `lits` does. */
  ghost predicate MeansClause(domains: seq<Domains.Domain>, r: Constraint, lits: seq<int>)
  {
    HasMeaning(r.body) && forall values :: Satisfies(values, domains) ==> (Holds(values, r) <==> SomeHolds(values, lits))
  }

  // ---------------------------------------------------------------------
  // bool_and

  lemma ShrinksTransitive(a: seq<Domains.Domain>, b: seq<Domains.Domain>, c: seq<Domains.Domain>)
    requires Shrinks(a, b) && Shrinks(b, c)
    ensures Shrinks(a, c)
  {
    forall w, x | 0 <= w < |a| && Domains.Contains(c[w], x)
      ensures Domains.Contains(a[w], x)
    {
      assert Domains.Contains(b[w], x);
    }
  }

  /**
   * Sets every literal of `lits` to true, as a `bool_and` without
   * enforcement demands; a literal already false makes the model
   * infeasible. Only the variables of `lits` change.
   */
  method SetAllTrue(ctx: Context, lits: seq<int>)
    requires ctx.Valid() && ctx.AllBoolean(lits)
    modifies ctx`domains, ctx`modifiedDomains, ctx`isUnsat
    ensures ctx.Valid() && KeepsBoolean(old(ctx.domains), ctx.domains) && Shrinks(old(ctx.domains), ctx.domains)
    ensures (old(ctx.isUnsat) ==> ctx.isUnsat) && ctx.AllBoolean(lits)
    ensures ctx.isUnsat || forall i :: 0 <= i < |lits| ==> ctx.LiteralIsTrue(lits[i])
    ensures forall w :: 0 <= w < |ctx.domains| && w !in VariablesOf(lits) ==> ctx.domains[w] == old(ctx.domains[w])
  {
    var i := 0;
    while i < |lits|
      invariant i <= |lits| && ctx.Valid() && ctx.AllBoolean(lits)
      invariant KeepsBoolean(old(ctx.domains), ctx.domains) && Shrinks(old(ctx.domains), ctx.domains)
      invariant old(ctx.isUnsat) ==> ctx.isUnsat
      invariant ctx.isUnsat || forall j :: 0 <= j < i ==> ctx.LiteralIsTrue(lits[j])
      invariant forall w :: 0 <= w < |ctx.domains| && w !in VariablesOf(lits) ==> ctx.domains[w] == old(ctx.domains[w])
    {
      label before:
      ctx.SetLiteralToTrue(lits[i]);
      ShrinksTransitive(old(ctx.domains), old@before(ctx.domains), ctx.domains);
      forall j | 0 <= j < |lits|
        ensures ctx.IsBooleanRef(lits[j])
      {
        assert old@before(ctx.IsBooleanRef(lits[j]));
      }
      i := i + 1;
    }
  }

  /** The scan of an enforced `bool_and` after its first `i` literals: `kept` holds those not true, none of which is fixed or used by this constraint alone. */
  predicate BoolAndScanned(ctx: Context, lits: seq<int>, i: nat, kept: seq<int>)
    reads ctx`domains, ctx`varToConstraints, ctx`enumerateAllSolutions
    requires ctx.Valid() && ctx.AllBoolean(lits) && i <= |lits|
  {
    kept == WithoutTrue(ctx, lits[..i]) &&
    forall j :: 0 <= j < i ==>
      ctx.LiteralIsTrue(lits[j]) || (!ctx.IsFixed(lits[j]) && !ctx.VariableIsUniqueAndRemovable(lits[j]))
  }

  /** The step of the scan on a literal that is not fixed and is used by this constraint alone: it is set true and dropped. */
  method SetUniqueTrue(ctx: Context, lits: seq<int>, i: nat, kept: seq<int>)
    requires ctx.Valid() && ctx.AllBoolean(lits) && i < |lits| && BoolAndScanned(ctx, lits, i, kept)
    requires !ctx.LiteralIsTrue(lits[i]) && !ctx.LiteralIsFalse(lits[i]) && ctx.VariableIsUniqueAndRemovable(lits[i])
    modifies ctx`domains, ctx`modifiedDomains, ctx`isUnsat
    ensures ctx.Valid() && ctx.AllBoolean(lits) && ctx.isUnsat == old(ctx.isUnsat)
    ensures KeepsBoolean(old(ctx.domains), ctx.domains) && Shrinks(old(ctx.domains), ctx.domains)
    ensures BoolAndScanned(ctx, lits, i + 1, kept)
    ensures forall w :: 0 <= w < |ctx.domains| && ctx.domains[w] != old(ctx.domains[w]) ==> w == PositiveRef(lits[i])
  {
    var l := lits[i];
    forall j | 0 <= j < i
      ensures PositiveRef(lits[j]) != PositiveRef(l)
    {
      if PositiveRef(lits[j]) == PositiveRef(l) {
        assert false;
      }
    }
    ghost var before := ctx.domains;
    WithoutTrueIsIn(ctx, lits[..i]);
    MakeTrue(ctx, l);
    forall j | 0 <= j < |lits|
      ensures ctx.IsBooleanRef(lits[j])
    {
      assert old(ctx.IsBooleanRef(lits[j]));
    }
    WithoutTrueInFrame(before, ctx.domains, lits[..i]);
    WithoutTrueIsIn(ctx, lits[..i]);
    assert lits[..i + 1][..i] == lits[..i];
    assert WithoutTrue(ctx, lits[..i + 1]) == kept;
    forall j | 0 <= j < i + 1
      ensures ctx.LiteralIsTrue(lits[j]) || (!ctx.IsFixed(lits[j]) && !ctx.VariableIsUniqueAndRemovable(lits[j]))
    {
      if j < i {
        assert ctx.domains[PositiveRef(lits[j])] == old(ctx.domains[PositiveRef(lits[j])]);
      }
    }
  }

  /**
   * The scan of the literals of an enforced `bool_and`: stops at the first
   * false literal (`stop`), drops the true ones, sets true and drops those
   * used by this constraint alone, and keeps the others in order.
   */
  method ScanBoolAnd(ctx: Context, lits: seq<int>) returns (kept: seq<int>, stop: nat)
    requires ctx.Valid() && ctx.AllBoolean(lits)
    modifies ctx`domains, ctx`modifiedDomains, ctx`isUnsat
    ensures ctx.Valid() && KeepsBoolean(old(ctx.domains), ctx.domains) && Shrinks(old(ctx.domains), ctx.domains)
    ensures ctx.isUnsat == old(ctx.isUnsat) && ctx.AllBoolean(lits) && stop <= |lits|
    ensures stop < |lits| ==> ctx.LiteralIsFalse(lits[stop])
    ensures stop == |lits| ==> BoolAndScanned(ctx, lits, |lits|, kept)
    ensures forall w :: 0 <= w < |ctx.domains| && ctx.domains[w] != old(ctx.domains[w]) ==> ctx.VariableIsUniqueAndRemovable(w)
  {
    kept := [];
    var i := 0;
    while i < |lits|
      invariant i <= |lits| && ctx.Valid() && ctx.AllBoolean(lits) && ctx.isUnsat == old(ctx.isUnsat)
      invariant KeepsBoolean(old(ctx.domains), ctx.domains) && Shrinks(old(ctx.domains), ctx.domains)
      invariant BoolAndScanned(ctx, lits, i, kept)
      invariant forall w :: 0 <= w < |ctx.domains| && ctx.domains[w] != old(ctx.domains[w]) ==> ctx.VariableIsUniqueAndRemovable(w)
    {
      var l := lits[i];
      assert lits[..i + 1] == lits[..i] + [l];
      if ctx.LiteralIsFalse(l) {
        return kept, i;
      }
      if ctx.LiteralIsTrue(l) {
        i := i + 1;
        continue;
      }
      if ctx.VariableIsUniqueAndRemovable(l) {
        label before:
        SetUniqueTrue(ctx, lits, i, kept);
        ShrinksTransitive(old(ctx.domains), old@before(ctx.domains), ctx.domains);
        i := i + 1;
        continue;
      }
      kept := kept + [l];
      i := i + 1;
    }
    return kept, i;
  }

  /**
   * A constraint whose body cannot hold: with enforcement literals it
   * becomes the clause of their negations, presolved as a `bool_or`;
   * without, the model is infeasible.
   */
  method MarkConstraintAsFalse(ct: Constraint, ctx: Context) returns (changed: bool, r: Constraint)
    requires ctx.Valid() && ctx.AllBoolean(ct.enforcement)
    modifies ctx`domains, ctx`modifiedDomains, ctx`isUnsat
    ensures ctx.Valid() && KeepsBoolean(old(ctx.domains), ctx.domains) && Shrinks(old(ctx.domains), ctx.domains)
    ensures old(ctx.isUnsat) ==> ctx.isUnsat
    ensures ct.enforcement == [] ==> changed && r == Cleared && ctx.isUnsat && ctx.domains == old(ctx.domains)
    ensures ct.enforcement != [] ==> var clause := Constraint([], BoolOr(NegatedAll(ct.enforcement)));
      old(ctx.AllBoolean(ClauseOf(clause))) && ClauseOutcome(ctx, ClauseOf(clause), changed, r)
    ensures HasMeaning(r.body) && (!ctx.isUnsat ==> SameMeaning(ctx.domains, Constraint(ct.enforcement, BoolOr([])), r))
  {
    if ct.enforcement == [] {
      ctx.isUnsat := true;
      return true, Cleared;
    }
    var clause := Constraint([], BoolOr(NegatedAll(ct.enforcement)));
    NegatedAllBoolean(ctx, ct.enforcement);
    assert ClauseOf(clause) == NegatedAll(ct.enforcement);
    changed, r := PresolveBoolOr(clause, ctx);
    if !ctx.isUnsat {
      forall i | 0 <= i < |ct.enforcement|
        ensures ctx.IsBooleanRef(ct.enforcement[i])
      {
        assert old(ctx.IsBooleanRef(ct.enforcement[i]));
      }
      forall values | Satisfies(values, ctx.domains)
        ensures Holds(values, r) <==> Holds(values, Constraint(ct.enforcement, BoolOr([])))
      {
        NegatedAllMeaning(ctx, values, ct.enforcement);
      }
    }
  }

  lemma KeepsBooleanTransitive(a: seq<Domains.Domain>, b: seq<Domains.Domain>, c: seq<Domains.Domain>)
    requires KeepsBoolean(a, b) && KeepsBoolean(b, c)
    ensures KeepsBoolean(a, c)
  {
    forall w | 0 <= w < |a| && BooleanDomain(a[w])
      ensures BooleanDomain(c[w])
    {
      assert BooleanDomain(b[w]);
    }
  }

  /** Literals all fixed to true all hold under every assignment within the domains. */
  lemma AllTrueHold(ctx: Context, lits: seq<int>, values: Assignment)
    requires ctx.Valid() && ctx.AllBoolean(lits) && Satisfies(values, ctx.domains)
    requires forall i :: 0 <= i < |lits| ==> ctx.LiteralIsTrue(lits[i])
    ensures AllHold(values, lits)
  {
    forall i | 0 <= i < |lits|
      ensures LiteralHolds(values, lits[i])
    {
      ctx.FixedLiteralsDecide(values, lits[i]);
    }
  }

  /**
   * The end of an enforced `bool_and` whose scan ran through: with no
   * literal left it is removed, otherwise it keeps the literals `kept`,
   * and it reports a change when a literal was dropped.
   */
  method FinishBoolAnd(ct: Constraint, ctx: Context, kept: seq<int>) returns (changed: bool, r: Constraint)
    requires ct.body.BoolAnd? && ctx.Valid() && ctx.AllBoolean(ct.body.literals)
    requires kept == WithoutTrue(ctx, ct.body.literals)
    ensures changed == (kept == [] || |kept| != |ct.body.literals|)
    ensures r == if kept == [] then Cleared else if changed then ct.(body := BoolAnd(kept)) else ct
    ensures HasMeaning(r.body) && SameMeaning(ctx.domains, ct, r)
  {
    var lits := ct.body.literals;
    WithoutTrueKeepsTheOthers(ctx, lits);
    forall values | Satisfies(values, ctx.domains)
      ensures AllHold(values, kept) <==> AllHold(values, lits)
    {
      WithoutTrueMeaning(ctx, lits, values);
    }
    if kept == [] {
      return true, Cleared;
    }
    changed := |kept| != |lits|;
    r := ct;
    if changed {
      r := ct.(body := BoolAnd(kept));
    }
  }

  /** An enforced `bool_and` with a false literal: its enforcement literals cannot all hold. */
  method BoolAndIsFalse(ct: Constraint, ctx: Context, stop: nat) returns (changed: bool, r: Constraint)
    requires ct.body.BoolAnd? && ctx.Valid() && ctx.AllBoolean(ct.body.literals) && ctx.AllBoolean(ct.enforcement)
    requires ct.enforcement != [] && stop < |ct.body.literals| && ctx.LiteralIsFalse(ct.body.literals[stop])
    modifies ctx`domains, ctx`modifiedDomains, ctx`isUnsat
    ensures ctx.Valid() && KeepsBoolean(old(ctx.domains), ctx.domains) && Shrinks(old(ctx.domains), ctx.domains)
    ensures old(ctx.isUnsat) ==> ctx.isUnsat
    ensures HasMeaning(r.body) && (!ctx.isUnsat ==> SameMeaning(ctx.domains, Constraint(ct.enforcement, BoolOr([])), r))
    ensures HasMeaning(r.body) && (!ctx.isUnsat ==> SameMeaning(ctx.domains, ct, r))
  {
    var lits := ct.body.literals;
    ghost var before := ctx.domains;
    forall values | Satisfies(values, ctx.domains)
      ensures !LiteralHolds(values, lits[stop])
    {
      ctx.FixedLiteralsDecide(values, lits[stop]);
    }
    changed, r := MarkConstraintAsFalse(ct, ctx);
    if !ctx.isUnsat {
      FalseBodyMeaning(before, ctx.domains, ct, r, stop);
    }
  }

  /** Under domains within those where `ct.body.literals[stop]` cannot hold, an enforced `bool_and` says that its enforcement literals do not all hold. */
  lemma FalseBodyMeaning(before: seq<Domains.Domain>, after: seq<Domains.Domain>, ct: Constraint, r: Constraint, stop: nat)
    requires ct.body.BoolAnd? && stop < |ct.body.literals| && HasMeaning(r.body) && Shrinks(before, after)
    requires forall values :: Satisfies(values, before) ==> !LiteralHolds(values, ct.body.literals[stop])
    requires SameMeaning(after, Constraint(ct.enforcement, BoolOr([])), r)
    ensures SameMeaning(after, ct, r)
  {
    forall values | Satisfies(values, after)
      ensures Holds(values, ct) <==> Holds(values, Constraint(ct.enforcement, BoolOr([])))
    {
      ShrinksKeepsSatisfied(values, before, after);
      assert !AllHold(values, ct.body.literals);
      assert !SomeHolds(values, []);
    }
  }

  /** A `bool_and` without enforcement: every literal is set true and the constraint removed. */
  method BoolAndNotEnforced(ct: Constraint, ctx: Context) returns (changed: bool, r: Constraint)
    requires ct.body.BoolAnd? && ct.enforcement == [] && ctx.Valid() && ctx.AllBoolean(ct.body.literals)
    modifies ctx`domains, ctx`modifiedDomains, ctx`isUnsat
    ensures ctx.Valid() && KeepsBoolean(old(ctx.domains), ctx.domains) && Shrinks(old(ctx.domains), ctx.domains)
    ensures old(ctx.isUnsat) ==> ctx.isUnsat
    ensures changed && r == Cleared
    ensures ctx.isUnsat || forall i :: 0 <= i < |ct.body.literals| ==> ctx.LiteralIsTrue(ct.body.literals[i])
    ensures !ctx.isUnsat ==> SameMeaning(ctx.domains, ct, r)
  {
    var lits := ct.body.literals;
    SetAllTrue(ctx, lits);
    if !ctx.isUnsat {
      forall values | Satisfies(values, ctx.domains)
        ensures Holds(values, ct)
      {
        AllTrueHold(ctx, lits, values);
      }
    }
    return true, Cleared;
  }

  /**
   * Presolves a `bool_and`. Without enforcement every literal is set true
   * and the constraint removed. With enforcement the literals are scanned
   * in order: a false literal makes the enforcement false (`stopped`), a
   * true one is dropped, one used by this constraint alone is set true and
   * dropped, the others are kept.
   */
  method PresolveBoolAnd(ct: Constraint, ctx: Context) returns (changed: bool, r: Constraint, ghost stopped: bool)
    requires ct.body.BoolAnd? && ctx.Valid() && ctx.AllBoolean(ct.body.literals) && ctx.AllBoolean(ct.enforcement)
    modifies ctx`domains, ctx`modifiedDomains, ctx`isUnsat
    ensures ctx.Valid() && KeepsBoolean(old(ctx.domains), ctx.domains) && Shrinks(old(ctx.domains), ctx.domains)
    ensures old(ctx.isUnsat) ==> ctx.isUnsat
    ensures ct.enforcement == [] ==> (!stopped && changed && r == Cleared &&
      (ctx.isUnsat || forall i :: 0 <= i < |ct.body.literals| ==> ctx.LiteralIsTrue(ct.body.literals[i])))
    ensures ct.enforcement != [] && !stopped ==>
      ctx.isUnsat == old(ctx.isUnsat) && ctx.AllBoolean(ct.body.literals) &&
      var lits, kept := ct.body.literals, WithoutTrue(ctx, ct.body.literals);
      BoolAndScanned(ctx, lits, |lits|, kept) &&
      changed == (kept == [] || |kept| != |lits|) &&
      r == (if kept == [] then Cleared else if changed then ct.(body := BoolAnd(kept)) else ct) &&
      forall w :: 0 <= w < |ctx.domains| && ctx.domains[w] != old(ctx.domains[w]) ==> ctx.VariableIsUniqueAndRemovable(w)
    ensures stopped ==> (ct.enforcement != [] && HasMeaning(r.body) &&
      (!ctx.isUnsat ==> SameMeaning(ctx.domains, Constraint(ct.enforcement, BoolOr([])), r)))
    ensures HasMeaning(r.body) && (!ctx.isUnsat ==> SameMeaning(ctx.domains, ct, r))
  {
    var lits := ct.body.literals;
    stopped := false;
    if ct.enforcement == [] {
      changed, r := BoolAndNotEnforced(ct, ctx);
      return;
    }
    var kept, stop := ScanBoolAnd(ctx, lits);
    if stop < |lits| {
      ghost var mid := ctx.domains;
      forall j | 0 <= j < |ct.enforcement|
        ensures ctx.IsBooleanRef(ct.enforcement[j])
      {
        assert old(ctx.IsBooleanRef(ct.enforcement[j]));
      }
      changed, r := BoolAndIsFalse(ct, ctx, stop);
      stopped := true;
      ShrinksTransitive(old(ctx.domains), mid, ctx.domains);
      KeepsBooleanTransitive(old(ctx.domains), mid, ctx.domains);
      return;
    }
    assert lits[..|lits|] == lits;
    changed, r := FinishBoolAnd(ct, ctx, kept);
  }

  // ---------------------------------------------------------------------
  // at_most_one

  /** `lits` without the copies of `l`, in order. */
  function Without(lits: seq<int>, l: int): (r: seq<int>)
    ensures |r| <= |lits| && forall x :: x in r <==> x in lits && x != l
    decreases |lits|
  {
    if |lits| == 0 then []
    else Without(lits[..|lits| - 1], l) + (if lits[|lits| - 1] == l then [] else [lits[|lits| - 1]])
  }

  /**
   * The literals set false once `lits[t]` is found true, as the rule is
   * written: it skips every literal equal to `lits[t]` as a reference, so
   * another copy of `lits[t]` is skipped too.
   */
  function OthersByRef(lits: seq<int>, t: nat): seq<int>
    requires t < |lits|
  {
    Without(lits, lits[t])
  }

  /** The literals set false once `lits[t]` is found true: every position but `t`. */
  function OthersByPosition(lits: seq<int>, t: nat): (others: seq<int>)
    requires t < |lits|
    ensures |others| == |lits| - 1
    ensures forall j :: 0 <= j < |others| ==> others[j] == lits[if j < t then j else j + 1]
  {
    lits[..t] + lits[t + 1..]
  }

  /**
   * With `x` fixed to 1, `at_most_one(x, x)` holds under no assignment
   * within the domains, yet the rule as written sets no literal false and
   * removes the constraint; skipping by position sets the second `x`
   * false, which makes the model infeasible as it should.
   */
  lemma DuplicateOfTrueLiteralIsSkipped()
    ensures OthersByRef([0, 0], 0) == [] && OthersByPosition([0, 0], 0) == [0]
    ensures forall values :: Satisfies(values, [[Domains.ClosedInterval(1, 1)]]) ==>
      values == [1] && !Holds(values, Constraint([], AtMostOne([0, 0]))) && Holds(values, Cleared)
  {
    assert 0 !in OthersByRef([0, 0], 0);
    forall values | Satisfies(values, [[Domains.ClosedInterval(1, 1)]])
      ensures values == [1] && !Holds(values, Constraint([], AtMostOne([0, 0])))
    {
      assert Domains.Contains([Domains.ClosedInterval(1, 1)], values[0]);
      assert values == [1];
      assert LiteralHolds(values, 0);
      assert [0, 0][..1] == [0] && [0][..0] == [];
      assert CountHolding(values, [0]) == 1;
      assert CountHolding(values, [0, 0]) == 2;
    }
  }

  /** When `lits[t]` occurs once, skipping by reference and skipping by position set the same literals false. */
  lemma {:induction false} OthersAgreeWithoutCopies(lits: seq<int>, t: nat)
    requires t < |lits| && forall j :: 0 <= j < |lits| && j != t ==> lits[j] != lits[t]
    ensures OthersByRef(lits, t) == OthersByPosition(lits, t)
    decreases |lits|
  {
    var n := |lits| - 1;
    var front := lits[..n];
    if t == n {
      WithoutAbsent(front, lits[t]);
      assert lits[t + 1..] == [];
    } else {
      OthersAgreeWithoutCopies(front, t);
      assert lits[..t] + lits[t + 1..] == (front[..t] + front[t + 1..]) + [lits[n]];
    }
  }

  lemma {:induction false} WithoutAbsent(lits: seq<int>, l: int)
    requires l !in lits
    ensures Without(lits, l) == lits
    decreases |lits|
  {
    if |lits| > 0 {
      WithoutAbsent(lits[..|lits| - 1], l);
    }
  }

  /** Exactly one position of `lits` holds: one literal holds in all. */
  lemma {:induction false} CountOneHolding(values: Assignment, lits: seq<int>, t: nat)
    requires t < |lits| && LiteralHolds(values, lits[t])
    requires forall j :: 0 <= j < |lits| && j != t ==> !LiteralHolds(values, lits[j])
    ensures CountHolding(values, lits) == 1
    decreases |lits|
  {
    var front := lits[..|lits| - 1];
    if t < |lits| - 1 {
      CountOneHolding(values, front, t);
    } else {
      CountNoneHolding(values, front);
    }
  }

  lemma {:induction false} CountNoneHolding(values: Assignment, lits: seq<int>)
    requires forall j :: 0 <= j < |lits| ==> !LiteralHolds(values, lits[j])
    ensures CountHolding(values, lits) == 0
    decreases |lits|
  {
    if |lits| > 0 {
      CountNoneHolding(values, lits[..|lits| - 1]);
    }
  }

  /** `lits[t]` is true and the literals at the other positions below `i` are false. */
  predicate OthersFalseBelow(ctx: Context, lits: seq<int>, t: nat, i: nat)
    reads ctx`domains
    requires ctx.AllBoolean(lits) && t < |lits| && i <= |lits|
  {
    ctx.LiteralIsTrue(lits[t]) && forall j :: 0 <= j < i && j != t ==> ctx.LiteralIsFalse(lits[j])
  }

  /** One step of setting the others false: `lits[j]` becomes false, or the model infeasible. */
  method SetOtherFalse(ctx: Context, lits: seq<int>, t: nat, j: nat)
    requires ctx.Valid() && ctx.AllBoolean(lits) && t < |lits| && j < |lits| && j != t
    requires !ctx.isUnsat ==> OthersFalseBelow(ctx, lits, t, j)
    modifies ctx`domains, ctx`modifiedDomains, ctx`isUnsat
    ensures ctx.Valid() && KeepsBoolean(old(ctx.domains), ctx.domains) && Shrinks(old(ctx.domains), ctx.domains)
    ensures (old(ctx.isUnsat) ==> ctx.isUnsat) && ctx.AllBoolean(lits)
    ensures !ctx.isUnsat ==> OthersFalseBelow(ctx, lits, t, j + 1)
    ensures forall w :: 0 <= w < |ctx.domains| && w != PositiveRef(lits[j]) ==> ctx.domains[w] == old(ctx.domains[w])
  {
    var l := lits[j];
    ghost var wasFixed := ctx.IsFixed(l);
    if !ctx.isUnsat && !wasFixed {
      forall k | 0 <= k < j || k == t
        ensures PositiveRef(lits[k]) != PositiveRef(l)
      {
        if PositiveRef(lits[k]) == PositiveRef(l) {
          assert false;
        }
      }
    }
    ctx.SetLiteralToFalse(l);
    forall k | 0 <= k < |lits|
      ensures ctx.IsBooleanRef(lits[k])
    {
      assert old(ctx.IsBooleanRef(lits[k]));
    }
  }

  /** Sets false every literal of `lits` but the one at `t`, which is true. */
  method SetOthersFalse(ctx: Context, lits: seq<int>, t: nat)
    requires ctx.Valid() && ctx.AllBoolean(lits) && t < |lits| && ctx.LiteralIsTrue(lits[t])
    modifies ctx`domains, ctx`modifiedDomains, ctx`isUnsat
    ensures ctx.Valid() && KeepsBoolean(old(ctx.domains), ctx.domains) && Shrinks(old(ctx.domains), ctx.domains)
    ensures (old(ctx.isUnsat) ==> ctx.isUnsat) && ctx.AllBoolean(lits)
    ensures !ctx.isUnsat ==> OthersFalseBelow(ctx, lits, t, |lits|)
    ensures forall w :: 0 <= w < |ctx.domains| && w !in VariablesOf(lits) ==> ctx.domains[w] == old(ctx.domains[w])
  {
    var j := 0;
    while j < |lits|
      invariant j <= |lits| && ctx.Valid() && ctx.AllBoolean(lits)
      invariant KeepsBoolean(old(ctx.domains), ctx.domains) && Shrinks(old(ctx.domains), ctx.domains)
      invariant old(ctx.isUnsat) ==> ctx.isUnsat
      invariant !ctx.isUnsat ==> OthersFalseBelow(ctx, lits, t, j)
      invariant forall w :: 0 <= w < |ctx.domains| && w !in VariablesOf(lits) ==> ctx.domains[w] == old(ctx.domains[w])
    {
      if j != t {
        ghost var mid := ctx.domains;
        SetOtherFalse(ctx, lits, t, j);
        ShrinksTransitive(old(ctx.domains), mid, ctx.domains);
        KeepsBooleanTransitive(old(ctx.domains), mid, ctx.domains);
      }
      j := j + 1;
    }
  }

  /**
   * Presolves an `at_most_one`, which has no enforcement literal. A true
   * literal sets every other position false and removes the constraint;
   * otherwise the false literals are dropped, and with none left the
   * constraint is removed.
   */
  method PresolveAtMostOne(ct: Constraint, ctx: Context) returns (changed: bool, r: Constraint, ghost t: nat)
    requires ct.body.AtMostOne? && ct.enforcement == [] && ctx.Valid() && ctx.AllBoolean(ct.body.literals)
    modifies ctx`domains, ctx`modifiedDomains, ctx`isUnsat
    ensures ctx.Valid() && KeepsBoolean(old(ctx.domains), ctx.domains) && Shrinks(old(ctx.domains), ctx.domains)
    ensures old(ctx.isUnsat) ==> ctx.isUnsat
    ensures t <= |ct.body.literals| && forall j :: 0 <= j < t ==> old(!ctx.LiteralIsTrue(ct.body.literals[j]))
    ensures t < |ct.body.literals| ==> (old(ctx.LiteralIsTrue(ct.body.literals[t])) && changed && r == Cleared &&
      (!ctx.isUnsat ==> OthersFalseBelow(ctx, ct.body.literals, t, |ct.body.literals|)))
    ensures t == |ct.body.literals| ==> (ctx.domains == old(ctx.domains) && ctx.isUnsat == old(ctx.isUnsat) &&
      var kept := WithoutFalse(ctx, ct.body.literals);
      changed == (kept == [] || |kept| != |ct.body.literals|) &&
      r == if kept == [] then Cleared else if changed then ct.(body := AtMostOne(kept)) else ct)
    ensures HasMeaning(r.body) && (!ctx.isUnsat ==> SameMeaning(ctx.domains, ct, r))
  {
    var lits := ct.body.literals;
    var kept := [];
    var i := 0;
    while i < |lits|
      invariant i <= |lits| && kept == WithoutFalse(ctx, lits[..i])
      invariant forall j :: 0 <= j < i ==> !ctx.LiteralIsTrue(lits[j])
    {
      var l := lits[i];
      assert lits[..i + 1] == lits[..i] + [l];
      if ctx.LiteralIsTrue(l) {
        break;
      }
      if !ctx.LiteralIsFalse(l) {
        kept := kept + [l];
      }
      i := i + 1;
    }
    t := i;
    if i < |lits| {
      SetOthersFalse(ctx, lits, i);
      if !ctx.isUnsat {
        AtMostOneSatisfied(ctx, lits, i);
      }
      return true, Cleared, t;
    }
    assert lits[..i] == lits;
    changed, r := FinishAtMostOne(ct, ctx, kept);
  }

  /** A true literal and all the others false: every assignment within the domains satisfies the `at_most_one`. */
  lemma AtMostOneSatisfied(ctx: Context, lits: seq<int>, t: nat)
    requires ctx.Valid() && ctx.AllBoolean(lits) && t < |lits| && OthersFalseBelow(ctx, lits, t, |lits|)
    ensures forall values :: Satisfies(values, ctx.domains) ==> CountHolding(values, lits) <= 1
  {
    forall values | Satisfies(values, ctx.domains)
      ensures CountHolding(values, lits) == 1
    {
      forall j | 0 <= j < |lits| && j != t
        ensures !LiteralHolds(values, lits[j])
      {
        ctx.FixedLiteralsDecide(values, lits[j]);
      }
      ctx.FixedLiteralsDecide(values, lits[t]);
      CountOneHolding(values, lits, t);
    }
  }

  /** The end of an `at_most_one` without a true literal, on its literals `kept` that are not false. */
  method FinishAtMostOne(ct: Constraint, ctx: Context, kept: seq<int>) returns (changed: bool, r: Constraint)
    requires ct.body.AtMostOne? && ct.enforcement == [] && ctx.Valid() && ctx.AllBoolean(ct.body.literals)
    requires kept == WithoutFalse(ctx, ct.body.literals)
    ensures changed == (kept == [] || |kept| != |ct.body.literals|)
    ensures r == if kept == [] then Cleared else if changed then ct.(body := AtMostOne(kept)) else ct
    ensures HasMeaning(r.body) && SameMeaning(ctx.domains, ct, r)
  {
    var lits := ct.body.literals;
    forall values | Satisfies(values, ctx.domains)
      ensures CountHolding(values, kept) == CountHolding(values, lits)
    {
      WithoutFalseCount(ctx, lits, values);
    }
    if kept == [] {
      return true, Cleared;
    }
    changed := |kept| != |lits|;
    r := ct;
    if changed {
      r := ct.(body := AtMostOne(kept));
    }
  }
}
