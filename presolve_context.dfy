/**
 * The presolve context: the current domain of every variable, the set of
 * variables whose domain changed, the infeasibility flag, the
 * variable/constraint usage graph and the constraints of the working model.
 */
module PresolveContext {

  import opened Refs
  import opened CpModel
  import Domains

  /** The value `ref` takes when its variable takes `x`. */
  function Oriented(ref: int, x: int): int
  {
    if RefIsPositive(ref) then x else -x
  }

  /** The value of the variable of `lit` that makes `lit` false. */
  function FalseValue(lit: int): int
  {
    if RefIsPositive(lit) then 0 else 1
  }

  /** The domain holding the single value `value`. */
  function Singleton(value: int): (d: Domains.Domain)
    ensures Domains.Valid(d) && forall x :: Domains.Contains(d, x) <==> x == value
  {
    Domains.FromInterval(value, value)
  }

  /** A non-empty domain within `0..1`. */
  predicate BooleanDomain(d: Domains.Domain)
  {
    Domains.Valid(d) && |d| > 0 && 0 <= Domains.Min(d) && Domains.Max(d) <= 1
  }

  /** No reduction turns a domain within `0..1` into one that is not: the Boolean variables stay Boolean. */
  predicate KeepsBoolean(before: seq<Domains.Domain>, after: seq<Domains.Domain>)
  {
    |after| == |before| && forall w :: 0 <= w < |before| ==> (BooleanDomain(before[w]) ==> BooleanDomain(after[w]))
  }

  /** Every domain of `after` is within the domain of `before` at the same index: only values were removed. */
  ghost predicate Shrinks(before: seq<Domains.Domain>, after: seq<Domains.Domain>)
  {
    |after| == |before| && forall w, x :: 0 <= w < |before| && Domains.Contains(after[w], x) ==> Domains.Contains(before[w], x)
  }

  /** `values` gives every variable a value of its domain. */
  predicate Satisfies(values: Assignment, domains: seq<Domains.Domain>)
  {
    |values| == |domains| && forall v :: 0 <= v < |values| ==> Domains.Contains(domains[v], values[v])
  }

  /** An assignment within shrunk domains is within the domains it started from. */
  lemma ShrinksKeepsSatisfied(values: Assignment, before: seq<Domains.Domain>, after: seq<Domains.Domain>)
    requires Shrinks(before, after) && Satisfies(values, after)
    ensures Satisfies(values, before)
  {
    forall v | 0 <= v < |values|
      ensures Domains.Contains(before[v], values[v])
    {
      assert Domains.Contains(after[v], values[v]);
    }
  }

  /** Every value of `d` gives `ref` a value of `domain`. */
  ghost predicate Inside(d: Domains.Domain, ref: int, domain: Domains.Domain)
  {
    forall x :: Domains.Contains(d, x) ==> Domains.Contains(domain, Oriented(ref, x))
  }

  /** The values `x` of a variable for which `ref` takes a value of `domain`. */
  function OrientedDomain(ref: int, domain: Domains.Domain): (r: Domains.Domain)
    requires Domains.Valid(domain)
    ensures Domains.Valid(r)
    ensures forall x :: Domains.Contains(r, x) <==> Domains.Contains(domain, Oriented(ref, x))
  {
    Domains.NegationIsValidMirror(domain);
    if RefIsPositive(ref) then domain else Domains.Negation(domain)
  }

  /** The values of `d` that give `ref` a value of `domain`. */
  function Restricted(d: Domains.Domain, ref: int, domain: Domains.Domain): (r: Domains.Domain)
    requires Domains.Valid(d) && Domains.Valid(domain)
    ensures Domains.Valid(r)
    ensures forall x :: Domains.Contains(r, x) <==> Domains.Contains(d, x) && Domains.Contains(domain, Oriented(ref, x))
  {
    Domains.IntersectionWith(d, OrientedDomain(ref, domain))
  }

  /** Restricting `d` only removes values. */
  lemma RestrictedShrinks(domains: seq<Domains.Domain>, v: nat, ref: int, domain: Domains.Domain)
    requires v < |domains| && Domains.Valid(domains[v]) && Domains.Valid(domain)
    ensures Shrinks(domains, domains[v := Restricted(domains[v], ref, domain)])
  {
  }

  /**
   * Restricting a domain with two values or more to the single `value`: the
   * domain changes, keeps `value` alone if it had it, and a domain within
   * `0..1` stays one.
   */
  lemma RestrictToValue(d: Domains.Domain, v: nat, value: int)
    requires Domains.Valid(d) && |d| > 0 && Domains.Min(d) != Domains.Max(d)
    ensures !Inside(d, v, Singleton(value))
    ensures var r := Restricted(d, v, Singleton(value));
      (forall x :: Domains.Contains(r, x) <==> Domains.Contains(d, x) && x == value) &&
      (r != [] ==> Domains.Min(r) == value && Domains.Max(r) == value) &&
      (BooleanDomain(d) && 0 <= value <= 1 ==> BooleanDomain(r))
  {
    Domains.MinMaxAreExtremeValues(d);
    var r := Restricted(d, v, Singleton(value));
    if r != [] {
      OnlyValue(r, value);
    }
    if BooleanDomain(d) && 0 <= value <= 1 {
      assert Domains.Contains(d, value);
      assert Domains.Contains(r, value);
    }
  }

  /** A valid domain whose values all equal `value` is `value..value`. */
  lemma OnlyValue(d: Domains.Domain, value: int)
    requires Domains.Valid(d) && |d| > 0 && forall x :: Domains.Contains(d, x) ==> x == value
    ensures Domains.Min(d) == value && Domains.Max(d) == value
  {
    Domains.MinMaxAreExtremeValues(d);
  }

  class Context {
    var domains: seq<Domains.Domain>
    var modifiedDomains: set<nat>
    var isUnsat: bool
    var varToConstraints: seq<set<int>>
    var enumerateAllSolutions: bool
    /** The constraints of the working model. */
    var constraints: seq<Constraint>

    /** Every domain is a valid interval list, and the usage graph has a slot per variable. */
    ghost predicate Valid()
      reads this`domains, this`varToConstraints
    {
      |varToConstraints| == |domains| && forall v :: 0 <= v < |domains| ==> Domains.Valid(domains[v])
    }

    /** `ref` names a variable of the context whose domain is not empty. */
    predicate HasValues(ref: int)
      reads this`domains
    {
      PositiveRef(ref) < |domains| && domains[PositiveRef(ref)] != []
    }

    predicate DomainIsEmpty(ref: int)
      reads this`domains
      requires PositiveRef(ref) < |domains|
    {
      domains[PositiveRef(ref)] == []
    }

    predicate IsFixed(ref: int)
      reads this`domains
      requires HasValues(ref)
    {
      Domains.Min(domains[PositiveRef(ref)]) == Domains.Max(domains[PositiveRef(ref)])
    }

    predicate LiteralIsTrue(lit: int)
      reads this`domains
      requires HasValues(lit)
    {
      IsFixed(lit) &&
      if RefIsPositive(lit) then Domains.Min(domains[lit]) == 1 else Domains.Max(domains[PositiveRef(lit)]) == 0
    }

    predicate LiteralIsFalse(lit: int)
      reads this`domains
      requires HasValues(lit)
    {
      IsFixed(lit) &&
      if RefIsPositive(lit) then Domains.Max(domains[lit]) == 0 else Domains.Min(domains[PositiveRef(lit)]) == 1
    }

    function MinOf(ref: int): int
      reads this`domains
      requires HasValues(ref)
    {
      if RefIsPositive(ref) then Domains.Min(domains[PositiveRef(ref)]) else -Domains.Max(domains[PositiveRef(ref)])
    }

    function MaxOf(ref: int): int
      reads this`domains
      requires HasValues(ref)
    {
      if RefIsPositive(ref) then Domains.Max(domains[PositiveRef(ref)]) else -Domains.Min(domains[PositiveRef(ref)])
    }

    /** The variable of `ref` appears in exactly one constraint, and not every solution is wanted. */
    predicate VariableIsUniqueAndRemovable(ref: int)
      reads this`domains, this`varToConstraints, this`enumerateAllSolutions
      requires Valid() && PositiveRef(ref) < |domains|
    {
      |varToConstraints[PositiveRef(ref)]| == 1 && !enumerateAllSolutions
    }

    /** The values `ref` can take: those of its variable, negated for a negative reference. */
    function DomainOf(ref: int): (d: Domains.Domain)
      reads this`domains, this`varToConstraints
      requires Valid() && PositiveRef(ref) < |domains|
      ensures Domains.Valid(d)
      ensures forall x :: Domains.Contains(d, Oriented(ref, x)) <==> Domains.Contains(domains[PositiveRef(ref)], x)
    {
      if RefIsPositive(ref) then domains[ref]
      else
        Domains.NegationIsValidMirror(domains[PositiveRef(ref)]);
        Domains.Negation(domains[PositiveRef(ref)])
    }

    /** The variable of `lit` has a non-empty domain within `0..1`. */
    predicate IsBooleanRef(lit: int)
      reads this`domains
    {
      PositiveRef(lit) < |domains| && BooleanDomain(domains[PositiveRef(lit)])
    }

    predicate AllBoolean(lits: seq<int>)
      reads this`domains
    {
      forall i :: 0 <= i < |lits| ==> IsBooleanRef(lits[i])
    }

    // -------------------------------------------------------------------
    // Properties of the queries

    /** A reference and its negation see the same variable from both sides. */
    lemma NegationSymmetry(ref: int)
      requires HasValues(ref)
      ensures HasValues(NegatedRef(ref))
      ensures LiteralIsTrue(ref) == LiteralIsFalse(NegatedRef(ref))
      ensures LiteralIsFalse(ref) == LiteralIsTrue(NegatedRef(ref))
      ensures IsFixed(NegatedRef(ref)) == IsFixed(ref)
      ensures MinOf(NegatedRef(ref)) == -MaxOf(ref) && MaxOf(NegatedRef(ref)) == -MinOf(ref)
    {
    }

    /** `MinOf` and `MaxOf` are the least and the greatest value `ref` can take. */
    lemma MinOfMaxOfAreExtreme(ref: int)
      requires Valid() && HasValues(ref)
      ensures Domains.Contains(DomainOf(ref), MinOf(ref)) && Domains.Contains(DomainOf(ref), MaxOf(ref))
      ensures forall x :: Domains.Contains(DomainOf(ref), x) ==> MinOf(ref) <= x <= MaxOf(ref)
    {
      var d := domains[PositiveRef(ref)];
      Domains.MinMaxAreExtremeValues(d);
      assert Domains.Contains(DomainOf(ref), Oriented(ref, Domains.Min(d)));
      assert Domains.Contains(DomainOf(ref), Oriented(ref, Domains.Max(d)));
      forall x | Domains.Contains(DomainOf(ref), x)
        ensures MinOf(ref) <= x <= MaxOf(ref)
      {
        assert Domains.Contains(d, Oriented(ref, x)) by {
          assert Oriented(ref, Oriented(ref, x)) == x;
        }
      }
    }

    /** A literal is true exactly when the only value left to its variable is the one that makes it hold. */
    lemma LiteralIsTrueMeaning(lit: int)
      requires Valid() && HasValues(lit)
      ensures LiteralIsTrue(lit) <==> forall x :: Domains.Contains(domains[PositiveRef(lit)], x) ==> x == 1 - FalseValue(lit)
    {
      var d := domains[PositiveRef(lit)];
      Domains.MinMaxAreExtremeValues(d);
      if forall x :: Domains.Contains(d, x) ==> x == 1 - FalseValue(lit) {
        OnlyValue(d, 1 - FalseValue(lit));
      }
    }

    /** A literal is false exactly when the only value left to its variable is the one that makes it fail. */
    lemma LiteralIsFalseMeaning(lit: int)
      requires Valid() && HasValues(lit)
      ensures LiteralIsFalse(lit) <==> forall x :: Domains.Contains(domains[PositiveRef(lit)], x) ==> x == FalseValue(lit)
    {
      var d := domains[PositiveRef(lit)];
      Domains.MinMaxAreExtremeValues(d);
      if forall x :: Domains.Contains(d, x) ==> x == FalseValue(lit) {
        OnlyValue(d, FalseValue(lit));
      }
    }

    /** Under every assignment within the domains, a true literal holds and a false one does not. */
    lemma FixedLiteralsDecide(values: Assignment, lit: int)
      requires Valid() && HasValues(lit) && Satisfies(values, domains)
      ensures LiteralIsTrue(lit) ==> LiteralHolds(values, lit)
      ensures LiteralIsFalse(lit) ==> !LiteralHolds(values, lit)
    {
      LiteralIsTrueMeaning(lit);
      LiteralIsFalseMeaning(lit);
      assert Domains.Contains(domains[PositiveRef(lit)], values[PositiveRef(lit)]);
    }

    // -------------------------------------------------------------------
    // Domain reductions

    /**
     * Restricts the values of `ref` to those of `domain`. Reports whether
     * the domain changed: it does not when every value of `ref` is already
     * in `domain`. A change marks the variable modified, and emptying the
     * domain makes the model infeasible.
     */
    method IntersectDomainWith(ref: int, domain: Domains.Domain) returns (changed: bool)
      requires Valid() && HasValues(ref) && Domains.Valid(domain)
      modifies this`domains, this`modifiedDomains, this`isUnsat
      ensures Valid() && |domains| == old(|domains|) && Shrinks(old(domains), domains)
      ensures changed <==> !Inside(old(domains[PositiveRef(ref)]), ref, domain)
      ensures !changed ==> domains == old(domains) && modifiedDomains == old(modifiedDomains) && isUnsat == old(isUnsat)
      ensures changed ==> var v := PositiveRef(ref);
        domains == old(domains)[v := Restricted(old(domains[v]), ref, domain)] &&
        modifiedDomains == old(modifiedDomains) + {v} && isUnsat == (old(isUnsat) || domains[v] == [])
    {
      var v := PositiveRef(ref);
      var target := OrientedDomain(ref, domain);
      if Domains.IsIncludedIn(domains[v], target) {
        return false;
      }
      RestrictedShrinks(domains, v, ref, domain);
      domains := domains[v := Domains.IntersectionWith(domains[v], target)];
      modifiedDomains := modifiedDomains + {v};
      if domains[v] == [] {
        isUnsat := true;
      }
      return true;
    }

    /**
     * Makes `lit` false. When its variable is already fixed nothing changes,
     * except that a variable fixed to the value making `lit` true makes the
     * model infeasible; otherwise the variable is restricted to that value.
     */
    method SetLiteralToFalse(lit: int)
      requires Valid() && HasValues(lit)
      modifies this`domains, this`modifiedDomains, this`isUnsat
      ensures Valid() && |domains| == old(|domains|) && (old(isUnsat) ==> isUnsat) && Shrinks(old(domains), domains)
      ensures isUnsat || (HasValues(lit) && LiteralIsFalse(lit))
      ensures forall w :: 0 <= w < |domains| && w != PositiveRef(lit) ==> domains[w] == old(domains[w])
      ensures old(IsFixed(lit)) ==>
        domains == old(domains) && modifiedDomains == old(modifiedDomains) &&
        isUnsat == (old(isUnsat) || old(MinOf(PositiveRef(lit))) != FalseValue(lit))
      ensures !old(IsFixed(lit)) ==> var v := PositiveRef(lit);
        modifiedDomains == old(modifiedDomains) + {v} && isUnsat == (old(isUnsat) || domains[v] == []) &&
        forall x :: Domains.Contains(domains[v], x) <==> Domains.Contains(old(domains[v]), x) && x == FalseValue(lit)
      ensures forall w :: 0 <= w < |domains| ==> (BooleanDomain(old(domains)[w]) ==> BooleanDomain(domains[w]))
    {
      var v := PositiveRef(lit);
      if IsFixed(v) {
        CheckFixedValue(lit);
      } else {
        RestrictToFalseValue(lit);
      }
    }

    /** The fixed case of `SetLiteralToFalse`: nothing changes, but a value making `lit` true makes the model infeasible. */
    method CheckFixedValue(lit: int)
      requires Valid() && HasValues(lit) && IsFixed(lit)
      modifies this`isUnsat
      ensures isUnsat == (old(isUnsat) || MinOf(PositiveRef(lit)) != FalseValue(lit))
      ensures isUnsat || LiteralIsFalse(lit)
    {
      var v := PositiveRef(lit);
      var value := if RefIsPositive(lit) then 0 else 1;
      var fixedValue := MinOf(v);
      if value != fixedValue {
        isUnsat := true;
      }
    }

    /** The case of `SetLiteralToFalse` where the variable is not fixed: its domain is cut down to the value making `lit` false. */
    method RestrictToFalseValue(lit: int)
      requires Valid() && HasValues(lit) && !IsFixed(lit)
      modifies this`domains, this`modifiedDomains, this`isUnsat
      ensures Valid() && |domains| == old(|domains|) && (old(isUnsat) ==> isUnsat) && Shrinks(old(domains), domains)
      ensures isUnsat || (HasValues(lit) && LiteralIsFalse(lit))
      ensures forall w :: 0 <= w < |domains| && w != PositiveRef(lit) ==> domains[w] == old(domains[w])
      ensures var v := PositiveRef(lit);
        modifiedDomains == old(modifiedDomains) + {v} && isUnsat == (old(isUnsat) || domains[v] == []) &&
        forall x :: Domains.Contains(domains[v], x) <==> Domains.Contains(old(domains[v]), x) && x == FalseValue(lit)
      ensures forall w :: 0 <= w < |domains| ==> (BooleanDomain(old(domains)[w]) ==> BooleanDomain(domains[w]))
    {
      var v := PositiveRef(lit);
      var value := if RefIsPositive(lit) then 0 else 1;
      RestrictToValue(domains[v], v, value);
      var changed := IntersectDomainWith(v, Singleton(value));
    }

    /** Makes `lit` true: makes its negation false. */
    method SetLiteralToTrue(lit: int)
      requires Valid() && HasValues(lit)
      modifies this`domains, this`modifiedDomains, this`isUnsat
      ensures Valid() && |domains| == old(|domains|) && (old(isUnsat) ==> isUnsat) && Shrinks(old(domains), domains)
      ensures isUnsat || (HasValues(lit) && LiteralIsTrue(lit))
      ensures forall w :: 0 <= w < |domains| && w != PositiveRef(lit) ==> domains[w] == old(domains[w])
      ensures old(IsFixed(lit)) ==>
        domains == old(domains) && modifiedDomains == old(modifiedDomains) &&
        isUnsat == (old(isUnsat) || old(MinOf(PositiveRef(lit))) != 1 - FalseValue(lit))
      ensures !old(IsFixed(lit)) ==> var v := PositiveRef(lit);
        modifiedDomains == old(modifiedDomains) + {v} && isUnsat == (old(isUnsat) || domains[v] == []) &&
        forall x :: Domains.Contains(domains[v], x) <==> Domains.Contains(old(domains[v]), x) && x == 1 - FalseValue(lit)
      ensures forall w :: 0 <= w < |domains| ==> (BooleanDomain(old(domains)[w]) ==> BooleanDomain(domains[w]))
    {
      NegationSymmetry(lit);
      SetLiteralToFalse(NegatedRef(lit));
      if !isUnsat {
        NegationSymmetry(NegatedRef(lit));
      }
    }
  }
}
