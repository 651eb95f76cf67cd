/**
 * `PresolveLinearOnBooleans`: a linear constraint over 0/1 variables,
 * already in the canonical form `PresolveLinear` leaves (positive
 * references, non-zero coefficients), is turned into a `bool_and`, a
 * `bool_or`, an `at_most_one` or, over at most three variables, one
 * clause per excluded assignment.
 *
 * Writing `coeff * x` as `coeff * x` for a positive coefficient and as
 * `coeff + |coeff| * (1 - x)` otherwise, the weighted sum is
 * `minSum + sum of |coeff|` over the terms whose literal holds, where the
 * literal of a term is `x` or its negation (`TermLiteral`).
 */
module PresolveBooleans {

  import opened Refs
  import opened IntegerTypes
  import opened CpModel
  import opened PresolveContext
  import opened PresolveBool
  import Domains

  // ---------------------------------------------------------------------
  // Terms as literals

  function Abs(x: int): nat
  {
    if x < 0 then -x else x
  }

  /** The literal whose truth adds `|coeff|` to the smallest sum: `v` for a positive coefficient, its negation otherwise. */
  function TermLiteral(v: int, coeff: int): int
  {
    if coeff > 0 then v else NegatedRef(v)
  }

  function TermLiterals(vars: seq<int>, coeffs: seq<int>): (lits: seq<int>)
    requires |vars| == |coeffs|
    ensures |lits| == |vars| && forall i :: 0 <= i < |vars| ==> lits[i] == TermLiteral(vars[i], coeffs[i])
  {
    seq(|vars|, i requires 0 <= i < |vars| => TermLiteral(vars[i], coeffs[i]))
  }

  predicate PositiveVars(vars: seq<int>)
  {
    forall i :: 0 <= i < |vars| ==> RefIsPositive(vars[i])
  }

  /** Every literal of `lits` talks about a variable that `values` sets to 0 or 1. */
  predicate ZeroOne(values: Assignment, lits: seq<int>)
  {
    forall i :: 0 <= i < |lits| ==> PositiveRef(lits[i]) < |values| && 0 <= values[PositiveRef(lits[i])] <= 1
  }

  // ---------------------------------------------------------------------
  // Coefficient statistics

  /** What the loop over the terms gathers: the smallest and largest `|coeff|`, and the smallest and largest reachable sums. */
  datatype CoefficientStats = CoefficientStats(minCoeff: int, maxCoeff: int, minSum: int, maxSum: int)

  /** The statistics with the largest coefficient kept by `std::max`. */
  function StatsOf(coeffs: seq<int>): CoefficientStats
  {
    if |coeffs| == 0 then CoefficientStats(kint64max, 0, 0, 0)
    else
      var s, c := StatsOf(coeffs[..|coeffs| - 1]), coeffs[|coeffs| - 1];
      if c > 0 then CoefficientStats(if c < s.minCoeff then c else s.minCoeff, if c > s.maxCoeff then c else s.maxCoeff, s.minSum, s.maxSum + c)
      else CoefficientStats(if -c < s.minCoeff then -c else s.minCoeff, if -c > s.maxCoeff then -c else s.maxCoeff, s.minSum + c, s.maxSum)
  }

  /** The statistics as the loop is written: `max_coeff` starts at 0 and is updated with `std::min`. */
  function StatsAsWritten(coeffs: seq<int>): CoefficientStats
  {
    if |coeffs| == 0 then CoefficientStats(kint64max, 0, 0, 0)
    else
      var s, c := StatsAsWritten(coeffs[..|coeffs| - 1]), coeffs[|coeffs| - 1];
      if c > 0 then CoefficientStats(if c < s.minCoeff then c else s.minCoeff, if c < s.maxCoeff then c else s.maxCoeff, s.minSum, s.maxSum + c)
      else CoefficientStats(if -c < s.minCoeff then -c else s.minCoeff, if -c < s.maxCoeff then -c else s.maxCoeff, s.minSum + c, s.maxSum)
  }

  /** As written, `max_coeff` is 0 whatever the coefficients; every other statistic is right. */
  lemma {:induction false} MaxCoeffAsWrittenIsZero(coeffs: seq<int>)
    ensures StatsAsWritten(coeffs) == StatsOf(coeffs).(maxCoeff := 0)
    decreases |coeffs|
  {
    if |coeffs| > 0 {
      MaxCoeffAsWrittenIsZero(coeffs[..|coeffs| - 1]);
    }
  }

  /** Every `|coeff|` lies between the two coefficient statistics, and the smallest sum is at most 0, the largest at least 0. */
  lemma {:induction false} StatsBounds(coeffs: seq<int>)
    requires forall i :: 0 <= i < |coeffs| ==> coeffs[i] != 0
    ensures var s := StatsOf(coeffs);
      1 <= s.minCoeff && 0 <= s.maxCoeff && s.minSum <= 0 <= s.maxSum &&
      forall i :: 0 <= i < |coeffs| ==> s.minCoeff <= Abs(coeffs[i]) <= s.maxCoeff
    decreases |coeffs|
  {
    if |coeffs| > 0 {
      StatsBounds(coeffs[..|coeffs| - 1]);
    }
  }

  // ---------------------------------------------------------------------
  // Counting and weighing the literals that hold

  /** `|coeffs[i]|` summed over the positions whose literal holds. */
  function Weight(values: Assignment, lits: seq<int>, coeffs: seq<int>): int
    requires |lits| == |coeffs|
  {
    if |lits| == 0 then 0
    else Weight(values, lits[..|lits| - 1], coeffs[..|coeffs| - 1]) + (if LiteralHolds(values, lits[|lits| - 1]) then Abs(coeffs[|coeffs| - 1]) else 0)
  }

  /** More than none hold exactly when some literal holds, all of them exactly when every literal holds. */
  lemma {:induction false} CountBounds(values: Assignment, lits: seq<int>)
    ensures CountHolding(values, lits) <= |lits|
    ensures CountHolding(values, lits) > 0 <==> SomeHolds(values, lits)
    ensures CountHolding(values, lits) == |lits| <==> AllHold(values, lits)
    decreases |lits|
  {
    if |lits| > 0 {
      var front, last := lits[..|lits| - 1], lits[|lits| - 1];
      CountBounds(values, front);
      assert lits == front + [last];
      AllHoldAppend(values, front, [last]);
      SomeHoldsAppend(values, front, [last]);
      assert SomeHolds(values, [last]) <==> LiteralHolds(values, last) by {
        if LiteralHolds(values, last) {
          assert [last][0] == last;
        }
      }
    }
  }

  /** Over 0/1 variables, the negated literals that hold are the literals that do not. */
  lemma {:induction false} CountNegated(values: Assignment, lits: seq<int>)
    requires ZeroOne(values, lits)
    ensures CountHolding(values, NegatedAll(lits)) == |lits| - CountHolding(values, lits)
    decreases |lits|
  {
    if |lits| > 0 {
      var front, last := lits[..|lits| - 1], lits[|lits| - 1];
      CountNegated(values, front);
      assert NegatedAll(lits)[..|lits| - 1] == NegatedAll(front);
      NegatedRefIsInvolution(last);
    }
  }

  /** The weight of the literals that hold lies between `lo` and `hi` times their number. */
  lemma {:induction false} WeightBounds(values: Assignment, lits: seq<int>, coeffs: seq<int>, lo: int, hi: int)
    requires |lits| == |coeffs|
    requires forall i :: 0 <= i < |coeffs| ==> lo <= Abs(coeffs[i]) <= hi
    ensures lo * CountHolding(values, lits) <= Weight(values, lits, coeffs) <= hi * CountHolding(values, lits)
    decreases |lits|
  {
    if |lits| > 0 {
      var n := |lits|;
      WeightBounds(values, lits[..n - 1], coeffs[..n - 1], lo, hi);
      var count, weight := CountHolding(values, lits[..n - 1]), Weight(values, lits[..n - 1], coeffs[..n - 1]);
      if LiteralHolds(values, lits[n - 1]) {
        var a := Abs(coeffs[n - 1]);
        assert CountHolding(values, lits) == count + 1 && Weight(values, lits, coeffs) == weight + a;
        MultiplyStep(lo, count);
        MultiplyStep(hi, count);
      } else {
        assert CountHolding(values, lits) == count && Weight(values, lits, coeffs) == weight;
      }
    }
  }

  lemma MultiplyStep(a: int, n: int)
    ensures a * (n + 1) == a * n + a
  {
  }

  /**
   * Over 0/1 variables, the weighted sum is the smallest sum plus the
   * weight of the term literals that hold, and the largest sum minus the
   * weight of those that do not.
   */
  lemma SumSplit(values: Assignment, vars: seq<int>, coeffs: seq<int>)
    requires |vars| == |coeffs| && PositiveVars(vars) && ZeroOne(values, vars)
    ensures var s, lits := StatsOf(coeffs), TermLiterals(vars, coeffs);
      WeightedSum(values, vars, coeffs) == s.minSum + Weight(values, lits, coeffs) &&
      WeightedSum(values, vars, coeffs) == s.maxSum - Weight(values, NegatedAll(lits), coeffs)
  {
    SumAboveMinimum(values, vars, coeffs);
    SumBelowMaximum(values, vars, coeffs);
  }

  lemma {:induction false} SumAboveMinimum(values: Assignment, vars: seq<int>, coeffs: seq<int>)
    requires |vars| == |coeffs| && PositiveVars(vars) && ZeroOne(values, vars)
    ensures WeightedSum(values, vars, coeffs) == StatsOf(coeffs).minSum + Weight(values, TermLiterals(vars, coeffs), coeffs)
    decreases |vars|
  {
    if |vars| > 0 {
      var n := |vars|;
      var v, c := vars[n - 1], coeffs[n - 1];
      var frontVars, frontCoeffs := vars[..n - 1], coeffs[..n - 1];
      SumAboveMinimum(values, frontVars, frontCoeffs);
      var lits := TermLiterals(vars, coeffs);
      assert lits[..n - 1] == TermLiterals(frontVars, frontCoeffs);
      var before := Weight(values, TermLiterals(frontVars, frontCoeffs), frontCoeffs);
      assert Weight(values, lits, coeffs) == before + (if LiteralHolds(values, lits[n - 1]) then Abs(c) else 0);
      assert WeightedSum(values, vars, coeffs) == WeightedSum(values, frontVars, frontCoeffs) + c * RefValue(values, v);
      assert PositiveRef(v) == v && v < |values| && RefValue(values, v) == values[v];
      if values[v] == 0 {
        assert c * values[v] == 0;
      } else {
        assert c * values[v] == c;
      }
    }
  }

  lemma {:induction false} SumBelowMaximum(values: Assignment, vars: seq<int>, coeffs: seq<int>)
    requires |vars| == |coeffs| && PositiveVars(vars) && ZeroOne(values, vars)
    ensures WeightedSum(values, vars, coeffs) == StatsOf(coeffs).maxSum - Weight(values, NegatedAll(TermLiterals(vars, coeffs)), coeffs)
    decreases |vars|
  {
    if |vars| > 0 {
      var n := |vars|;
      var v, c := vars[n - 1], coeffs[n - 1];
      var frontVars, frontCoeffs := vars[..n - 1], coeffs[..n - 1];
      SumBelowMaximum(values, frontVars, frontCoeffs);
      var lits := NegatedAll(TermLiterals(vars, coeffs));
      assert lits[..n - 1] == NegatedAll(TermLiterals(frontVars, frontCoeffs));
      var before := Weight(values, NegatedAll(TermLiterals(frontVars, frontCoeffs)), frontCoeffs);
      assert Weight(values, lits, coeffs) == before + (if LiteralHolds(values, lits[n - 1]) then Abs(c) else 0);
      assert WeightedSum(values, vars, coeffs) == WeightedSum(values, frontVars, frontCoeffs) + c * RefValue(values, v);
      assert PositiveRef(v) == v && v < |values| && RefValue(values, v) == values[v];
      if values[v] == 0 {
        assert c * values[v] == 0;
      } else {
        assert c * values[v] == c;
      }
    }
  }

  // ---------------------------------------------------------------------
  // Shapes of the right-hand side

  /** Every value of `d` fits in 64 bits. */
  predicate Within64(d: Domains.Domain)
  {
    Domains.Valid(d) && |d| > 0 && kint64min <= Domains.Min(d) && Domains.Max(d) <= kint64max
  }

  /** A domain whose first interval reaches `kint64max` is the single interval `Min(d)..kint64max`. */
  lemma UpperUnbounded(d: Domains.Domain)
    requires Within64(d) && d[0].end == kint64max
    ensures forall x :: Domains.Contains(d, x) <==> Domains.Min(d) <= x <= kint64max
  {
    Domains.SingleIntervalValues(d[0].start, d[0].end);
    assert d == [d[0]];
  }

  /** A domain whose last interval starts at `kint64min` is the single interval `kint64min..Max(d)`. */
  lemma LowerUnbounded(d: Domains.Domain)
    requires Within64(d) && d[|d| - 1].start == kint64min
    ensures forall x :: Domains.Contains(d, x) <==> kint64min <= x <= Domains.Max(d)
  {
    Domains.SingleIntervalValues(d[0].start, d[0].end);
    assert d == [d[0]];
  }

  /** Every value from `lo` to `hi` is in `d`. */
  predicate Covers(d: Domains.Domain, lo: int, hi: int)
  {
    forall x :: lo <= x <= hi ==> Domains.Contains(d, x)
  }

  // ---------------------------------------------------------------------
  // The branches

  /** The rewrite a branch of the rule chooses. */
  datatype BooleanRewrite =
    | NegativeReifiedAnd
    | PositiveReifiedAnd
    | PositiveClause
    | NegativeClause
    | PositiveAtMostOne
    | NegativeAtMostOne
    | SmallExpansion
    | TooLarge
    | AlwaysFalse

  /** The branch tests in their order, on the statistics `s` of the terms. */
  function Classify(s: CoefficientStats, d: Domains.Domain, enforced: bool, numVars: nat): BooleanRewrite
    requires |d| > 0
  {
    if s.minSum + s.minCoeff > Domains.Max(d) then NegativeReifiedAnd
    else if s.maxSum - s.minCoeff < Domains.Min(d) then PositiveReifiedAnd
    else if s.minSum + s.minCoeff >= Domains.Min(d) && d[0].end == kint64max then PositiveClause
    else if s.maxSum - s.minCoeff <= Domains.Max(d) && d[|d| - 1].start == kint64min then NegativeClause
    else if !enforced && s.minSum + s.maxCoeff <= Domains.Max(d) && s.minSum + 2 * s.minCoeff > Domains.Max(d) &&
      d[|d| - 1].start == kint64min then PositiveAtMostOne
    else if !enforced && s.maxSum - s.maxCoeff >= Domains.Min(d) && s.maxSum - 2 * s.minCoeff < Domains.Min(d) &&
      d[0].end == kint64max then NegativeAtMostOne
    else if numVars > 3 then TooLarge
    else SmallExpansion
  }

  /** The branch the rule takes as written, with `max_coeff` stuck at 0. */
  function RewriteAsWritten(arg: LinearArgument, enforced: bool): BooleanRewrite
    requires |arg.domain| > 0
  {
    Classify(StatsAsWritten(arg.coeffs), arg.domain, enforced, |arg.vars|)
  }

  /** No reachable sum is in `d`: the smallest is not and every other is above the domain, or the mirror case. */
  predicate NeverInDomain(s: CoefficientStats, d: Domains.Domain)
    requires |d| > 0
  {
    (!Domains.Contains(d, s.minSum) && s.minSum + s.minCoeff > Domains.Max(d)) ||
    (!Domains.Contains(d, s.maxSum) && s.maxSum - s.minCoeff < Domains.Min(d))
  }

  /** The branch of the corrected rule: `max_coeff` is a maximum, and a constraint no sum can meet is marked false first. */
  function Rewrite(arg: LinearArgument, enforced: bool): BooleanRewrite
    requires |arg.domain| > 0
  {
    var s := StatsOf(arg.coeffs);
    if NeverInDomain(s, arg.domain) then AlwaysFalse else Classify(s, arg.domain, enforced, |arg.vars|)
  }

  /** The body a branch puts in place of the linear one; the expansion removes the constraint and adds clauses instead. */
  function RewrittenBody(rule: BooleanRewrite, arg: LinearArgument): (b: Body)
    requires |arg.vars| == |arg.coeffs|
    ensures HasMeaning(b)
  {
    var lits := TermLiterals(arg.vars, arg.coeffs);
    match rule
    case NegativeReifiedAnd => BoolAnd(NegatedAll(lits))
    case PositiveReifiedAnd => BoolAnd(lits)
    case PositiveClause => BoolOr(lits)
    case NegativeClause => BoolOr(NegatedAll(lits))
    case PositiveAtMostOne => AtMostOne(lits)
    case NegativeAtMostOne => AtMostOne(NegatedAll(lits))
    case SmallExpansion => Empty
    case TooLarge => Linear(arg)
    case AlwaysFalse => BoolOr([])
  }

  /**
   * What the rule assumes of its constraint once `PresolveLinear` has run:
   * positive references and non-zero coefficients, a right-hand side and
   * reachable sums within 64 bits, and a right-hand side that misses some
   * reachable sum (one holding them all makes the constraint always true,
   * and it is removed before).
   */
  predicate BooleanLinear(arg: LinearArgument)
  {
    |arg.vars| == |arg.coeffs| && PositiveVars(arg.vars) &&
    (forall i :: 0 <= i < |arg.coeffs| ==> arg.coeffs[i] != 0) &&
    Within64(arg.domain) &&
    kint64min <= StatsOf(arg.coeffs).minSum && StatsOf(arg.coeffs).maxSum <= kint64max &&
    !Covers(arg.domain, StatsOf(arg.coeffs).minSum, StatsOf(arg.coeffs).maxSum)
  }

  /** What `k` literals of total weight `w` give: nothing for none, at least the smallest coefficient for one, twice it for two, at most the largest for one. */
  predicate WeightFacts(s: CoefficientStats, k: int, w: int)
  {
    0 <= w && (k == 0 ==> w == 0) && (k >= 1 ==> w >= s.minCoeff) && (k >= 2 ==> w >= 2 * s.minCoeff) && (k <= 1 ==> w <= s.maxCoeff)
  }

  /** The facts about one 0/1 assignment the branch tests rely on: `count` of the `n` term literals hold, of weight `weight`, and the others weigh `lost`. */
  predicate SumFacts(s: CoefficientStats, n: nat, ws: int, count: nat, weight: int, lost: int)
  {
    count <= n && ws == s.minSum + weight && ws == s.maxSum - lost &&
    WeightFacts(s, count, weight) && WeightFacts(s, n - count, lost) && 1 <= s.minCoeff && 0 <= s.maxCoeff
  }

  lemma ScaleAtLeast(a: int, n: int, k: int)
    requires 0 <= a && k <= n
    ensures a * k <= a * n
  {
  }

  lemma WeightFactsFromBounds(s: CoefficientStats, k: nat, w: int)
    requires 1 <= s.minCoeff && 0 <= s.maxCoeff && s.minCoeff * k <= w <= s.maxCoeff * k
    ensures WeightFacts(s, k, w)
  {
    ScaleAtLeast(s.minCoeff, k, 0);
    if k >= 2 {
      ScaleAtLeast(s.minCoeff, k, 2);
    } else if k == 1 {
      assert s.minCoeff * k == s.minCoeff && s.maxCoeff * k == s.maxCoeff;
    }
  }

  lemma SumFactsHold(arg: LinearArgument, values: Assignment)
    requires |arg.vars| == |arg.coeffs| && PositiveVars(arg.vars) && ZeroOne(values, arg.vars)
    requires forall i :: 0 <= i < |arg.coeffs| ==> arg.coeffs[i] != 0
    ensures var lits := TermLiterals(arg.vars, arg.coeffs);
      var count := CountHolding(values, lits);
      ZeroOne(values, lits) &&
      SumFacts(StatsOf(arg.coeffs), |lits|, WeightedSum(values, arg.vars, arg.coeffs), count,
        Weight(values, lits, arg.coeffs), Weight(values, NegatedAll(lits), arg.coeffs)) &&
      CountHolding(values, NegatedAll(lits)) == |lits| - count
  {
    var s, lits := StatsOf(arg.coeffs), TermLiterals(arg.vars, arg.coeffs);
    StatsBounds(arg.coeffs);
    SumSplit(values, arg.vars, arg.coeffs);
    TermLiteralsZeroOne(values, arg.vars, arg.coeffs);
    CountNegated(values, lits);
    CountBounds(values, lits);
    SideFacts(values, lits, arg.coeffs, s);
    SideFacts(values, NegatedAll(lits), arg.coeffs, s);
  }

  lemma TermLiteralsZeroOne(values: Assignment, vars: seq<int>, coeffs: seq<int>)
    requires |vars| == |coeffs| && ZeroOne(values, vars)
    ensures ZeroOne(values, TermLiterals(vars, coeffs))
  {
    var lits := TermLiterals(vars, coeffs);
    forall i | 0 <= i < |lits|
      ensures PositiveRef(lits[i]) < |values| && 0 <= values[PositiveRef(lits[i])] <= 1
    {
      NegatedRefIsInvolution(vars[i]);
    }
  }

  /** The weight facts for one side of the terms, from the bounds on every coefficient. */
  lemma SideFacts(values: Assignment, lits: seq<int>, coeffs: seq<int>, s: CoefficientStats)
    requires |lits| == |coeffs| && 1 <= s.minCoeff && 0 <= s.maxCoeff
    requires forall i :: 0 <= i < |coeffs| ==> s.minCoeff <= Abs(coeffs[i]) <= s.maxCoeff
    ensures WeightFacts(s, CountHolding(values, lits), Weight(values, lits, coeffs))
  {
    WeightBounds(values, lits, coeffs, s.minCoeff, s.maxCoeff);
    WeightFactsFromBounds(s, CountHolding(values, lits), Weight(values, lits, coeffs));
  }

  /** The reified-and tests: with the smallest sum in the domain, the constraint holds exactly when no term literal does. */
  lemma NegativeReifiedAndCase(s: CoefficientStats, d: Domains.Domain, n: nat, ws: int, count: nat, weight: int, lost: int)
    requires Domains.Valid(d) && |d| > 0 && SumFacts(s, n, ws, count, weight, lost)
    requires Domains.Contains(d, s.minSum) && s.minSum + s.minCoeff > Domains.Max(d)
    ensures Domains.Contains(d, ws) <==> count == 0
  {
    Domains.MinMaxAreExtremeValues(d);
  }

  lemma PositiveReifiedAndCase(s: CoefficientStats, d: Domains.Domain, n: nat, ws: int, count: nat, weight: int, lost: int)
    requires Domains.Valid(d) && |d| > 0 && SumFacts(s, n, ws, count, weight, lost)
    requires Domains.Contains(d, s.maxSum) && s.maxSum - s.minCoeff < Domains.Min(d)
    ensures Domains.Contains(d, ws) <==> count == n
  {
    Domains.MinMaxAreExtremeValues(d);
  }

  /** Both tests fail for every sum: the constraint never holds. */
  lemma NeverInDomainCase(s: CoefficientStats, d: Domains.Domain, n: nat, ws: int, count: nat, weight: int, lost: int)
    requires Domains.Valid(d) && |d| > 0 && SumFacts(s, n, ws, count, weight, lost) && NeverInDomain(s, d)
    ensures !Domains.Contains(d, ws)
  {
    Domains.MinMaxAreExtremeValues(d);
  }

  /** The clause tests: over a half-line domain that misses the smallest (largest) sum, the constraint holds exactly when some term literal holds (fails). */
  lemma PositiveClauseCase(s: CoefficientStats, d: Domains.Domain, n: nat, ws: int, count: nat, weight: int, lost: int)
    requires Within64(d) && SumFacts(s, n, ws, count, weight, lost) && s.maxSum <= kint64max
    requires !Covers(d, s.minSum, s.maxSum)
    requires s.minSum + s.minCoeff >= Domains.Min(d) && d[0].end == kint64max
    ensures Domains.Contains(d, ws) <==> count > 0
  {
    UpperUnbounded(d);
  }

  lemma NegativeClauseCase(s: CoefficientStats, d: Domains.Domain, n: nat, ws: int, count: nat, weight: int, lost: int)
    requires Within64(d) && SumFacts(s, n, ws, count, weight, lost) && kint64min <= s.minSum
    requires !Covers(d, s.minSum, s.maxSum)
    requires s.maxSum - s.minCoeff <= Domains.Max(d) && d[|d| - 1].start == kint64min
    ensures Domains.Contains(d, ws) <==> count < n
  {
    LowerUnbounded(d);
  }

  /** The at-most-one tests, with `maxCoeff` a true maximum: the constraint holds exactly when at most one term literal holds (fails). */
  lemma PositiveAtMostOneCase(s: CoefficientStats, d: Domains.Domain, n: nat, ws: int, count: nat, weight: int, lost: int)
    requires Within64(d) && SumFacts(s, n, ws, count, weight, lost) && kint64min <= s.minSum
    requires s.minSum + s.maxCoeff <= Domains.Max(d) && s.minSum + 2 * s.minCoeff > Domains.Max(d)
    requires d[|d| - 1].start == kint64min
    ensures Domains.Contains(d, ws) <==> count <= 1
  {
    LowerUnbounded(d);
  }

  lemma NegativeAtMostOneCase(s: CoefficientStats, d: Domains.Domain, n: nat, ws: int, count: nat, weight: int, lost: int)
    requires Within64(d) && SumFacts(s, n, ws, count, weight, lost) && s.maxSum <= kint64max
    requires s.maxSum - s.maxCoeff >= Domains.Min(d) && s.maxSum - 2 * s.minCoeff < Domains.Min(d)
    requires d[0].end == kint64max
    ensures Domains.Contains(d, ws) <==> n - count <= 1
  {
    UpperUnbounded(d);
  }

  /** What each single-constraint branch asks of the number `count` of the `n` term literals that hold. */
  predicate Expected(rule: BooleanRewrite, n: nat, count: nat)
  {
    match rule
    case NegativeReifiedAnd => count == 0
    case PositiveReifiedAnd => count == n
    case PositiveClause => count > 0
    case NegativeClause => count < n
    case PositiveAtMostOne => count <= 1
    case NegativeAtMostOne => n - count <= 1
    case AlwaysFalse => false
    case TooLarge => true
    case SmallExpansion => true
  }

  /** Each rewritten body holds exactly when the number of term literals that hold is what its branch expects. */
  lemma BodyByCount(values: Assignment, arg: LinearArgument, rule: BooleanRewrite)
    requires |arg.vars| == |arg.coeffs| && ZeroOne(values, TermLiterals(arg.vars, arg.coeffs))
    requires rule != SmallExpansion && rule != TooLarge
    ensures var lits := TermLiterals(arg.vars, arg.coeffs);
      BodyHolds(values, RewrittenBody(rule, arg)) == Expected(rule, |lits|, CountHolding(values, lits))
  {
    var lits := TermLiterals(arg.vars, arg.coeffs);
    CountBounds(values, lits);
    CountBounds(values, NegatedAll(lits));
    CountNegated(values, lits);
    if rule == AlwaysFalse {
      assert !SomeHolds(values, []);
    }
  }

  /** Under the corrected rule, the linear constraint holds exactly when the number of term literals that hold is what the branch expects. */
  lemma DomainByCount(arg: LinearArgument, enforced: bool, values: Assignment)
    requires BooleanLinear(arg) && ZeroOne(values, arg.vars)
    ensures var rule, lits := Rewrite(arg, enforced), TermLiterals(arg.vars, arg.coeffs);
      ZeroOne(values, lits) &&
      (rule != SmallExpansion && rule != TooLarge ==>
        Domains.Contains(arg.domain, WeightedSum(values, arg.vars, arg.coeffs)) == Expected(rule, |lits|, CountHolding(values, lits)))
  {
    var s, d, lits := StatsOf(arg.coeffs), arg.domain, TermLiterals(arg.vars, arg.coeffs);
    var n, ws, count := |lits|, WeightedSum(values, arg.vars, arg.coeffs), CountHolding(values, lits);
    SumFactsHold(arg, values);
    var weight, lost := Weight(values, lits, arg.coeffs), Weight(values, NegatedAll(lits), arg.coeffs);
    if NeverInDomain(s, d) {
      NeverInDomainCase(s, d, n, ws, count, weight, lost);
    } else {
      ClassifyByCount(s, d, enforced, |arg.vars|, n, ws, count, weight, lost);
    }
  }

  /** The branch tests, on sums: each single-constraint branch holds exactly the sums its expected count gives. */
  lemma ClassifyByCount(s: CoefficientStats, d: Domains.Domain, enforced: bool, numVars: nat, n: nat, ws: int, count: nat, weight: int, lost: int)
    requires Within64(d) && SumFacts(s, n, ws, count, weight, lost)
    requires kint64min <= s.minSum && s.maxSum <= kint64max && !Covers(d, s.minSum, s.maxSum) && !NeverInDomain(s, d)
    ensures var rule := Classify(s, d, enforced, numVars);
      rule != SmallExpansion && rule != TooLarge ==> Domains.Contains(d, ws) == Expected(rule, n, count)
  {
    var rule := Classify(s, d, enforced, numVars);
    if rule == NegativeReifiedAnd {
      NegativeReifiedAndCase(s, d, n, ws, count, weight, lost);
    } else if rule == PositiveReifiedAnd {
      PositiveReifiedAndCase(s, d, n, ws, count, weight, lost);
    } else if rule == PositiveClause {
      PositiveClauseCase(s, d, n, ws, count, weight, lost);
    } else if rule == NegativeClause {
      NegativeClauseCase(s, d, n, ws, count, weight, lost);
    } else if rule == PositiveAtMostOne {
      PositiveAtMostOneCase(s, d, n, ws, count, weight, lost);
    } else if rule == NegativeAtMostOne {
      NegativeAtMostOneCase(s, d, n, ws, count, weight, lost);
    }
  }

  /**
   * Every branch of the corrected rule except the expansion puts in place a
   * body that holds under exactly the 0/1 assignments under which the
   * linear constraint holds.
   */
  lemma RewriteMeaning(arg: LinearArgument, enforced: bool, values: Assignment)
    requires BooleanLinear(arg) && ZeroOne(values, arg.vars)
    ensures var rule := Rewrite(arg, enforced);
      rule != SmallExpansion ==> (BodyHolds(values, RewrittenBody(rule, arg)) <==> BodyHolds(values, Linear(arg)))
  {
    var rule := Rewrite(arg, enforced);
    DomainByCount(arg, enforced, values);
    if rule != SmallExpansion && rule != TooLarge {
      BodyByCount(values, arg, rule);
    }
  }

  // ---------------------------------------------------------------------
  // The rule as written, on two inputs

  /**
   * With `max_coeff` stuck at 0, `2 * x0 + 5 * x1 <= 3` passes the positive
   * at-most-one test and becomes `at_most_one(x0, x1)`, which admits
   * `x0 = 0, x1 = 1` although `5 > 3`. The corrected rule expands the
   * constraint into clauses instead.
   */
  lemma MaxCoeffAsWrittenAdmitsTooLargeTerm()
    ensures var arg := LinearArgument([0, 1], [2, 5], [Domains.ClosedInterval(kint64min, 3)]);
      BooleanLinear(arg) &&
      RewriteAsWritten(arg, false) == PositiveAtMostOne &&
      BodyHolds([0, 1], RewrittenBody(PositiveAtMostOne, arg)) && !BodyHolds([0, 1], Linear(arg)) &&
      Rewrite(arg, false) == SmallExpansion
  {
    var arg := LinearArgument([0, 1], [2, 5], [Domains.ClosedInterval(kint64min, 3)]);
    assert [2, 5][..1] == [2] && [2][..0] == [];
    assert StatsAsWritten([2, 5]) == CoefficientStats(2, 0, 0, 7);
    assert StatsOf([2, 5]) == CoefficientStats(2, 5, 0, 7);
    assert !Domains.Contains(arg.domain, 4);
    var lits := TermLiterals(arg.vars, arg.coeffs);
    assert lits == [0, 1] && lits[..1] == [0] && [0][..0] == [];
    assert CountHolding([0, 1], lits) == 1;
    assert [0, 1][..1] == [0] && [0][..0] == [];
    assert WeightedSum([0, 1], arg.vars, arg.coeffs) == 5;
  }

  /**
   * `2 * x0 + 3 * x1 == 1` has no 0/1 solution, but as written it passes the
   * negative reified-and test and becomes `bool_and(not x0, not x1)`, which
   * `x0 = x1 = 0` satisfies. The corrected rule marks it false.
   */
  lemma ReifiedAndAsWrittenDropsTheSum()
    ensures var arg := LinearArgument([0, 1], [2, 3], [Domains.ClosedInterval(1, 1)]);
      BooleanLinear(arg) &&
      RewriteAsWritten(arg, false) == NegativeReifiedAnd &&
      BodyHolds([0, 0], RewrittenBody(NegativeReifiedAnd, arg)) && !BodyHolds([0, 0], Linear(arg)) &&
      Rewrite(arg, false) == AlwaysFalse
  {
    var arg := LinearArgument([0, 1], [2, 3], [Domains.ClosedInterval(1, 1)]);
    assert [2, 3][..1] == [2] && [2][..0] == [];
    assert StatsAsWritten([2, 3]) == CoefficientStats(2, 0, 0, 5);
    assert StatsOf([2, 3]) == CoefficientStats(2, 3, 0, 5);
    assert !Domains.Contains(arg.domain, 0);
    var lits := NegatedAll(TermLiterals(arg.vars, arg.coeffs));
    assert lits == [-1, -2];
    assert LiteralHolds([0, 0], lits[0]) && LiteralHolds([0, 0], lits[1]);
    assert [0, 1][..1] == [0] && [0][..0] == [];
    assert WeightedSum([0, 0], arg.vars, arg.coeffs) == 0;
  }

  // ---------------------------------------------------------------------
  // The small expansion

  function Pow2(n: nat): (p: nat)
    ensures p >= 1
  {
    if n == 0 then 1 else 2 * Pow2(n - 1)
  }

  /** Bit `i` of `mask`, that is `(mask >> i) & 1`. */
  predicate Bit(mask: nat, i: nat)
  {
    if i == 0 then mask % 2 == 1 else Bit(mask / 2, i - 1)
  }

  /** The sum of the coefficients whose bit is set in `mask`: the weighted sum under the assignment `mask` stands for. */
  function MaskValue(coeffs: seq<int>, mask: nat): int
  {
    if |coeffs| == 0 then 0
    else MaskValue(coeffs[..|coeffs| - 1], mask) + (if Bit(mask, |coeffs| - 1) then coeffs[|coeffs| - 1] else 0)
  }

  /** The clause that fails exactly under the assignment `mask` stands for: the negation of a variable whose bit is set, the variable otherwise. */
  function MaskClause(vars: seq<int>, mask: nat): (lits: seq<int>)
    ensures |lits| == |vars|
    ensures forall i :: 0 <= i < |vars| ==> lits[i] == if Bit(mask, i) then NegatedRef(vars[i]) else vars[i]
  {
    seq(|vars|, i requires 0 <= i < |vars| => if Bit(mask, i) then NegatedRef(vars[i]) else vars[i])
  }

  /** Every constraint of `cts` has a meaning and holds. */
  predicate AllConstraintsHold(values: Assignment, cts: seq<Constraint>)
  {
    forall k :: 0 <= k < |cts| ==> HasMeaning(cts[k].body) && Holds(values, cts[k])
  }

  /** The mask of a 0/1 assignment of `vars`: bit `i` is the value of `vars[i]`. */
  function MaskOf(values: Assignment, vars: seq<int>): nat
    requires PositiveVars(vars) && ZeroOne(values, vars)
  {
    if |vars| == 0 then 0 else values[vars[0]] + 2 * MaskOf(values, vars[1..])
  }

  /** The mask of an assignment has one bit per variable, set exactly when the variable is 1. */
  lemma {:induction false} MaskOfBits(values: Assignment, vars: seq<int>)
    requires PositiveVars(vars) && ZeroOne(values, vars)
    ensures MaskOf(values, vars) < Pow2(|vars|)
    ensures forall i :: 0 <= i < |vars| ==> (Bit(MaskOf(values, vars), i) <==> values[vars[i]] == 1)
    decreases |vars|
  {
    if |vars| > 0 {
      var rest := vars[1..];
      MaskOfBits(values, rest);
      var m := MaskOf(values, vars);
      assert m % 2 == values[vars[0]] && m / 2 == MaskOf(values, rest);
      forall i | 1 <= i < |vars|
        ensures Bit(m, i) <==> values[vars[i]] == 1
      {
        assert rest[i - 1] == vars[i];
      }
    }
  }

  /** Two masks below `2^n` with the same `n` low bits are equal. */
  lemma {:induction false} BitsDetermineMask(a: nat, b: nat, n: nat)
    requires a < Pow2(n) && b < Pow2(n)
    requires forall i :: 0 <= i < n ==> Bit(a, i) == Bit(b, i)
    ensures a == b
    decreases n
  {
    if n > 0 {
      forall i | 0 <= i < n - 1
        ensures Bit(a / 2, i) == Bit(b / 2, i)
      {
        assert Bit(a, i + 1) == Bit(b, i + 1);
      }
      BitsDetermineMask(a / 2, b / 2, n - 1);
      assert Bit(a, 0) == Bit(b, 0);
    }
  }

  /** The clause of `mask` fails under a 0/1 assignment exactly when `mask` is the mask of that assignment. */
  lemma ClauseFailsOnlyUnderItsMask(values: Assignment, vars: seq<int>, mask: nat)
    requires PositiveVars(vars) && ZeroOne(values, vars) && mask < Pow2(|vars|)
    ensures !SomeHolds(values, MaskClause(vars, mask)) <==> mask == MaskOf(values, vars)
  {
    var clause, m := MaskClause(vars, mask), MaskOf(values, vars);
    MaskOfBits(values, vars);
    forall i | 0 <= i < |vars|
      ensures !LiteralHolds(values, clause[i]) <==> (Bit(mask, i) == Bit(m, i))
    {
      NegatedRefIsInvolution(vars[i]);
    }
    if !SomeHolds(values, clause) {
      BitsDetermineMask(mask, m, |vars|);
    }
  }

  /** The value of the mask of an assignment is the weighted sum under it. */
  lemma MaskValueOfAssignment(values: Assignment, vars: seq<int>, coeffs: seq<int>)
    requires |vars| == |coeffs| && PositiveVars(vars) && ZeroOne(values, vars)
    ensures MaskValue(coeffs, MaskOf(values, vars)) == WeightedSum(values, vars, coeffs)
  {
    MaskOfBits(values, vars);
    MaskValuePrefix(values, vars, coeffs, MaskOf(values, vars), |vars|);
    assert vars[..|vars|] == vars && coeffs[..|coeffs|] == coeffs;
  }

  lemma {:induction false} MaskValuePrefix(values: Assignment, vars: seq<int>, coeffs: seq<int>, m: nat, k: nat)
    requires |vars| == |coeffs| && PositiveVars(vars) && ZeroOne(values, vars) && k <= |vars|
    requires forall i :: 0 <= i < |vars| ==> (Bit(m, i) <==> values[vars[i]] == 1)
    ensures MaskValue(coeffs[..k], m) == WeightedSum(values, vars[..k], coeffs[..k])
    decreases k
  {
    if k > 0 {
      MaskValuePrefix(values, vars, coeffs, m, k - 1);
      assert coeffs[..k][..k - 1] == coeffs[..k - 1] && vars[..k][..k - 1] == vars[..k - 1];
      var v, c := vars[k - 1], coeffs[k - 1];
      assert PositiveRef(v) == v && RefValue(values, v) == values[v];
      if values[v] == 1 {
        assert c * values[v] == c;
      } else {
        assert c * values[v] == 0;
      }
    }
  }

  /** The masks below `m` whose value is outside the domain, in increasing order. */
  function BadMasks(domain: Domains.Domain, coeffs: seq<int>, m: nat): (masks: seq<nat>)
    ensures forall k :: 0 <= k < |masks| ==> masks[k] < m && !Domains.Contains(domain, MaskValue(coeffs, masks[k]))
    ensures forall k, l :: 0 <= k < l < |masks| ==> masks[k] < masks[l]
  {
    if m == 0 then []
    else if Domains.Contains(domain, MaskValue(coeffs, m - 1)) then BadMasks(domain, coeffs, m - 1)
    else BadMasks(domain, coeffs, m - 1) + [m - 1]
  }

  /** Every mask below `m` whose value is outside the domain is among the bad masks. */
  lemma {:induction false} BadMasksComplete(domain: Domains.Domain, coeffs: seq<int>, m: nat, mask: nat)
    requires mask < m && !Domains.Contains(domain, MaskValue(coeffs, mask))
    ensures mask in BadMasks(domain, coeffs, m)
    decreases m
  {
    if mask < m - 1 {
      BadMasksComplete(domain, coeffs, m - 1, mask);
    } else {
      assert BadMasks(domain, coeffs, m)[|BadMasks(domain, coeffs, m)| - 1] == mask;
    }
  }

  /** The clause added for a bad mask, under the enforcement of the constraint. */
  function MaskConstraint(enforcement: seq<int>, vars: seq<int>, mask: nat): (ct: Constraint)
    ensures ct.body.BoolOr? && |ct.body.literals| == |vars|
  {
    Constraint(enforcement, BoolOr(MaskClause(vars, mask)))
  }

  /** The clauses for a sequence of masks, in the same order. */
  function MaskConstraints(enforcement: seq<int>, vars: seq<int>, masks: seq<nat>): (cts: seq<Constraint>)
    ensures |cts| == |masks|
    ensures forall k :: 0 <= k < |masks| ==> cts[k] == MaskConstraint(enforcement, vars, masks[k])
  {
    seq(|masks|, k requires 0 <= k < |masks| => MaskConstraint(enforcement, vars, masks[k]))
  }

  /** The expansion of a constraint over 0/1 variables: one clause per assignment whose weighted sum is outside the domain. */
  function Expansion(enforcement: seq<int>, arg: LinearArgument): seq<Constraint>
  {
    MaskConstraints(enforcement, arg.vars, BadMasks(arg.domain, arg.coeffs, Pow2(|arg.vars|)))
  }

  /** Under a 0/1 assignment, the expansion holds exactly when the constraint it replaces does. */
  lemma ExpansionMeaning(values: Assignment, enforcement: seq<int>, arg: LinearArgument)
    requires |arg.vars| == |arg.coeffs| && PositiveVars(arg.vars) && ZeroOne(values, arg.vars)
    ensures AllConstraintsHold(values, Expansion(enforcement, arg)) <==> Holds(values, Constraint(enforcement, Linear(arg)))
  {
    var m := MaskOf(values, arg.vars);
    MaskOfBits(values, arg.vars);
    MaskValueOfAssignment(values, arg.vars, arg.coeffs);
    if AllHold(values, enforcement) && !Domains.Contains(arg.domain, MaskValue(arg.coeffs, m)) {
      BadMaskFails(values, enforcement, arg);
    } else {
      GoodMaskHolds(values, enforcement, arg);
    }
  }

  /** When the assignment's mask is bad and the enforcement holds, its clause is in the expansion and fails. */
  lemma BadMaskFails(values: Assignment, enforcement: seq<int>, arg: LinearArgument)
    requires |arg.vars| == |arg.coeffs| && PositiveVars(arg.vars) && ZeroOne(values, arg.vars)
    requires MaskOf(values, arg.vars) < Pow2(|arg.vars|)
    requires AllHold(values, enforcement) && !Domains.Contains(arg.domain, MaskValue(arg.coeffs, MaskOf(values, arg.vars)))
    ensures !AllConstraintsHold(values, Expansion(enforcement, arg))
  {
    var masks := BadMasks(arg.domain, arg.coeffs, Pow2(|arg.vars|));
    var m := MaskOf(values, arg.vars);
    BadMasksComplete(arg.domain, arg.coeffs, Pow2(|arg.vars|), m);
    var k :| 0 <= k < |masks| && masks[k] == m;
    ClauseFailsOnlyUnderItsMask(values, arg.vars, m);
    assert !Holds(values, Expansion(enforcement, arg)[k]);
  }

  /** When the assignment's mask is good or the enforcement fails, every clause of the expansion holds. */
  lemma GoodMaskHolds(values: Assignment, enforcement: seq<int>, arg: LinearArgument)
    requires |arg.vars| == |arg.coeffs| && PositiveVars(arg.vars) && ZeroOne(values, arg.vars)
    requires AllHold(values, enforcement) ==> Domains.Contains(arg.domain, MaskValue(arg.coeffs, MaskOf(values, arg.vars)))
    ensures AllConstraintsHold(values, Expansion(enforcement, arg))
  {
    var masks := BadMasks(arg.domain, arg.coeffs, Pow2(|arg.vars|));
    var cts := Expansion(enforcement, arg);
    forall k | 0 <= k < |cts|
      ensures HasMeaning(cts[k].body) && Holds(values, cts[k])
    {
      ClauseFailsOnlyUnderItsMask(values, arg.vars, masks[k]);
    }
  }

  /** Distinct masks below `2^n` give distinct clauses. */
  lemma MaskClauseInjective(vars: seq<int>, a: nat, b: nat)
    requires PositiveVars(vars) && a < Pow2(|vars|) && b < Pow2(|vars|)
    requires MaskClause(vars, a) == MaskClause(vars, b)
    ensures a == b
  {
    forall i | 0 <= i < |vars|
      ensures Bit(a, i) == Bit(b, i)
    {
      assert MaskClause(vars, a)[i] == MaskClause(vars, b)[i];
    }
    BitsDetermineMask(a, b, |vars|);
  }

  /**
   * The expansion holds the clause of an assignment exactly when the assignment's weighted sum is
   * outside the domain, and holds no clause twice.
   */
  lemma ExpansionClauses(enforcement: seq<int>, arg: LinearArgument, mask: nat)
    requires PositiveVars(arg.vars) && mask < Pow2(|arg.vars|)
    ensures MaskConstraint(enforcement, arg.vars, mask) in Expansion(enforcement, arg) <==>
      !Domains.Contains(arg.domain, MaskValue(arg.coeffs, mask))
    ensures forall k, l :: 0 <= k < l < |Expansion(enforcement, arg)| ==> Expansion(enforcement, arg)[k] != Expansion(enforcement, arg)[l]
  {
    var masks := BadMasks(arg.domain, arg.coeffs, Pow2(|arg.vars|));
    var cts := Expansion(enforcement, arg);
    if MaskConstraint(enforcement, arg.vars, mask) in cts {
      var k :| 0 <= k < |cts| && cts[k] == MaskConstraint(enforcement, arg.vars, mask);
      MaskClauseInjective(arg.vars, mask, masks[k]);
    }
    if !Domains.Contains(arg.domain, MaskValue(arg.coeffs, mask)) {
      BadMasksComplete(arg.domain, arg.coeffs, Pow2(|arg.vars|), mask);
      var k :| 0 <= k < |masks| && masks[k] == mask;
      assert cts[k] == MaskConstraint(enforcement, arg.vars, mask);
    }
    forall k, l | 0 <= k < l < |cts|
      ensures cts[k] != cts[l]
    {
      if cts[k] == cts[l] {
        assert MaskClause(arg.vars, masks[k]) == cts[k].body.literals;
        MaskClauseInjective(arg.vars, masks[k], masks[l]);
      }
    }
  }

  /** The expansion as the source writes it: every mask in increasing order, its value summed bit by bit, and a clause for each bad one. */
  method ExpandSmall(enforcement: seq<int>, arg: LinearArgument) returns (added: seq<Constraint>)
    requires |arg.vars| == |arg.coeffs|
    ensures added == Expansion(enforcement, arg)
  {
    var n := |arg.vars|;
    var maxMask := Pow2(n);
    added := [];
    var mask := 0;
    while mask < maxMask
      invariant mask <= maxMask
      invariant added == MaskConstraints(enforcement, arg.vars, BadMasks(arg.domain, arg.coeffs, mask))
    {
      var value := 0;
      var i := 0;
      while i < n
        invariant i <= n
        invariant value == MaskValue(arg.coeffs[..i], mask)
      {
        assert arg.coeffs[..i + 1][..i] == arg.coeffs[..i];
        if Bit(mask, i) {
          value := value + arg.coeffs[i];
        }
        i := i + 1;
      }
      assert arg.coeffs[..n] == arg.coeffs;
      if !Domains.Contains(arg.domain, value) {
        var lits := [];
        i := 0;
        while i < n
          invariant i <= n
          invariant lits == MaskClause(arg.vars[..i], mask)
        {
          lits := lits + [if Bit(mask, i) then NegatedRef(arg.vars[i]) else arg.vars[i]];
          i := i + 1;
        }
        assert arg.vars[..n] == arg.vars;
        MaskConstraintsPush(enforcement, arg.vars, BadMasks(arg.domain, arg.coeffs, mask), mask);
        added := added + [Constraint(enforcement, BoolOr(lits))];
      }
      mask := mask + 1;
    }
  }

  lemma MaskConstraintsPush(enforcement: seq<int>, vars: seq<int>, masks: seq<nat>, mask: nat)
    ensures MaskConstraints(enforcement, vars, masks + [mask]) ==
      MaskConstraints(enforcement, vars, masks) + [MaskConstraint(enforcement, vars, mask)]
  {
  }

  // ---------------------------------------------------------------------
  // The rule

  /** Every variable of `vars` has `0` as smallest and `1` as largest value in `ctx`. */
  predicate BooleanVars(ctx: Context, vars: seq<int>)
    reads ctx`domains
    requires forall i :: 0 <= i < |vars| ==> ctx.HasValues(vars[i])
  {
    forall i :: 0 <= i < |vars| ==> ctx.MinOf(vars[i]) == 0 && ctx.MaxOf(vars[i]) == 1
  }

  /**
   * The loop over the terms: it stops at the first variable that is not 0/1, and otherwise
   * gathers the statistics, the largest coefficient kept by `std::max`.
   */
  method ScanBooleanTerms(ctx: Context, arg: LinearArgument) returns (boolean: bool, s: CoefficientStats)
    requires |arg.vars| == |arg.coeffs| && PositiveVars(arg.vars)
    requires forall i :: 0 <= i < |arg.vars| ==> ctx.HasValues(arg.vars[i])
    ensures boolean <==> BooleanVars(ctx, arg.vars)
    ensures boolean ==> s == StatsOf(arg.coeffs)
  {
    s := CoefficientStats(kint64max, 0, 0, 0);
    var i := 0;
    while i < |arg.vars|
      invariant i <= |arg.vars|
      invariant forall j :: 0 <= j < i ==> ctx.MinOf(arg.vars[j]) == 0 && ctx.MaxOf(arg.vars[j]) == 1
      invariant s == StatsOf(arg.coeffs[..i])
    {
      var v, c := arg.vars[i], arg.coeffs[i];
      if ctx.MinOf(v) != 0 || ctx.MaxOf(v) != 1 {
        return false, s;
      }
      assert arg.coeffs[..i + 1][..i] == arg.coeffs[..i];
      if c > 0 {
        s := CoefficientStats(if c < s.minCoeff then c else s.minCoeff, if c > s.maxCoeff then c else s.maxCoeff, s.minSum, s.maxSum + c);
      } else {
        s := CoefficientStats(if -c < s.minCoeff then -c else s.minCoeff, if -c > s.maxCoeff then -c else s.maxCoeff, s.minSum + c, s.maxSum);
      }
      i := i + 1;
    }
    assert arg.coeffs[..i] == arg.coeffs;
    return true, s;
  }

  /** Under every assignment within `domains`, `r` together with the constraints of `added` holds exactly when `ct` does. */
  ghost predicate SameMeaningWith(domains: seq<Domains.Domain>, ct: Constraint, r: Constraint, added: seq<Constraint>)
    requires HasMeaning(ct.body) && HasMeaning(r.body)
  {
    forall values :: Satisfies(values, domains) ==> (Holds(values, r) && AllConstraintsHold(values, added) <==> Holds(values, ct))
  }

  /** The variables of a Boolean linear constraint and its term literals are Boolean references. */
  lemma BooleanVarsAreBoolean(ctx: Context, arg: LinearArgument)
    requires ctx.Valid() && |arg.vars| == |arg.coeffs| && PositiveVars(arg.vars)
    requires forall i :: 0 <= i < |arg.vars| ==> ctx.HasValues(arg.vars[i])
    requires BooleanVars(ctx, arg.vars)
    ensures ctx.AllBoolean(arg.vars)
    ensures ctx.AllBoolean(TermLiterals(arg.vars, arg.coeffs)) && ctx.AllBoolean(NegatedAll(TermLiterals(arg.vars, arg.coeffs)))
  {
    var lits := TermLiterals(arg.vars, arg.coeffs);
    forall i | 0 <= i < |arg.vars|
      ensures ctx.IsBooleanRef(arg.vars[i]) && ctx.IsBooleanRef(lits[i])
    {
      NegatedRefIsInvolution(arg.vars[i]);
    }
    NegatedAllBoolean(ctx, lits);
  }

  /** An assignment within Boolean domains gives the variables 0 or 1. */
  lemma SatisfiesZeroOne(values: Assignment, domains: seq<Domains.Domain>, vars: seq<int>)
    requires Satisfies(values, domains)
    requires forall i :: 0 <= i < |vars| ==> PositiveRef(vars[i]) < |domains| && BooleanDomain(domains[PositiveRef(vars[i])])
    ensures ZeroOne(values, vars)
  {
    forall i | 0 <= i < |vars|
      ensures 0 <= values[PositiveRef(vars[i])] <= 1
    {
      Domains.MinMaxAreExtremeValues(domains[PositiveRef(vars[i])]);
    }
  }

  /** A rewrite that keeps the meaning of the body, followed by a step that keeps the meaning of the rewritten constraint, keeps the meaning of the linear one. */
  lemma RewriteKeepsMeaning(domains: seq<Domains.Domain>, ct: Constraint, rule: BooleanRewrite, r: Constraint)
    requires ct.body.Linear? && BooleanLinear(ct.body.linear) && rule == Rewrite(ct.body.linear, ct.enforcement != []) && rule != SmallExpansion
    requires forall i :: 0 <= i < |ct.body.linear.vars| ==> ct.body.linear.vars[i] < |domains| && BooleanDomain(domains[ct.body.linear.vars[i]])
    requires HasMeaning(r.body) && SameMeaning(domains, Constraint(ct.enforcement, RewrittenBody(rule, ct.body.linear)), r)
    ensures SameMeaningWith(domains, ct, r, [])
  {
    var arg := ct.body.linear;
    forall values | Satisfies(values, domains)
      ensures Holds(values, r) && AllConstraintsHold(values, []) <==> Holds(values, ct)
    {
      SatisfiesZeroOne(values, domains, arg.vars);
      RewriteMeaning(arg, ct.enforcement != [], values);
    }
  }

  /** The expansion holds, with the constraint removed, exactly when the constraint did. */
  lemma ExpansionKeepsMeaning(domains: seq<Domains.Domain>, ct: Constraint)
    requires ct.body.Linear? && |ct.body.linear.vars| == |ct.body.linear.coeffs| && PositiveVars(ct.body.linear.vars)
    requires forall i :: 0 <= i < |ct.body.linear.vars| ==> ct.body.linear.vars[i] < |domains| && BooleanDomain(domains[ct.body.linear.vars[i]])
    ensures SameMeaningWith(domains, ct, Cleared, Expansion(ct.enforcement, ct.body.linear))
  {
    forall values | Satisfies(values, domains)
      ensures AllConstraintsHold(values, Expansion(ct.enforcement, ct.body.linear)) <==> Holds(values, ct)
    {
      SatisfiesZeroOne(values, domains, ct.body.linear.vars);
      ExpansionMeaning(values, ct.enforcement, ct.body.linear);
    }
  }

  /**
   * A linear constraint over 0/1 variables becomes a bool_and, a bool_or or an at_most_one when
   * the statistics of its coefficients allow it, and a constraint over at most three variables is
   * replaced by one clause per assignment it forbids (`added`, appended to the model). Before the
   * branches, a constraint no reachable sum satisfies is marked false.
   */
  method PresolveLinearOnBooleans(ct: Constraint, ctx: Context, isAffine: bool) returns (changed: bool, r: Constraint, added: seq<Constraint>)
    requires ct.body.Linear? && |ct.body.linear.vars| == |ct.body.linear.coeffs| && PositiveVars(ct.body.linear.vars)
    requires forall i :: 0 <= i < |ct.body.linear.coeffs| ==> ct.body.linear.coeffs[i] != 0
    requires forall i :: 0 <= i < |ct.body.linear.vars| ==> ctx.HasValues(ct.body.linear.vars[i])
    requires |ct.body.linear.domain| > 0
    requires ctx.Valid() && ctx.AllBoolean(ct.enforcement)
    modifies ctx`domains, ctx`modifiedDomains, ctx`isUnsat, ctx`constraints
    ensures ctx.Valid() && KeepsBoolean(old(ctx.domains), ctx.domains) && Shrinks(old(ctx.domains), ctx.domains)
    ensures old(ctx.isUnsat) ==> ctx.isUnsat
    ensures ctx.constraints == old(ctx.constraints) + added && HasMeaning(r.body)
    ensures var arg := ct.body.linear;
      (isAffine || !old(BooleanVars(ctx, arg.vars)) || Rewrite(arg, ct.enforcement != []) == TooLarge) ==>
        !changed && r == ct && added == [] && ctx.domains == old(ctx.domains) && ctx.isUnsat == old(ctx.isUnsat)
    ensures var arg, rule := ct.body.linear, Rewrite(ct.body.linear, ct.enforcement != []);
      !isAffine && old(BooleanVars(ctx, arg.vars)) && rule != TooLarge ==>
        (rule == SmallExpansion ==> changed && r == Cleared && added == Expansion(ct.enforcement, arg) && ctx.domains == old(ctx.domains) && ctx.isUnsat == old(ctx.isUnsat)) &&
        (rule.PositiveAtMostOne? || rule.NegativeAtMostOne? ==>
          changed && r == Constraint(ct.enforcement, RewrittenBody(rule, arg)) && ctx.domains == old(ctx.domains) && ctx.isUnsat == old(ctx.isUnsat)) &&
        (rule != SmallExpansion ==> added == [])
    ensures !ctx.isUnsat && BooleanLinear(ct.body.linear) ==> SameMeaningWith(ctx.domains, ct, r, added)
  {
    var arg := ct.body.linear;
    added := [];
    if isAffine {
      return false, ct, added;
    }
    var boolean, s := ScanBooleanTerms(ctx, arg);
    if !boolean {
      return false, ct, added;
    }
    var enforced := ct.enforcement != [];
    var rule := if NeverInDomain(s, arg.domain) then AlwaysFalse else Classify(s, arg.domain, enforced, |arg.vars|);
    assert rule == Rewrite(arg, enforced);
    BooleanVarsAreBoolean(ctx, arg);
    ghost var before := ctx.domains;
    if rule == TooLarge {
      return false, ct, added;
    } else if rule == SmallExpansion {
      added := ExpandSmall(ct.enforcement, arg);
      ctx.constraints := ctx.constraints + added;
      changed, r := true, Cleared;
    } else if rule.PositiveAtMostOne? || rule.NegativeAtMostOne? {
      changed, r := true, Constraint(ct.enforcement, RewrittenBody(rule, arg));
    } else {
      changed, r := ApplyBooleanRewrite(ct, ctx, rule);
    }
    if !ctx.isUnsat && BooleanLinear(arg) {
      LinearOnBooleansMeaning(before, ctx.domains, ct, rule, r, added);
    }
  }

  /** Whichever branch ran, the result and the added clauses mean what the linear constraint meant. */
  lemma LinearOnBooleansMeaning(before: seq<Domains.Domain>, after: seq<Domains.Domain>, ct: Constraint, rule: BooleanRewrite, r: Constraint, added: seq<Constraint>)
    requires ct.body.Linear? && BooleanLinear(ct.body.linear) && rule == Rewrite(ct.body.linear, ct.enforcement != []) && rule != TooLarge
    requires KeepsBoolean(before, after) && HasMeaning(r.body)
    requires forall i :: 0 <= i < |ct.body.linear.vars| ==>
      PositiveRef(ct.body.linear.vars[i]) < |before| && BooleanDomain(before[PositiveRef(ct.body.linear.vars[i])])
    requires rule == SmallExpansion ==> r == Cleared && added == Expansion(ct.enforcement, ct.body.linear)
    requires rule != SmallExpansion ==> added == [] && SameMeaning(after, Constraint(ct.enforcement, RewrittenBody(rule, ct.body.linear)), r)
    ensures SameMeaningWith(after, ct, r, added)
  {
    var vars := ct.body.linear.vars;
    forall i | 0 <= i < |vars|
      ensures vars[i] < |after| && BooleanDomain(after[vars[i]])
    {
      assert BooleanDomain(before[PositiveRef(vars[i])]);
    }
    if rule == SmallExpansion {
      ExpansionKeepsMeaning(after, ct);
    } else {
      RewriteKeepsMeaning(after, ct, rule, r);
    }
  }

  /** The branches that hand the rewritten constraint to the bool_and or bool_or presolve, or mark it false. */
  method ApplyBooleanRewrite(ct: Constraint, ctx: Context, rule: BooleanRewrite) returns (changed: bool, r: Constraint)
    requires ct.body.Linear? && |ct.body.linear.vars| == |ct.body.linear.coeffs|
    requires rule.NegativeReifiedAnd? || rule.PositiveReifiedAnd? || rule.PositiveClause? || rule.NegativeClause? || rule.AlwaysFalse?
    requires ctx.Valid() && ctx.AllBoolean(ct.enforcement)
    requires var lits := TermLiterals(ct.body.linear.vars, ct.body.linear.coeffs); ctx.AllBoolean(lits) && ctx.AllBoolean(NegatedAll(lits))
    modifies ctx`domains, ctx`modifiedDomains, ctx`isUnsat
    ensures ctx.Valid() && KeepsBoolean(old(ctx.domains), ctx.domains) && Shrinks(old(ctx.domains), ctx.domains)
    ensures old(ctx.isUnsat) ==> ctx.isUnsat
    ensures HasMeaning(r.body) && (!ctx.isUnsat ==> SameMeaning(ctx.domains, Constraint(ct.enforcement, RewrittenBody(rule, ct.body.linear)), r))
  {
    var rewritten := Constraint(ct.enforcement, RewrittenBody(rule, ct.body.linear));
    if rule.AlwaysFalse? {
      changed, r := MarkConstraintAsFalse(ct, ctx);
    } else if rewritten.body.BoolAnd? {
      ghost var stopped;
      changed, r, stopped := PresolveBoolAnd(rewritten, ctx);
    } else {
      changed, r := PresolveBoolOr(rewritten, ctx);
    }
  }
}
