/**
 * Integer domains as the solver stores them: a sorted list of disjoint,
 * non-adjacent closed intervals. The list is canonical, so two valid
 * lists hold the same values exactly when they are equal.
 */
module Domains {

  import opened IntegerTypes

  datatype ClosedInterval = ClosedInterval(start: int, end: int)

  type Domain = seq<ClosedInterval>

  /** Every interval is non-empty, and intervals are sorted with a gap of at least one value between them. */
  predicate Valid(d: Domain)
  {
    (forall i :: 0 <= i < |d| ==> d[i].start <= d[i].end) &&
    (forall i, j :: 0 <= i < j < |d| ==> d[i].end + 1 < d[j].start)
  }

  predicate Contains(d: Domain, v: int)
  {
    exists i :: 0 <= i < |d| && d[i].start <= v <= d[i].end
  }

  /** The domain holding the values `lb..ub`. */
  function FromInterval(lb: int, ub: int): (d: Domain)
    requires lb <= ub
    ensures Valid(d)
    ensures forall v :: Contains(d, v) <==> lb <= v <= ub
  {
    SingleIntervalValues(lb, ub);
    [ClosedInterval(lb, ub)]
  }

  lemma SingleIntervalValues(lo: int, hi: int)
    ensures forall v :: Contains([ClosedInterval(lo, hi)], v) <==> lo <= v <= hi
  {
    var d := [ClosedInterval(lo, hi)];
    forall v | lo <= v <= hi
      ensures Contains(d, v)
    {
      assert d[0].start <= v <= d[0].end;
    }
  }

  /** Splitting off the first interval. */
  lemma SplitFirst(d: Domain)
    requires Valid(d) && |d| > 0
    ensures Valid(d[1..])
    ensures forall v :: Contains(d, v) <==> d[0].start <= v <= d[0].end || Contains(d[1..], v)
    ensures forall v :: Contains(d[1..], v) ==> d[0].end + 1 < v
  {
    forall v | Contains(d, v) && !(d[0].start <= v <= d[0].end)
      ensures Contains(d[1..], v)
    {
      var i :| 0 <= i < |d| && d[i].start <= v <= d[i].end;
      assert d[1..][i - 1] == d[i];
    }
    forall v | Contains(d[1..], v)
      ensures Contains(d, v) && d[0].end + 1 < v
    {
      var i :| 0 <= i < |d[1..]| && d[1..][i].start <= v <= d[1..][i].end;
      assert d[i + 1] == d[1..][i];
    }
  }

  function Min(d: Domain): int
    requires |d| > 0
  {
    d[0].start
  }

  function Max(d: Domain): int
    requires |d| > 0
  {
    d[|d| - 1].end
  }

  /** The first and last bounds are values of the domain, and every value lies between them. */
  lemma MinMaxAreExtremeValues(d: Domain)
    requires Valid(d) && |d| > 0
    ensures Contains(d, Min(d)) && Contains(d, Max(d))
    ensures forall v :: Contains(d, v) ==> Min(d) <= v <= Max(d)
  {
    forall v | Contains(d, v)
      ensures Min(d) <= v <= Max(d)
    {
      var i :| 0 <= i < |d| && d[i].start <= v <= d[i].end;
      if i > 0 {
        assert d[0].end + 1 < d[i].start;
      }
      if i < |d| - 1 {
        assert d[i].end + 1 < d[|d| - 1].start;
      }
    }
  }

  /** A value above interval `k`'s end and below interval `k + 1`'s start is not in the domain. */
  lemma GapHasNoValue(d: Domain, k: int, v: int)
    requires Valid(d) && -1 <= k < |d|
    requires k >= 0 ==> d[k].end < v
    requires k + 1 < |d| ==> v < d[k + 1].start
    ensures !Contains(d, v)
  {

  }

  /** The values `lo..hi`. */
  ghost function Range(lo: int, hi: int): (s: set<int>)
    ensures forall v :: v in s <==> lo <= v <= hi
    decreases hi - lo
  {
    if lo > hi then {} else {lo} + Range(lo + 1, hi)
  }

  /** The finite set of values of a domain. */
  ghost function Values(d: Domain): (s: set<int>)
    ensures forall v :: v in s <==> Contains(d, v)
  {
    if |d| == 0 then {}
    else
      var rest := Values(d[1..]);
      assert forall v :: Contains(d, v) <==> (d[0].start <= v <= d[0].end || Contains(d[1..], v)) by {
        forall v | Contains(d, v) && !(d[0].start <= v <= d[0].end)
          ensures Contains(d[1..], v)
        {
          var i :| 0 <= i < |d| && d[i].start <= v <= d[i].end;
          assert d[1..][i - 1] == d[i];
        }
        forall v | Contains(d[1..], v)
          ensures Contains(d, v)
        {
          var i :| 0 <= i < |d[1..]| && d[1..][i].start <= v <= d[1..][i].end;
          assert d[i + 1] == d[1..][i];
        }
      }
      Range(d[0].start, d[0].end) + rest
  }

  // ---------------------------------------------------------------------
  // Negation

  /** The domain of `-x` when `x` ranges over `d`. */
  function Negation(d: Domain): (n: Domain)
    ensures |n| == |d|
  {
    seq(|d|, i requires 0 <= i < |d| => ClosedInterval(-d[|d| - 1 - i].end, -d[|d| - 1 - i].start))
  }

  lemma NegationIsValidMirror(d: Domain)
    requires Valid(d)
    ensures Valid(Negation(d))
    ensures forall v :: Contains(Negation(d), v) <==> Contains(d, -v)
    ensures Negation(Negation(d)) == d
    ensures |d| > 0 ==> Min(Negation(d)) == -Max(d) && Max(Negation(d)) == -Min(d)
  {
    NegationIsValid(d);
    NegationValues(d);
    NegationIsInvolution(d);
  }

  /** The negation of a domain within the value range is within it too. */
  lemma NegationWithin(d: Domain)
    requires ValidWithin(d, kMinIntegerValue, kMaxIntegerValue)
    ensures ValidWithin(Negation(d), kMinIntegerValue, kMaxIntegerValue)
  {
    NegationIsValidMirror(d);
    forall i | 0 <= i < |d|
      ensures kMinIntegerValue <= Negation(d)[i].start && Negation(d)[i].end <= kMaxIntegerValue
    {
      assert Negation(d)[i] == ClosedInterval(-d[|d| - 1 - i].end, -d[|d| - 1 - i].start);
    }
  }

  lemma NegationIsValid(d: Domain)
    requires Valid(d)
    ensures Valid(Negation(d))
  {
    var n := Negation(d);
    forall i, j | 0 <= i < j < |n|
      ensures n[i].end + 1 < n[j].start
    {
      assert d[|d| - 1 - j].end + 1 < d[|d| - 1 - i].start;
    }
  }

  lemma NegationValues(d: Domain)
    ensures forall v :: Contains(Negation(d), v) <==> Contains(d, -v)
  {
    var n := Negation(d);
    forall v | Contains(n, v)
      ensures Contains(d, -v)
    {
      var i :| 0 <= i < |n| && n[i].start <= v <= n[i].end;
      assert d[|d| - 1 - i].start <= -v <= d[|d| - 1 - i].end;
    }
    forall v | Contains(d, -v)
      ensures Contains(n, v)
    {
      var i :| 0 <= i < |d| && d[i].start <= -v <= d[i].end;
      assert n[|d| - 1 - i].start <= v <= n[|d| - 1 - i].end;
    }
  }

  lemma NegationIsInvolution(d: Domain)
    ensures Negation(Negation(d)) == d
  {
    var n := Negation(Negation(d));
    assert forall i :: 0 <= i < |d| ==> n[i] == d[i];
  }

  // ---------------------------------------------------------------------
  // Intersection

  /** `d` is valid and all its values lie in `lo..hi`. */
  predicate ValidWithin(d: Domain, lo: int, hi: int)
  {
    Valid(d) && forall i :: 0 <= i < |d| ==> lo <= d[i].start && d[i].end <= hi
  }

  lemma ConcatValid(p: Domain, q: Domain, plo: int, phi: int, qlo: int, qhi: int)
    requires ValidWithin(p, plo, phi) && ValidWithin(q, qlo, qhi) && phi + 1 < qlo
    requires plo <= qlo && phi <= qhi
    ensures ValidWithin(p + q, plo, qhi)
    ensures forall v :: Contains(p + q, v) <==> Contains(p, v) || Contains(q, v)
  {
    ConcatIsValidWithin(p, q, plo, phi, qlo, qhi);
    ConcatValues(p, q);
  }

  lemma ConcatIsValidWithin(p: Domain, q: Domain, plo: int, phi: int, qlo: int, qhi: int)
    requires ValidWithin(p, plo, phi) && ValidWithin(q, qlo, qhi) && phi + 1 < qlo
    requires plo <= qlo && phi <= qhi
    ensures ValidWithin(p + q, plo, qhi)
  {
    var r := p + q;
    forall i, j | 0 <= i < j < |r|
      ensures r[i].end + 1 < r[j].start
    {
      if j < |p| {
      } else if i >= |p| {
        assert r[i] == q[i - |p|] && r[j] == q[j - |p|];
      } else {
        assert r[i] == p[i] && r[j] == q[j - |p|];
      }
    }
  }

  lemma ConcatValues(p: Domain, q: Domain)
    ensures forall v :: Contains(p + q, v) <==> Contains(p, v) || Contains(q, v)
  {
    var r := p + q;
    forall v | Contains(r, v)
      ensures Contains(p, v) || Contains(q, v)
    {
      var i :| 0 <= i < |r| && r[i].start <= v <= r[i].end;
      if i >= |p| {
        assert r[i] == q[i - |p|];
      }
    }
    forall v | Contains(q, v)
      ensures Contains(r, v)
    {
      var i :| 0 <= i < |q| && q[i].start <= v <= q[i].end;
      assert r[i + |p|] == q[i];
    }
    forall v | Contains(p, v)
      ensures Contains(r, v)
    {
      var i :| 0 <= i < |p| && p[i].start <= v <= p[i].end;
      assert r[i] == p[i];
    }
  }

  /** The part of interval `x` inside interval `y`, as a domain of zero or one interval. */
  function Clip(x: ClosedInterval, y: ClosedInterval): (d: Domain)
    requires x.start <= x.end && y.start <= y.end
    ensures ValidWithin(d, y.start, y.end)
    ensures forall v :: Contains(d, v) <==> x.start <= v <= x.end && y.start <= v <= y.end
  {
    var lo := if x.start < y.start then y.start else x.start;
    var hi := if x.end < y.end then x.end else y.end;
    SingleIntervalValues(lo, hi);
    if lo <= hi then [ClosedInterval(lo, hi)] else []
  }

  /** The part of interval `x` inside the domain `b`. */
  function ClipAll(x: ClosedInterval, b: Domain): (d: Domain)
    requires x.start <= x.end && Valid(b) && |b| > 0
    ensures ValidWithin(d, b[0].start, Max(b))
    ensures ValidWithin(d, x.start, x.end)
    ensures forall v :: Contains(d, v) <==> x.start <= v <= x.end && Contains(b, v)
    decreases |b|
  {
    var head := Clip(x, b[0]);
    if |b| == 1 then
      head
    else
      var tail := ClipAll(x, b[1..]);
      ConcatValid(head, tail, b[0].start, b[0].end, b[1].start, Max(b));
      SplitFirst(b);
      head + tail
  }

  /** Values of a concatenation, regardless of order. */
  lemma ConcatValuesAux(p: Domain, q: Domain)
    ensures Values(p + q) == Values(p) + Values(q)
  {
    ConcatValues(p, q);
  }

  /** The values common to `a` and `b`, as a valid domain. */
  function IntersectionWith(a: Domain, b: Domain): (d: Domain)
    requires Valid(a) && Valid(b)
    ensures Valid(d)
    ensures forall v :: Contains(d, v) <==> Contains(a, v) && Contains(b, v)
    ensures |a| > 0 ==> ValidWithin(d, a[0].start, Max(a))
    decreases |a|
  {
    if |a| == 0 || |b| == 0 then
      []
    else
      var head := ClipAll(a[0], b);
      SplitFirst(a);
      if |a| == 1 then
        head
      else
        var tail := IntersectionWith(a[1..], b);
        ConcatValid(head, tail, a[0].start, a[0].end, a[1].start, Max(a));
        head + tail
  }

  /** Every value of `a` is a value of `b`: intersecting `a` with `b` gives `a` back. */
  function IsIncludedIn(a: Domain, b: Domain): (r: bool)
    requires Valid(a) && Valid(b)
    ensures r <==> forall v :: Contains(a, v) ==> Contains(b, v)
  {
    var common := IntersectionWith(a, b);
    if common == a then true
    else
      assert !(forall v :: Contains(a, v) ==> Contains(b, v)) by {
        if forall v :: Contains(a, v) ==> Contains(b, v) {
          CanonicalRepresentation(common, a);
        }
      }
      false
  }

  // ---------------------------------------------------------------------
  // Canonical form

  /** Two valid domains with the same values are the same list of intervals. */
  lemma {:induction false} CanonicalRepresentation(a: Domain, b: Domain)
    requires Valid(a) && Valid(b)
    requires forall v :: Contains(a, v) <==> Contains(b, v)
    ensures a == b
    decreases |a| + |b|
  {
    if |a| == 0 || |b| == 0 {
      if |a| > 0 {
        assert a[0].start <= a[0].start <= a[0].end;
        assert Contains(a, a[0].start);
      }
      if |b| > 0 {
        assert b[0].start <= b[0].start <= b[0].end;
        assert Contains(b, b[0].start);
      }
    } else {
      SameFirstInterval(a, b);
      SplitFirst(a);
      SplitFirst(b);
      CanonicalRepresentation(a[1..], b[1..]);
      assert a == [a[0]] + a[1..] && b == [b[0]] + b[1..];
    }
  }

  lemma SameFirstInterval(a: Domain, b: Domain)
    requires Valid(a) && Valid(b) && |a| > 0 && |b| > 0
    requires forall v :: Contains(a, v) <==> Contains(b, v)
    ensures a[0] == b[0]
  {
    FirstEndNotBelow(a, b);
    FirstEndNotBelow(b, a);
  }

  lemma FirstEndNotBelow(a: Domain, b: Domain)
    requires Valid(a) && Valid(b) && |a| > 0 && |b| > 0
    requires forall v :: Contains(a, v) <==> Contains(b, v)
    ensures a[0].start == b[0].start && b[0].end <= a[0].end
  {
    MinMaxAreExtremeValues(a);
    MinMaxAreExtremeValues(b);
    assert a[0].start == b[0].start;
    var x := if a[0].end < b[0].end then a[0].end + 1 else b[0].end;
    assert b[0].start <= x <= b[0].end;
    assert Contains(b, x);
    var i :| 0 <= i < |a| && a[i].start <= x <= a[i].end;
    assert i == 0;
  }

  lemma StrictSubsetIsSmaller(x: set<int>, y: set<int>)
    requires x <= y && x != y
    ensures |x| < |y|
  {
    assert (forall v :: v in y ==> v in x) ==> y <= x;
    var v :| v in y && v !in x;
    assert x + (y - x) == y;
    assert x * (y - x) == {};
    assert v in y - x;
  }

  /** Intersecting can only remove values; when it changes the list, it removes at least one value. */
  lemma IntersectionShrinks(a: Domain, b: Domain)
    requires Valid(a) && Valid(b)
    ensures Values(IntersectionWith(a, b)) <= Values(a)
    ensures IntersectionWith(a, b) != a ==> |Values(IntersectionWith(a, b))| < |Values(a)|
  {
    var d := IntersectionWith(a, b);
    var vd, va := Values(d), Values(a);
    assert vd <= va;
    if d != a {
      if vd == va {
        CanonicalRepresentation(d, a);
      }
      StrictSubsetIsSmaller(vd, va);
    }
  }

  // ---------------------------------------------------------------------
  // Canonicalization of a bound

  /**
   * The pair `(after, before)` canonicalizes the threshold `bound`:
   * `after` is the smallest value of the domain at or above `bound`,
   * `before` the largest value strictly below it.
   */
  predicate IsCanonicalPair(d: Domain, bound: int, after: int, before: int)
  {
    before < bound <= after && Contains(d, after) && Contains(d, before) &&
    forall v :: before < v < after ==> !Contains(d, v)
  }

  /**
   * The loop over the intervals, after intervals `0..k-1` all ended below
   * `bound`; `previous` is the end of interval `k - 1`, or the int64 minimum
   * before the first one.
   */
  function CanonicalizeFrom(d: Domain, bound: int, k: nat, previous: int, after: int, before: int): (r: (int, int))
    requires Valid(d) && k < |d| && Min(d) <= bound - 1 && bound <= Max(d)
    requires after == bound && before == bound - 1
    requires forall j :: 0 <= j < k ==> d[j].end < bound
    requires k > 0 ==> previous == d[k - 1].end
    requires k == 0 ==> previous < Min(d)
    ensures IsCanonicalPair(d, bound, r.0, r.1)
    decreases |d| - k
  {
    var before' := if before > previous && before < d[k].start then previous else before;
    var after' := if after > previous && after < d[k].start then d[k].start else after;
    if after' <= d[k].end then
      assert Contains(d, after') by {
        assert d[k].start <= after' <= d[k].end;
      }
      assert Contains(d, before') by {
        if before' == before && d[k].start <= before {
          assert d[k].start <= before' <= d[k].end;
        } else {
          assert k > 0 && before' == d[k - 1].end;
          assert d[k - 1].start <= before' <= d[k - 1].end;
        }
      }
      assert forall v :: before' < v < after' ==> !Contains(d, v) by {
        forall v | before' < v < after'
          ensures !Contains(d, v)
        {
          GapHasNoValue(d, k - 1, v);
        }
      }
      (after', before')
    else
      CanonicalizeFrom(d, bound, k + 1, d[k].end, after', before')
  }

  /**
   * Canonicalizes the threshold `bound` of a domain whose values lie on
   * both sides of it: `x >= bound` is the same as `x >= after`, and its
   * negation `x < bound` the same as `x <= before`.
   */
  function Canonicalize(d: Domain, bound: int): (r: (int, int))
    requires Valid(d) && |d| > 0 && kint64min < Min(d) <= bound - 1 && bound <= Max(d)
    ensures IsCanonicalPair(d, bound, r.0, r.1)
  {
    CanonicalizeFrom(d, bound, 0, kint64min, bound, bound - 1)
  }

  /** The canonical pair is determined by the threshold. */
  lemma CanonicalPairIsUnique(d: Domain, bound: int, a1: int, b1: int, a2: int, b2: int)
    requires IsCanonicalPair(d, bound, a1, b1) && IsCanonicalPair(d, bound, a2, b2)
    ensures a1 == a2 && b1 == b2
  {
  }

  /** Every threshold between `before` and `after` has the same canonical pair; in particular, canonicalizing is idempotent. */
  lemma {:induction false} CanonicalizeIsIdempotent(d: Domain, bound: int, other: int)
    requires Valid(d) && |d| > 0 && kint64min < Min(d) <= bound - 1 && bound <= Max(d)
    requires Canonicalize(d, bound).1 < other <= Canonicalize(d, bound).0
    ensures Min(d) <= other - 1 && other <= Max(d)
    ensures Canonicalize(d, other) == Canonicalize(d, bound)
  {
    var (after, before) := Canonicalize(d, bound);
    MinMaxAreExtremeValues(d);
    assert IsCanonicalPair(d, other, after, before);
    var (a2, b2) := Canonicalize(d, other);
    CanonicalPairIsUnique(d, other, after, before, a2, b2);
  }

  // ---------------------------------------------------------------------
  // Enumeration

  /** All values of the domain, in increasing order. */
  method EnumerateValues(d: Domain) returns (values: seq<int>)
    requires Valid(d)
    ensures forall i, j :: 0 <= i < j < |values| ==> values[i] < values[j]
    ensures forall v :: v in values <==> Contains(d, v)
  {
    values := [];
    var k := 0;
    while k < |d|
      invariant 0 <= k <= |d|
      invariant forall i, j :: 0 <= i < j < |values| ==> values[i] < values[j]
      invariant forall v :: v in values <==> Contains(d[..k], v)
      invariant k == 0 <==> |values| == 0
      invariant k > 0 ==> values[|values| - 1] == d[k - 1].end
    {
      var v := d[k].start;
      ghost var prefix := values;
      while v <= d[k].end
        invariant d[k].start <= v <= d[k].end + 1
        invariant forall i, j :: 0 <= i < j < |values| ==> values[i] < values[j]
        invariant |values| >= |prefix| && values[..|prefix|] == prefix
        invariant forall w :: w in values <==> w in prefix || d[k].start <= w < v
        invariant |values| > |prefix| ==> values[|values| - 1] == v - 1
        invariant |values| == |prefix| ==> v == d[k].start && values == prefix
      {
        if |values| > 0 && |values| == |prefix| {
          assert d[k - 1].end + 1 < d[k].start;
        }
        values := values + [v];
        v := v + 1;
      }
      PrefixStep(d, k);
      k := k + 1;
    }
    assert d[..k] == d;
  }

  lemma PrefixStep(d: Domain, k: nat)
    requires k < |d|
    ensures forall w :: Contains(d[..k + 1], w) <==> Contains(d[..k], w) || d[k].start <= w <= d[k].end
  {
    assert d[..k + 1] == d[..k] + [d[k]];
    ConcatValuesAux(d[..k], [d[k]]);
    SingleIntervalValues(d[k].start, d[k].end);
  }
}
