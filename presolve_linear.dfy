/**
 * The canonical-form part of `PresolveLinear`: the terms of a linear
 * constraint are regrouped by variable into an ordered map (a sorted list
 * of terms here), the fixed variables are summed into a constant, and the
 * coefficients are divided by their greatest common divisor.
 */
module LinearCanonical {

  import opened Refs
  import opened CpModel
  import opened PresolveContext
  import Domains

  /** One entry of the map from variable to coefficient. */
  datatype Term = Term(v: int, coeff: int)

  /** Strictly increasing variables and no zero coefficient: what the ordered map holds after each update. */
  predicate Canonical(terms: seq<Term>)
  {
    (forall i :: 0 <= i < |terms| ==> terms[i].coeff != 0) &&
    (forall i :: 0 < i < |terms| ==> terms[i - 1].v < terms[i].v)
  }

  /** The coefficient the map gives to `v`, 0 when it has no entry. */
  function CoeffOf(terms: seq<Term>, v: int): int
  {
    if |terms| == 0 then 0
    else (if terms[0].v == v then terms[0].coeff else 0) + CoeffOf(terms[1..], v)
  }

  /** `var_to_coeff[v] += c`, the entry erased when it reaches 0. */
  function AddTerm(terms: seq<Term>, v: int, c: int): (r: seq<Term>)
    requires Canonical(terms)
    ensures Canonical(r)
    ensures |r| > 0 ==> r[0].v == v || (|terms| > 0 && r[0].v >= terms[0].v)
  {
    if |terms| == 0 then (if c == 0 then [] else [Term(v, c)])
    else if terms[0].v == v then
      (if terms[0].coeff + c == 0 then terms[1..] else [Term(v, terms[0].coeff + c)] + terms[1..])
    else if v < terms[0].v then
      (if c == 0 then terms else [Term(v, c)] + terms)
    else
      [terms[0]] + AddTerm(terms[1..], v, c)
  }

  /** Adding to an entry changes the coefficient of that variable by `c` and no other. */
  lemma {:induction false} AddTermCoefficients(terms: seq<Term>, v: int, c: int, w: int)
    requires Canonical(terms)
    ensures CoeffOf(AddTerm(terms, v, c), w) == CoeffOf(terms, w) + (if w == v then c else 0)
    decreases |terms|
  {
    if |terms| > 0 {
      if terms[0].v == v {
        CoeffAbsentAbove(terms[1..], v);
        if terms[0].coeff + c != 0 {
          assert ([Term(v, terms[0].coeff + c)] + terms[1..])[1..] == terms[1..];
        }
      } else if v < terms[0].v {
        if c != 0 {
          assert ([Term(v, c)] + terms)[1..] == terms;
          CoeffAbsentAbove(terms, v);
        }
      } else {
        AddTermCoefficients(terms[1..], v, c, w);
        assert ([terms[0]] + AddTerm(terms[1..], v, c))[1..] == AddTerm(terms[1..], v, c);
      }
    }
  }

  /** A variable below the first entry has coefficient 0. */
  lemma {:induction false} CoeffAbsentAbove(terms: seq<Term>, v: int)
    requires Canonical(terms) && (|terms| > 0 ==> v < terms[0].v)
    ensures CoeffOf(terms, v) == 0
    decreases |terms|
  {
    if |terms| > 0 {
      CoeffAbsentAbove(terms[1..], v);
    }
  }

  /** `sum(coeff * value(v))` over the entries. */
  function TermsSum(values: Assignment, terms: seq<Term>): int
  {
    if |terms| == 0 then 0 else terms[0].coeff * RefValue(values, terms[0].v) + TermsSum(values, terms[1..])
  }

  /** Adding `c` to the entry of `v` adds `c * value(v)` to the sum. */
  lemma {:induction false} AddTermSum(values: Assignment, terms: seq<Term>, v: int, c: int)
    requires Canonical(terms)
    ensures TermsSum(values, AddTerm(terms, v, c)) == TermsSum(values, terms) + c * RefValue(values, v)
    decreases |terms|
  {
    var x := RefValue(values, v);
    if |terms| > 0 {
      if terms[0].v == v {
        assert terms[0].coeff * x + c * x == (terms[0].coeff + c) * x;
        if terms[0].coeff + c != 0 {
          assert ([Term(v, terms[0].coeff + c)] + terms[1..])[1..] == terms[1..];
        }
      } else if v < terms[0].v {
        if c != 0 {
          assert ([Term(v, c)] + terms)[1..] == terms;
        }
      } else {
        AddTermSum(values, terms[1..], v, c);
        assert ([terms[0]] + AddTerm(terms[1..], v, c))[1..] == AddTerm(terms[1..], v, c);
      }
    }
  }

  // ---------------------------------------------------------------------
  // Regrouping

  /** `x = coeff * representative + offset`, as the affine relations of the context record it. */
  datatype Relation = Relation(representative: int, coeff: int, offset: int)

  /** One relation per variable, each naming a variable as representative; a representative stands for itself. */
  predicate RelationsWellFormed(relations: seq<Relation>)
  {
    forall v :: 0 <= v < |relations| ==>
      0 <= relations[v].representative < |relations| &&
      (relations[v].representative == v ==> relations[v].coeff == 1 && relations[v].offset == 0)
  }

  /** `values` satisfies every affine relation. */
  predicate RelationsHold(values: Assignment, relations: seq<Relation>)
    requires RelationsWellFormed(relations) && |values| == |relations|
  {
    forall v :: 0 <= v < |relations| ==>
      values[v] == relations[v].coeff * values[relations[v].representative] + relations[v].offset
  }

  /** The coefficient of a term on its positive variable. */
  function SignedCoeff(ref: int, c: int): int
  {
    if RefIsPositive(ref) then c else -c
  }

  /** What the first loop leaves: the map from variable to coefficient and the sum of the fixed terms. */
  datatype Regrouped = Regrouped(terms: seq<Term>, fixedSum: int)

  /** The variables of `vars` have non-empty domains in `domains`. */
  predicate VarsIn(vars: seq<int>, domains: seq<Domains.Domain>)
  {
    forall i :: 0 <= i < |vars| ==> PositiveRef(vars[i]) < |domains| && |domains[PositiveRef(vars[i])]| > 0
  }

  /**
   * One turn of the first loop: a zero coefficient is skipped, a fixed variable goes into the
   * constant, and any other variable adds its coefficient to the entry of its representative (or
   * to its own entry when the constraint defines an affine relation).
   */
  function RegroupStep(domains: seq<Domains.Domain>, relations: seq<Relation>, wasAffine: bool, prev: Regrouped, ref: int, coeff: int): (r: Regrouped)
    requires PositiveRef(ref) < |domains| && |domains[PositiveRef(ref)]| > 0
    requires |relations| == |domains| && RelationsWellFormed(relations) && Canonical(prev.terms)
    ensures Canonical(r.terms)
  {
    var v, c := PositiveRef(ref), SignedCoeff(ref, coeff);
    if c == 0 then prev
    else if Domains.Min(domains[v]) == Domains.Max(domains[v]) then prev.(fixedSum := prev.fixedSum + c * Domains.Min(domains[v]))
    else if !wasAffine then
      var rel := relations[v];
      Regrouped(AddTerm(prev.terms, rel.representative, c * rel.coeff),
                prev.fixedSum + if rel.representative != v then c * rel.offset else 0)
    else Regrouped(AddTerm(prev.terms, v, c), prev.fixedSum)
  }

  /** The first loop over the terms, in order. */
  function Regroup(domains: seq<Domains.Domain>, relations: seq<Relation>, wasAffine: bool, vars: seq<int>, coeffs: seq<int>): (r: Regrouped)
    requires |vars| == |coeffs| && VarsIn(vars, domains)
    requires |relations| == |domains| && RelationsWellFormed(relations)
    ensures Canonical(r.terms)
  {
    if |vars| == 0 then Regrouped([], 0)
    else
      var n := |vars| - 1;
      RegroupStep(domains, relations, wasAffine, Regroup(domains, relations, wasAffine, vars[..n], coeffs[..n]), vars[n], coeffs[n])
  }

  /** One turn keeps `sum(map) + constant` equal to the sum of the terms seen so far. */
  lemma RegroupStepSum(domains: seq<Domains.Domain>, relations: seq<Relation>, wasAffine: bool, prev: Regrouped, ref: int, coeff: int, values: Assignment)
    requires PositiveRef(ref) < |domains| && |domains[PositiveRef(ref)]| > 0 && Domains.Valid(domains[PositiveRef(ref)])
    requires |relations| == |domains| && RelationsWellFormed(relations) && Canonical(prev.terms)
    requires Satisfies(values, domains) && RelationsHold(values, relations)
    ensures var r := RegroupStep(domains, relations, wasAffine, prev, ref, coeff);
      TermsSum(values, r.terms) + r.fixedSum == TermsSum(values, prev.terms) + prev.fixedSum + coeff * RefValue(values, ref)
  {
    var v, c := PositiveRef(ref), SignedCoeff(ref, coeff);
    var x := values[v];
    SignedTerm(ref, coeff, values);
    if c == 0 {
    } else if Domains.Min(domains[v]) == Domains.Max(domains[v]) {
      assert Domains.Contains(domains[v], x);
      FixedValue(domains[v], x);
    } else if !wasAffine {
      var rel := relations[v];
      var y := values[rel.representative];
      AddTermSum(values, prev.terms, rel.representative, c * rel.coeff);
      assert x == rel.coeff * y + rel.offset;
      ScaledRelation(c, x, rel.coeff, y, rel.offset);
    } else {
      AddTermSum(values, prev.terms, v, c);
    }
  }

  /** A term on a negated reference is the opposite coefficient on the variable. */
  lemma SignedTerm(ref: int, coeff: int, values: Assignment)
    requires PositiveRef(ref) < |values|
    ensures coeff * RefValue(values, ref) == SignedCoeff(ref, coeff) * values[PositiveRef(ref)]
  {
  }

  /** The only value of a fixed domain is its minimum. */
  lemma FixedValue(d: Domains.Domain, x: int)
    requires Domains.Valid(d) && |d| > 0 && Domains.Min(d) == Domains.Max(d) && Domains.Contains(d, x)
    ensures x == Domains.Min(d)
  {
    Domains.MinMaxAreExtremeValues(d);
  }

  lemma ScaledRelation(c: int, x: int, k: int, y: int, offset: int)
    requires x == k * y + offset
    ensures c * x == (c * k) * y + c * offset
  {
  }

  /**
   * Under every assignment within the domains that satisfies the affine relations, the regrouped
   * terms plus the fixed sum equal the original weighted sum.
   */
  lemma {:induction false} RegroupKeepsSum(domains: seq<Domains.Domain>, relations: seq<Relation>, wasAffine: bool, vars: seq<int>, coeffs: seq<int>, values: Assignment)
    requires |vars| == |coeffs| && VarsIn(vars, domains) && forall v :: 0 <= v < |domains| ==> Domains.Valid(domains[v])
    requires |relations| == |domains| && RelationsWellFormed(relations)
    requires Satisfies(values, domains) && RelationsHold(values, relations)
    ensures var r := Regroup(domains, relations, wasAffine, vars, coeffs);
      TermsSum(values, r.terms) + r.fixedSum == WeightedSum(values, vars, coeffs)
    decreases |vars|
  {
    if |vars| > 0 {
      var n := |vars| - 1;
      assert VarsIn(vars[..n], domains);
      RegroupKeepsSum(domains, relations, wasAffine, vars[..n], coeffs[..n], values);
      RegroupStepSum(domains, relations, wasAffine, Regroup(domains, relations, wasAffine, vars[..n], coeffs[..n]), vars[n], coeffs[n], values);
    }
  }

  /** Every variable of the map is a positive reference, as the rewritten constraint requires. */
  lemma {:induction false} RegroupVarsArePositive(domains: seq<Domains.Domain>, relations: seq<Relation>, wasAffine: bool, vars: seq<int>, coeffs: seq<int>)
    requires |vars| == |coeffs| && VarsIn(vars, domains)
    requires |relations| == |domains| && RelationsWellFormed(relations)
    ensures forall i :: 0 <= i < |Regroup(domains, relations, wasAffine, vars, coeffs).terms| ==>
      RefIsPositive(Regroup(domains, relations, wasAffine, vars, coeffs).terms[i].v)
    decreases |vars|
  {
    var r := Regroup(domains, relations, wasAffine, vars, coeffs);
    if |vars| > 0 {
      var n := |vars| - 1;
      var prev := Regroup(domains, relations, wasAffine, vars[..n], coeffs[..n]);
      RegroupVarsArePositive(domains, relations, wasAffine, vars[..n], coeffs[..n]);
      assert |prev.terms| > 0 ==> RefIsPositive(prev.terms[0].v);
      assert r == RegroupStep(domains, relations, wasAffine, prev, vars[n], coeffs[n]);
      if |r.terms| > 0 {
        assert r.terms[0].v >= 0;
        SortedFromFirst(r.terms, 0);
      }
    }
  }

  /** In a canonical map every variable is at least the first one. */
  lemma {:induction false} SortedFromFirst(terms: seq<Term>, lo: int)
    requires Canonical(terms) && |terms| > 0 && terms[0].v >= lo
    ensures forall i :: 0 <= i < |terms| ==> terms[i].v >= lo
    decreases |terms|
  {
    if |terms| > 1 {
      SortedFromFirst(terms[1..], lo);
      forall i | 1 <= i < |terms|
        ensures terms[i].v >= lo
      {
        assert terms[1..][i - 1] == terms[i];
      }
    }
  }

  /** The first loop as the source writes it, over the constraint's terms in order. */
  method RegroupTerms(ctx: Context, wasAffine: bool, relations: seq<Relation>, vars: seq<int>, coeffs: seq<int>) returns (terms: seq<Term>, fixedSum: int)
    requires ctx.Valid() && |vars| == |coeffs| && VarsIn(vars, ctx.domains)
    requires |relations| == |ctx.domains| && RelationsWellFormed(relations)
    ensures Regrouped(terms, fixedSum) == Regroup(ctx.domains, relations, wasAffine, vars, coeffs)
  {
    terms, fixedSum := [], 0;
    var i := 0;
    while i < |vars|
      invariant i <= |vars| && VarsIn(vars[..i], ctx.domains)
      invariant Regrouped(terms, fixedSum) == Regroup(ctx.domains, relations, wasAffine, vars[..i], coeffs[..i])
    {
      RegroupPrefixStep(ctx.domains, relations, wasAffine, vars, coeffs, i);
      terms, fixedSum := RegroupOne(ctx, wasAffine, relations, terms, fixedSum, vars[i], coeffs[i]);
      i := i + 1;
    }
    assert vars[..i] == vars && coeffs[..i] == coeffs;
  }

  /** Regrouping one more term of the constraint is one more turn of the loop. */
  lemma RegroupPrefixStep(domains: seq<Domains.Domain>, relations: seq<Relation>, wasAffine: bool, vars: seq<int>, coeffs: seq<int>, i: nat)
    requires |vars| == |coeffs| && VarsIn(vars, domains) && i < |vars|
    requires |relations| == |domains| && RelationsWellFormed(relations)
    ensures VarsIn(vars[..i], domains) && VarsIn(vars[..i + 1], domains)
    ensures Regroup(domains, relations, wasAffine, vars[..i + 1], coeffs[..i + 1]) ==
      RegroupStep(domains, relations, wasAffine, Regroup(domains, relations, wasAffine, vars[..i], coeffs[..i]), vars[i], coeffs[i])
  {
    assert vars[..i + 1][..i] == vars[..i] && coeffs[..i + 1][..i] == coeffs[..i];
  }

  /** One turn of the first loop: the term `coeff * ref` joins the map or the fixed sum. */
  method RegroupOne(ctx: Context, wasAffine: bool, relations: seq<Relation>, terms0: seq<Term>, fixedSum0: int, ref: int, coeff: int)
    returns (terms: seq<Term>, fixedSum: int)
    requires ctx.Valid() && PositiveRef(ref) < |ctx.domains| && |ctx.domains[PositiveRef(ref)]| > 0
    requires |relations| == |ctx.domains| && RelationsWellFormed(relations) && Canonical(terms0)
    ensures Regrouped(terms, fixedSum) == RegroupStep(ctx.domains, relations, wasAffine, Regrouped(terms0, fixedSum0), ref, coeff)
  {
    terms, fixedSum := terms0, fixedSum0;
    var v := PositiveRef(ref);
    var c := if RefIsPositive(ref) then coeff else -coeff;
    assert PositiveRef(v) == v && RefIsPositive(v);
    assert ctx.HasValues(v) && ctx.MinOf(v) == Domains.Min(ctx.domains[v]);
    if c != 0 {
      if ctx.IsFixed(v) {
        fixedSum := fixedSum + c * ctx.MinOf(v);
      } else if !wasAffine {
        var rel := relations[v];
        if rel.representative != v {
          fixedSum := fixedSum + c * rel.offset;
        }
        terms := AddTerm(terms, rel.representative, c * rel.coeff);
      } else {
        terms := AddTerm(terms, v, c);
      }
    }
  }

  // ---------------------------------------------------------------------
  // Greatest common divisor

  /** `d` is a positive divisor of `x`. */
  predicate Divides(d: int, x: int)
  {
    d > 0 && x % d == 0
  }

  /** Euclid's algorithm, as the inner loop runs it. */
  function Gcd(a: nat, b: nat): nat
    decreases b
  {
    if b == 0 then a else Gcd(b, a % b)
  }

  lemma {:induction false} ProductAtLeast(d: int, t: int)
    requires d > 0 && t >= 1
    ensures d * t >= d
    decreases t
  {
    if t > 1 {
      ProductAtLeast(d, t - 1);
      assert d * t == d * (t - 1) + d;
    }
  }

  lemma ProductInRange(d: int, t: int)
    requires d > 0 && 0 <= d * t < d
    ensures t == 0
  {
    if t >= 1 {
      ProductAtLeast(d, t);
    }
  }

  lemma MultipleIsDivisible(d: int, k: int)
    requires d > 0
    ensures (d * k) % d == 0
  {
    var x := d * k;
    var q, r := x / d, x % d;
    assert x == d * q + r;
    assert r == d * (k - q);
    ProductInRange(d, k - q);
  }

  /** A positive divisor of `a` and `b` divides `a - q * b`. */
  lemma DividesCombination(d: int, a: int, b: int, q: int)
    requires Divides(d, a) && Divides(d, b)
    ensures Divides(d, a - q * b)
  {
    var ka, kb := a / d, b / d;
    assert a == d * ka && b == d * kb;
    assert a - q * b == d * (ka - q * kb);
    MultipleIsDivisible(d, ka - q * kb);
  }

  /**
   * `Gcd(a, b)` divides `a` and `b`, and every positive common divisor of `a` and `b` divides it;
   * it is positive unless both are 0.
   */
  lemma {:induction false} GcdIsGreatest(a: nat, b: nat)
    ensures a > 0 || b > 0 ==> Gcd(a, b) > 0
    ensures Gcd(a, b) > 0 ==> Divides(Gcd(a, b), a) && Divides(Gcd(a, b), b)
    ensures forall d :: Divides(d, a) && Divides(d, b) ==> Gcd(a, b) % d == 0
    decreases b
  {
    if b > 0 {
      var q, r := a / b, a % b;
      GcdIsGreatest(b, r);
      var g := Gcd(b, r);
      assert a == q * b + r;
      DividesCombination(g, r, b, -q);
      assert r - (-q) * b == a;
      forall d | Divides(d, a) && Divides(d, b)
        ensures g % d == 0
      {
        DividesCombination(d, a, b, q);
        assert a - q * b == r;
      }
    } else if a > 0 {
      MultipleIsDivisible(a, 1);
      MultipleIsDivisible(a, 0);
    }
  }

  /** Once the gcd is 1 it stays 1: the loop may stop there. */
  lemma GcdWithOne(c: nat)
    ensures Gcd(1, c) == 1
  {
    if c > 1 {
      assert 1 % c == 1;
      assert Gcd(c, 1) == Gcd(1, 0);
    }
  }

  function Abs(x: int): nat
  {
    if x < 0 then -x else x
  }

  /** The gcd of the absolute coefficients of `terms`, taken from the first one on; 0 for no term. */
  function GcdOf(terms: seq<Term>): nat
  {
    if |terms| == 0 then 0 else Gcd(GcdOf(terms[..|terms| - 1]), Abs(terms[|terms| - 1].coeff))
  }

  /** The gcd of the coefficients divides each of them, every common divisor divides it, and it is positive when there is a term. */
  lemma {:induction false} GcdOfIsGreatest(terms: seq<Term>)
    requires Canonical(terms)
    ensures |terms| > 0 ==> GcdOf(terms) > 0
    ensures forall i :: 0 <= i < |terms| ==> Divides(GcdOf(terms), Abs(terms[i].coeff)) || |terms| == 0
    ensures forall d :: d > 0 && (forall i :: 0 <= i < |terms| ==> Divides(d, Abs(terms[i].coeff))) ==> GcdOf(terms) % d == 0
    decreases |terms|
  {
    if |terms| > 0 {
      var n := |terms| - 1;
      var front := terms[..n];
      assert Canonical(front);
      GcdOfIsGreatest(front);
      var g0, c := GcdOf(front), Abs(terms[n].coeff);
      GcdIsGreatest(g0, c);
      var g := Gcd(g0, c);
      forall i | 0 <= i < |terms|
        ensures Divides(g, Abs(terms[i].coeff))
      {
        if i < n {
          assert front[i] == terms[i];
          DividesTransitive(g, g0, Abs(terms[i].coeff));
        }
      }
      forall d | d > 0 && (forall i :: 0 <= i < |terms| ==> Divides(d, Abs(terms[i].coeff)))
        ensures g % d == 0
      {
        forall i | 0 <= i < n
          ensures Divides(d, Abs(front[i].coeff))
        {
          assert front[i] == terms[i];
        }
        assert Divides(d, c);
        if n == 0 {
          assert g0 == 0 && g0 % d == 0;
        }
      }
    }
  }

  lemma DividesTransitive(d: int, e: int, x: int)
    requires Divides(d, e) && Divides(e, x)
    ensures Divides(d, x)
  {
    var k := x / e;
    assert x == e * k;
    var j := e / d;
    assert e == d * j;
    assert x == d * (j * k);
    MultipleIsDivisible(d, j * k);
  }

  /** The gcd the second loop computes: 1 when there is no term. */
  function CoefficientGcd(terms: seq<Term>): nat
  {
    if |terms| == 0 then 1 else GcdOf(terms)
  }

  /**
   * The second loop: the first coefficient starts the gcd, Euclid's loop folds in each next one,
   * and the loop stops early once the gcd is 1.
   */
  method ComputeGcd(terms: seq<Term>) returns (gcd: int)
    requires Canonical(terms)
    ensures gcd == CoefficientGcd(terms)
  {
    gcd := 1;
    var firstCoeff := true;
    var i := 0;
    while i < |terms|
      invariant i <= |terms|
      invariant firstCoeff <==> i == 0
      invariant i > 0 ==> gcd == GcdOf(terms[..i]) && gcd > 0
      invariant i == 0 ==> gcd == 1
    {
      assert terms[..i + 1][..i] == terms[..i];
      var coeff := Abs(terms[i].coeff);
      if firstCoeff {
        if coeff != 0 {
          firstCoeff := false;
          gcd := coeff;
          assert Gcd(0, coeff) == Gcd(coeff, 0);
        }
        i := i + 1;
        continue;
      }
      ghost var g0 := gcd;
      while coeff != 0
        invariant gcd > 0 && coeff >= 0
        invariant Gcd(gcd, coeff) == Gcd(g0, Abs(terms[i].coeff))
        decreases coeff
      {
        var r := gcd % coeff;
        gcd := coeff;
        coeff := r;
      }
      i := i + 1;
      if gcd == 1 {
        GcdOneOnwards(terms, i);
        return;
      }
    }
    assert terms[..i] == terms;
  }

  /** A gcd of 1 over a prefix is the gcd of all the terms. */
  lemma {:induction false} GcdOneOnwards(terms: seq<Term>, i: nat)
    requires 0 < i <= |terms| && GcdOf(terms[..i]) == 1
    ensures GcdOf(terms) == 1
    decreases |terms| - i
  {
    if i == |terms| {
      assert terms[..i] == terms;
    } else {
      assert terms[..i + 1][..i] == terms[..i];
      GcdWithOne(Abs(terms[i].coeff));
      GcdOneOnwards(terms, i + 1);
    }
  }

  /** The rewritten terms: the same variables, each coefficient divided by `gcd`. */
  method DivideByGcd(terms: seq<Term>, gcd: int) returns (divided: seq<Term>)
    requires gcd > 0 && forall i :: 0 <= i < |terms| ==> Divides(gcd, Abs(terms[i].coeff))
    ensures |divided| == |terms|
    ensures forall i :: 0 <= i < |terms| ==> divided[i].v == terms[i].v && divided[i].coeff * gcd == terms[i].coeff
  {
    divided := [];
    var i := 0;
    while i < |terms|
      invariant i <= |terms| && |divided| == i
      invariant forall j :: 0 <= j < i ==> divided[j].v == terms[j].v && divided[j].coeff * gcd == terms[j].coeff
    {
      ExactDivision(terms[i].coeff, gcd);
      divided := divided + [Term(terms[i].v, terms[i].coeff / gcd)];
      i := i + 1;
    }
  }

  /** For a multiple of `d`, Euclidean division and C++'s truncating division agree and are exact. */
  lemma ExactDivision(x: int, d: int)
    requires Divides(d, Abs(x))
    ensures (x / d) * d == x
  {
    var k := Abs(x) / d;
    assert Abs(x) == d * k;
    if x < 0 {
      assert x == d * -k;
      MultipleIsDivisible(d, -k);
    }
  }

  /** Dividing every coefficient by a common divisor divides the weighted sum by it. */
  lemma {:induction false} DividedSum(values: Assignment, terms: seq<Term>, divided: seq<Term>, gcd: int)
    requires |divided| == |terms|
    requires forall i :: 0 <= i < |terms| ==> divided[i].v == terms[i].v && divided[i].coeff * gcd == terms[i].coeff
    ensures TermsSum(values, terms) == gcd * TermsSum(values, divided)
    decreases |terms|
  {
    if |terms| > 0 {
      DividedSum(values, terms[1..], divided[1..], gcd);
      Regroup3(divided[0].coeff, gcd, RefValue(values, terms[0].v));
    }
  }

  lemma Regroup3(a: int, b: int, c: int)
    ensures (a * b) * c == b * (a * c)
  {
  }

  /** The whole canonical form: regrouped terms, the fixed sum and the gcd, and the divided terms. */
  datatype CanonicalForm = CanonicalForm(terms: seq<Term>, fixedSum: int, gcd: int, divided: seq<Term>)

  /**
   * The canonical-form part of `PresolveLinear`. Under every assignment within the domains that
   * satisfies the affine relations, `sum = gcd * sum(divided) + fixedSum`; the divided
   * coefficients have no common divisor above 1 and the variables are strictly increasing.
   */
  method CanonicalizeLinear(ct: Constraint, ctx: Context, wasAffine: bool, relations: seq<Relation>)
    returns (form: CanonicalForm, shrank: bool)
    requires ct.body.Linear? && |ct.body.linear.vars| == |ct.body.linear.coeffs|
    requires ctx.Valid() && VarsIn(ct.body.linear.vars, ctx.domains)
    requires |relations| == |ctx.domains| && RelationsWellFormed(relations)
    ensures var r := Regroup(ctx.domains, relations, wasAffine, ct.body.linear.vars, ct.body.linear.coeffs);
      form.terms == r.terms && form.fixedSum == r.fixedSum && form.gcd == CoefficientGcd(r.terms)
    ensures form.gcd > 0 && |form.divided| == |form.terms|
    ensures forall i :: 0 <= i < |form.terms| ==> form.divided[i].v == form.terms[i].v && form.divided[i].coeff * form.gcd == form.terms[i].coeff
    ensures forall i :: 0 <= i < |form.divided| ==> RefIsPositive(form.divided[i].v)
    ensures shrank <==> |form.terms| < |ct.body.linear.vars|
  {
    var arg := ct.body.linear;
    var terms, fixedSum := RegroupTerms(ctx, wasAffine, relations, arg.vars, arg.coeffs);
    var gcd := ComputeGcd(terms);
    GcdOfIsGreatest(terms);
    var divided := DivideByGcd(terms, gcd);
    RegroupVarsArePositive(ctx.domains, relations, wasAffine, arg.vars, arg.coeffs);
    form := CanonicalForm(terms, fixedSum, gcd, divided);
    shrank := |terms| < |arg.vars|;
  }

  /** Under every assignment within the domains that satisfies the relations, the canonical form has the original weighted sum. */
  lemma CanonicalFormKeepsSum(domains: seq<Domains.Domain>, relations: seq<Relation>, wasAffine: bool, arg: LinearArgument, form: CanonicalForm, values: Assignment)
    requires |arg.vars| == |arg.coeffs| && VarsIn(arg.vars, domains) && forall v :: 0 <= v < |domains| ==> Domains.Valid(domains[v])
    requires |relations| == |domains| && RelationsWellFormed(relations)
    requires Satisfies(values, domains) && RelationsHold(values, relations)
    requires var r := Regroup(domains, relations, wasAffine, arg.vars, arg.coeffs); form.terms == r.terms && form.fixedSum == r.fixedSum
    requires |form.divided| == |form.terms|
    requires forall i :: 0 <= i < |form.terms| ==> form.divided[i].v == form.terms[i].v && form.divided[i].coeff * form.gcd == form.terms[i].coeff
    ensures WeightedSum(values, arg.vars, arg.coeffs) == form.gcd * TermsSum(values, form.divided) + form.fixedSum
  {
    RegroupKeepsSum(domains, relations, wasAffine, arg.vars, arg.coeffs, values);
    DividedSum(values, form.terms, form.divided, form.gcd);
  }

  /** After the division, the coefficients have no common divisor above 1. */
  lemma DividedCoefficientsAreCoprime(terms: seq<Term>, divided: seq<Term>, d: int)
    requires Canonical(terms) && |divided| == |terms| && |terms| > 0
    requires forall i :: 0 <= i < |terms| ==> divided[i].coeff * CoefficientGcd(terms) == terms[i].coeff
    requires forall i :: 0 <= i < |divided| ==> Divides(d, Abs(divided[i].coeff))
    ensures d == 1
  {
    var g := CoefficientGcd(terms);
    GcdOfIsGreatest(terms);
    forall i | 0 <= i < |terms|
      ensures Divides(d * g, Abs(terms[i].coeff))
    {
      ScaledDivisor(d, g, terms[i].coeff, divided[i].coeff);
    }
    assert g % (d * g) == 0;
    if d > 1 {
      NoLargerDivisor(g, d);
    }
  }

  /** A positive `g` is not a multiple of `d * g` when `d > 1`. */
  lemma NoLargerDivisor(g: int, d: int)
    requires g > 0 && d > 1
    ensures g % (d * g) != 0
  {
    ProductAtLeast(g, d - 1);
    var m := d * g;
    assert m == g * (d - 1) + g;
    var q := g / m;
    assert g == m * q + g % m;
    if g % m == 0 {
      ProductInRange(m, q);
    }
  }

  /** If `d` divides `y` then `d * g` divides `y * g`. */
  lemma ScaledDivisor(d: int, g: int, x: int, y: int)
    requires g > 0 && Divides(d, Abs(y)) && x == y * g
    ensures Divides(d * g, Abs(x))
  {
    var k := Abs(y) / d;
    assert Abs(y) == d * k;
    assert Abs(x) == Abs(y) * g;
    assert Abs(x) == (d * g) * k;
    MultipleIsDivisible(d * g, k);
  }
}
