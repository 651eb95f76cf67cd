/**
 * The renumbering applied to a presolved model: `mapping[v]` is the new
 * index of variable `v`, or a negative value for a variable that is
 * dropped. Every reference of the constraints and of the objective is
 * renamed, and must survive; the search strategies and the solution hint
 * keep only the references that survive; the variable definitions move to
 * their new index, where every new index must receive one.
 */
module VariableMapping {

  import opened Refs
  import opened Wrappers
  import opened CpModel
  import Domains

  /** A variable definition; a slot nothing is moved to keeps the empty definition `Unset`. */
  datatype Variable = Variable(name: string, domain: Domains.Domain)

  const Unset: Variable := Variable("", [])

  /** The value of `variable` is reported as `offset + positiveCoeff * value`. */
  datatype Transformation = Transformation(variable: int, offset: int, positiveCoeff: int)

  /** A search decision heuristic over a list of references. */
  datatype Strategy = Strategy(variables: seq<int>, variableSelection: int, domainReduction: int, transformations: seq<Transformation>)

  datatype Objective = Objective(vars: seq<int>, coeffs: seq<int>)

  /** A suggested value for each listed reference. */
  datatype Hint = Hint(vars: seq<int>, values: seq<int>)

  datatype Model = Model(
    variables: seq<Variable>,
    constraints: seq<Constraint>,
    objective: Option<Objective>,
    strategies: seq<Strategy>,
    hint: Option<Hint>)

  // ---------------------------------------------------------------------
  // Renaming one reference

  /** `ref` names a variable the mapping covers. */
  predicate InMapping(mapping: seq<int>, ref: int)
  {
    PositiveRef(ref) < |mapping|
  }

  /** The variable of `ref` has a new index. */
  predicate Survives(mapping: seq<int>, ref: int)
  {
    InMapping(mapping, ref) && mapping[PositiveRef(ref)] >= 0
  }

  /** `ref` renamed: the new index of its variable, with the same polarity. */
  function MapRef(mapping: seq<int>, ref: int): (r: int)
    requires Survives(mapping, ref)
    ensures PositiveRef(r) == mapping[PositiveRef(ref)] && RefIsPositive(r) == RefIsPositive(ref)
  {
    var image := mapping[PositiveRef(ref)];
    if RefIsPositive(ref) then image else NegatedRef(image)
  }

  predicate AllInMapping(mapping: seq<int>, refs: seq<int>)
  {
    forall i :: 0 <= i < |refs| ==> InMapping(mapping, refs[i])
  }

  predicate AllSurvive(mapping: seq<int>, refs: seq<int>)
  {
    forall i :: 0 <= i < |refs| ==> Survives(mapping, refs[i])
  }

  function MapRefs(mapping: seq<int>, refs: seq<int>): (r: seq<int>)
    requires AllSurvive(mapping, refs)
    ensures |r| == |refs| && forall i :: 0 <= i < |r| ==> r[i] == MapRef(mapping, refs[i])
  {
    seq(|refs|, i requires 0 <= i < |refs| => MapRef(mapping, refs[i]))
  }

  lemma MapRefsAppend(mapping: seq<int>, a: seq<int>, b: seq<int>)
    ensures AllSurvive(mapping, a + b) <==> AllSurvive(mapping, a) && AllSurvive(mapping, b)
    ensures AllSurvive(mapping, a + b) ==> MapRefs(mapping, a + b) == MapRefs(mapping, a) + MapRefs(mapping, b)
  {
    if AllSurvive(mapping, a) && AllSurvive(mapping, b) {
      forall i | 0 <= i < |a + b|
        ensures Survives(mapping, (a + b)[i])
      {
        if i >= |a| {
          assert (a + b)[i] == b[i - |a|];
        }
      }
    }
    if AllSurvive(mapping, a + b) {
      forall i | 0 <= i < |b|
        ensures Survives(mapping, b[i])
      {
        assert (a + b)[|a| + i] == b[i];
      }
      assert forall i :: 0 <= i < |a| ==> (a + b)[i] == a[i];
    }
  }

  // ---------------------------------------------------------------------
  // Renaming a constraint

  /** The references of a constraint body. */
  function BodyReferences(body: Body): seq<int>
  {
    match body
    case Empty => []
    case BoolOr(lits) => lits
    case BoolAnd(lits) => lits
    case AtMostOne(lits) => lits
    case Linear(arg) => arg.vars
    case Circuit(arg) => arg.literals
    case OtherKind(refs) => refs
  }

  lemma ReferencesSplit(ct: Constraint)
    ensures References(ct) == ct.enforcement + BodyReferences(ct.body)
  {
  }

  /** Every reference of `ct` survives the mapping. */
  predicate Mappable(mapping: seq<int>, ct: Constraint)
  {
    AllSurvive(mapping, References(ct))
  }

  function MapBody(mapping: seq<int>, body: Body): (r: Body)
    requires AllSurvive(mapping, BodyReferences(body))
  {
    match body
    case Empty => Empty
    case BoolOr(lits) => BoolOr(MapRefs(mapping, lits))
    case BoolAnd(lits) => BoolAnd(MapRefs(mapping, lits))
    case AtMostOne(lits) => AtMostOne(MapRefs(mapping, lits))
    case Linear(arg) => Linear(arg.(vars := MapRefs(mapping, arg.vars)))
    case Circuit(arg) => Circuit(arg.(literals := MapRefs(mapping, arg.literals)))
    case OtherKind(refs) => OtherKind(MapRefs(mapping, refs))
  }

  /**
   * `ct` with every variable and literal reference renamed; the nodes of a
   * circuit and the coefficients and domain of a linear constraint stay.
   */
  function MapConstraint(mapping: seq<int>, ct: Constraint): (r: Constraint)
    requires Mappable(mapping, ct)
    ensures References(r) == MapRefs(mapping, References(ct))
    ensures HasMeaning(r.body) == HasMeaning(ct.body) && r.body.Circuit? == ct.body.Circuit?
    ensures r.body.Circuit? ==> r.body.circuit.tails == ct.body.circuit.tails && r.body.circuit.heads == ct.body.circuit.heads
  {
    ReferencesSplit(ct);
    MapRefsAppend(mapping, ct.enforcement, BodyReferences(ct.body));
    var r := Constraint(MapRefs(mapping, ct.enforcement), MapBody(mapping, ct.body));
    ReferencesSplit(r);
    r
  }

  /** The variables a renamed constraint uses are the new indices of those it used. */
  lemma MappedVariables(mapping: seq<int>, ct: Constraint)
    requires Mappable(mapping, ct)
    ensures UsedVariables(MapConstraint(mapping, ct)) == set v | v in UsedVariables(ct) && v < |mapping| :: mapping[v]
  {
    var refs := References(ct);
    var mapped := MapRefs(mapping, refs);
    assert References(MapConstraint(mapping, ct)) == mapped;
    var image := set v | v in UsedVariables(ct) && v < |mapping| :: mapping[v];
    forall w
      ensures w in UsedVariables(MapConstraint(mapping, ct)) <==> w in image
    {
      if w in UsedVariables(MapConstraint(mapping, ct)) {
        var i :| 0 <= i < |mapped| && PositiveRef(mapped[i]) == w;
        assert PositiveRef(refs[i]) in UsedVariables(ct);
      }
      if w in image {
        var v :| v in UsedVariables(ct) && v < |mapping| && mapping[v] == w;
        var i :| 0 <= i < |refs| && PositiveRef(refs[i]) == v;
        assert PositiveRef(mapped[i]) == w;
      }
    }
  }

  // ---------------------------------------------------------------------
  // What a renamed constraint means

  /** The new indices of the variables of `refs` are below `n`. */
  predicate LandsBelow(mapping: seq<int>, refs: seq<int>, n: nat)
  {
    AllSurvive(mapping, refs) && forall i :: 0 <= i < |refs| ==> mapping[PositiveRef(refs[i])] < n
  }

  lemma LandsBelowSplit(mapping: seq<int>, a: seq<int>, b: seq<int>, n: nat)
    requires LandsBelow(mapping, a + b, n)
    ensures LandsBelow(mapping, a, n) && LandsBelow(mapping, b, n)
  {
    assert forall i :: 0 <= i < |a| ==> (a + b)[i] == a[i];
    assert forall i :: 0 <= i < |b| ==> (a + b)[|a| + i] == b[i];
  }

  /** The values of the old variables read from an assignment of the new ones; a dropped variable reads 0. */
  function Pullback(mapping: seq<int>, values: Assignment): (before: Assignment)
    ensures |before| == |mapping|
    ensures forall v :: 0 <= v < |mapping| && 0 <= mapping[v] < |values| ==> before[v] == values[mapping[v]]
  {
    seq(|mapping|, v requires 0 <= v < |mapping| => if 0 <= mapping[v] < |values| then values[mapping[v]] else 0)
  }

  /** A reference reads the same value in the pulled-back assignment as its renaming in the new one. */
  lemma MapRefValue(mapping: seq<int>, values: Assignment, ref: int)
    requires Survives(mapping, ref) && mapping[PositiveRef(ref)] < |values|
    ensures RefValue(Pullback(mapping, values), ref) == RefValue(values, MapRef(mapping, ref))
    ensures LiteralHolds(Pullback(mapping, values), ref) <==> LiteralHolds(values, MapRef(mapping, ref))
  {
  }

  lemma AllHoldMapped(mapping: seq<int>, values: Assignment, lits: seq<int>)
    requires LandsBelow(mapping, lits, |values|)
    ensures AllHold(Pullback(mapping, values), lits) <==> AllHold(values, MapRefs(mapping, lits))
  {
    forall i | 0 <= i < |lits| {
      MapRefValue(mapping, values, lits[i]);
    }
  }

  lemma SomeHoldsMapped(mapping: seq<int>, values: Assignment, lits: seq<int>)
    requires LandsBelow(mapping, lits, |values|)
    ensures SomeHolds(Pullback(mapping, values), lits) <==> SomeHolds(values, MapRefs(mapping, lits))
  {
    forall i | 0 <= i < |lits| {
      MapRefValue(mapping, values, lits[i]);
    }
  }

  lemma {:induction false} CountHoldingMapped(mapping: seq<int>, values: Assignment, lits: seq<int>)
    requires LandsBelow(mapping, lits, |values|)
    ensures CountHolding(Pullback(mapping, values), lits) == CountHolding(values, MapRefs(mapping, lits))
    decreases |lits|
  {
    if |lits| > 0 {
      var front := lits[..|lits| - 1];
      CountHoldingMapped(mapping, values, front);
      MapRefValue(mapping, values, lits[|lits| - 1]);
      assert MapRefs(mapping, lits)[..|lits| - 1] == MapRefs(mapping, front);
    }
  }

  lemma {:induction false} WeightedSumMapped(mapping: seq<int>, values: Assignment, vars: seq<int>, coeffs: seq<int>)
    requires |vars| == |coeffs| && LandsBelow(mapping, vars, |values|)
    ensures WeightedSum(Pullback(mapping, values), vars, coeffs) == WeightedSum(values, MapRefs(mapping, vars), coeffs)
    decreases |vars|
  {
    if |vars| > 0 {
      var front := vars[..|vars| - 1];
      WeightedSumMapped(mapping, values, front, coeffs[..|coeffs| - 1]);
      MapRefValue(mapping, values, vars[|vars| - 1]);
      assert MapRefs(mapping, vars)[..|vars| - 1] == MapRefs(mapping, front);
    }
  }

  /**
   * Renaming keeps the meaning: an assignment of the new variables satisfies
   * the renamed constraint exactly when the old variables, read through the
   * mapping, satisfy the original one.
   */
  lemma ConstraintMeaning(mapping: seq<int>, values: Assignment, ct: Constraint)
    requires Mappable(mapping, ct) && HasMeaning(ct.body) && LandsBelow(mapping, References(ct), |values|)
    ensures Holds(Pullback(mapping, values), ct) <==> Holds(values, MapConstraint(mapping, ct))
  {
    ReferencesSplit(ct);
    MapRefsAppend(mapping, ct.enforcement, BodyReferences(ct.body));
    LandsBelowSplit(mapping, ct.enforcement, BodyReferences(ct.body), |values|);
    AllHoldMapped(mapping, values, ct.enforcement);
    match ct.body
    case Empty =>
    case BoolOr(lits) => SomeHoldsMapped(mapping, values, lits);
    case BoolAnd(lits) => AllHoldMapped(mapping, values, lits);
    case AtMostOne(lits) => CountHoldingMapped(mapping, values, lits);
    case Linear(arg) => WeightedSumMapped(mapping, values, arg.vars, arg.coeffs);
  }

  // ---------------------------------------------------------------------
  // Search strategies: only the surviving references stay

  /** The renamings of the references of `refs` that survive, in order. */
  function KeptRefs(mapping: seq<int>, refs: seq<int>): seq<int>
    requires AllInMapping(mapping, refs)
  {
    if |refs| == 0 then []
    else
      var last := refs[|refs| - 1];
      KeptRefs(mapping, refs[..|refs| - 1]) + if Survives(mapping, last) then [MapRef(mapping, last)] else []
  }

  /** A kept reference is the renaming of a surviving one, and every surviving one is kept; none is added. */
  lemma {:induction false} KeptRefsMembers(mapping: seq<int>, refs: seq<int>)
    requires AllInMapping(mapping, refs)
    ensures |KeptRefs(mapping, refs)| <= |refs|
    ensures forall r :: r in KeptRefs(mapping, refs) <==> exists i :: 0 <= i < |refs| && Survives(mapping, refs[i]) && r == MapRef(mapping, refs[i])
    ensures AllSurvive(mapping, refs) ==> KeptRefs(mapping, refs) == MapRefs(mapping, refs)
    decreases |refs|
  {
    if |refs| > 0 {
      var front := refs[..|refs| - 1];
      KeptRefsMembers(mapping, front);
      forall r
        ensures r in KeptRefs(mapping, refs) <==> exists i :: 0 <= i < |refs| && Survives(mapping, refs[i]) && r == MapRef(mapping, refs[i])
      {
        if r in KeptRefs(mapping, front) {
          var i :| 0 <= i < |front| && Survives(mapping, front[i]) && r == MapRef(mapping, front[i]);
          assert refs[i] == front[i];
        }
        if exists i :: 0 <= i < |refs| && Survives(mapping, refs[i]) && r == MapRef(mapping, refs[i]) {
          var i :| 0 <= i < |refs| && Survives(mapping, refs[i]) && r == MapRef(mapping, refs[i]);
          if i < |front| {
            assert front[i] == refs[i];
          }
        }
      }
      if AllSurvive(mapping, refs) {
        assert MapRefs(mapping, refs) == MapRefs(mapping, front) + [MapRef(mapping, refs[|refs| - 1])];
      }
    }
  }

  predicate TransformationsInMapping(mapping: seq<int>, ts: seq<Transformation>)
  {
    forall i :: 0 <= i < |ts| ==> InMapping(mapping, ts[i].variable)
  }

  /** The transformations whose variable survives, renamed, in order. */
  function KeptTransformations(mapping: seq<int>, ts: seq<Transformation>): seq<Transformation>
    requires TransformationsInMapping(mapping, ts)
  {
    if |ts| == 0 then []
    else
      var last := ts[|ts| - 1];
      KeptTransformations(mapping, ts[..|ts| - 1]) +
      if Survives(mapping, last.variable) then [last.(variable := MapRef(mapping, last.variable))] else []
  }

  /** A kept transformation is a surviving one renamed, with its offset and coefficient; every surviving one is kept. */
  lemma {:induction false} KeptTransformationsMembers(mapping: seq<int>, ts: seq<Transformation>)
    requires TransformationsInMapping(mapping, ts)
    ensures forall t :: t in KeptTransformations(mapping, ts) <==>
      exists i :: 0 <= i < |ts| && Survives(mapping, ts[i].variable) && t == ts[i].(variable := MapRef(mapping, ts[i].variable))
    decreases |ts|
  {
    if |ts| > 0 {
      var front := ts[..|ts| - 1];
      KeptTransformationsMembers(mapping, front);
      forall t
        ensures t in KeptTransformations(mapping, ts) <==>
          exists i :: 0 <= i < |ts| && Survives(mapping, ts[i].variable) && t == ts[i].(variable := MapRef(mapping, ts[i].variable))
      {
        if t in KeptTransformations(mapping, front) {
          var i :| 0 <= i < |front| && Survives(mapping, front[i].variable) && t == front[i].(variable := MapRef(mapping, front[i].variable));
          assert ts[i] == front[i];
        }
        if exists i :: 0 <= i < |ts| && Survives(mapping, ts[i].variable) && t == ts[i].(variable := MapRef(mapping, ts[i].variable)) {
          var i :| 0 <= i < |ts| && Survives(mapping, ts[i].variable) && t == ts[i].(variable := MapRef(mapping, ts[i].variable));
          if i < |front| {
            assert front[i] == ts[i];
          }
        }
      }
    }
  }

  predicate StrategyInMapping(mapping: seq<int>, s: Strategy)
  {
    AllInMapping(mapping, s.variables) && TransformationsInMapping(mapping, s.transformations)
  }

  /** A strategy with its dropped references and transformations deleted and the others renamed. */
  method RemapStrategy(mapping: seq<int>, s: Strategy) returns (r: Strategy)
    requires StrategyInMapping(mapping, s)
    ensures r == s.(variables := KeptRefs(mapping, s.variables), transformations := KeptTransformations(mapping, s.transformations))
  {
    var vars: seq<int> := [];
    for i := 0 to |s.variables|
      invariant vars == KeptRefs(mapping, s.variables[..i])
    {
      assert s.variables[..i + 1][..i] == s.variables[..i];
      var ref := s.variables[i];
      var image := mapping[PositiveRef(ref)];
      if image >= 0 {
        vars := vars + [if RefIsPositive(ref) then image else NegatedRef(image)];
      }
    }
    assert s.variables[..|s.variables|] == s.variables;
    var ts: seq<Transformation> := [];
    for i := 0 to |s.transformations|
      invariant ts == KeptTransformations(mapping, s.transformations[..i])
    {
      assert s.transformations[..i + 1][..i] == s.transformations[..i];
      var t := s.transformations[i];
      var image := mapping[PositiveRef(t.variable)];
      if image >= 0 {
        ts := ts + [t.(variable := if RefIsPositive(t.variable) then image else NegatedRef(image))];
      }
    }
    assert s.transformations[..|s.transformations|] == s.transformations;
    r := s.(variables := vars, transformations := ts);
  }

  // ---------------------------------------------------------------------
  // Solution hint: compacted in place

  /** The hinted values whose reference survives, in order. */
  function KeptValues(mapping: seq<int>, refs: seq<int>, values: seq<int>): (r: seq<int>)
    requires AllInMapping(mapping, refs) && |values| == |refs|
    ensures |r| == |KeptRefs(mapping, refs)|
  {
    if |refs| == 0 then []
    else
      KeptValues(mapping, refs[..|refs| - 1], values[..|values| - 1]) +
      if Survives(mapping, refs[|refs| - 1]) then [values[|values| - 1]] else []
  }

  /** The `k`-th kept pair is a surviving pair of the hint, renamed, with its value. */
  lemma {:induction false} KeptHintPairs(mapping: seq<int>, refs: seq<int>, values: seq<int>, k: nat)
    requires AllInMapping(mapping, refs) && |values| == |refs| && k < |KeptRefs(mapping, refs)|
    ensures exists i :: (0 <= i < |refs| && Survives(mapping, refs[i]) &&
      KeptRefs(mapping, refs)[k] == MapRef(mapping, refs[i]) && KeptValues(mapping, refs, values)[k] == values[i])
    decreases |refs|
  {
    var front, vfront := refs[..|refs| - 1], values[..|values| - 1];
    if k < |KeptRefs(mapping, front)| {
      KeptHintPairs(mapping, front, vfront, k);
      var i :| 0 <= i < |front| && Survives(mapping, front[i]) &&
        KeptRefs(mapping, front)[k] == MapRef(mapping, front[i]) && KeptValues(mapping, front, vfront)[k] == vfront[i];
      assert refs[i] == front[i] && values[i] == vfront[i];
    } else {
      var i := |refs| - 1;
      assert Survives(mapping, refs[i]);
    }
  }

  /**
   * The in-place compaction of the hint: each surviving pair is written,
   * renamed, at the next free position, and the length of the kept part is
   * returned.
   */
  method CompactHint(mapping: seq<int>, vars: array<int>, values: array<int>) returns (newSize: nat)
    requires vars != values && vars.Length == values.Length && AllInMapping(mapping, vars[..])
    modifies vars, values
    ensures newSize <= vars.Length
    ensures vars[..newSize] == KeptRefs(mapping, old(vars[..]))
    ensures values[..newSize] == KeptValues(mapping, old(vars[..]), old(values[..]))
  {
    ghost var refs0, values0 := vars[..], values[..];
    newSize := 0;
    for i := 0 to vars.Length
      invariant newSize == |KeptRefs(mapping, refs0[..i])| <= i
      invariant vars[..] == KeptRefs(mapping, refs0[..i]) + refs0[newSize..]
      invariant values[..] == KeptValues(mapping, refs0[..i], values0[..i]) + values0[newSize..]
    {
      newSize := CompactPair(mapping, vars, values, newSize, i, refs0, values0);
    }
    assert refs0[..vars.Length] == refs0 && values0[..values.Length] == values0;
    assert vars[..newSize] == (vars[..])[..newSize];
    assert values[..newSize] == (values[..])[..newSize];
  }

  /** One step of the compaction: pair `i` is copied, renamed, to position `newSize` when its reference survives. */
  method CompactPair(mapping: seq<int>, vars: array<int>, values: array<int>, newSize: nat, i: nat,
                     ghost refs0: seq<int>, ghost values0: seq<int>) returns (next: nat)
    requires vars != values && vars.Length == values.Length == |refs0| == |values0| && i < |refs0|
    requires AllInMapping(mapping, refs0)
    requires newSize == |KeptRefs(mapping, refs0[..i])| <= i
    requires vars[..] == KeptRefs(mapping, refs0[..i]) + refs0[newSize..]
    requires values[..] == KeptValues(mapping, refs0[..i], values0[..i]) + values0[newSize..]
    modifies vars, values
    ensures next == |KeptRefs(mapping, refs0[..i + 1])| <= i + 1
    ensures vars[..] == KeptRefs(mapping, refs0[..i + 1]) + refs0[next..]
    ensures values[..] == KeptValues(mapping, refs0[..i + 1], values0[..i + 1]) + values0[next..]
  {
    KeptStep(mapping, refs0, values0, i);
    assert vars[i] == refs0[i] && values[i] == values0[i];
    var ref := vars[i];
    var image := mapping[PositiveRef(ref)];
    next := newSize;
    if image >= 0 {
      WriteAt(KeptRefs(mapping, refs0[..i]), refs0, MapRef(mapping, ref));
      WriteAt(KeptValues(mapping, refs0[..i], values0[..i]), values0, values[i]);
      vars[newSize] := if RefIsPositive(ref) then image else NegatedRef(image);
      values[newSize] := values[i];
      next := newSize + 1;
    }
  }

  /** One more pair of the hint considered: it is kept, renamed, exactly when its reference survives. */
  lemma KeptStep(mapping: seq<int>, refs: seq<int>, values: seq<int>, i: nat)
    requires AllInMapping(mapping, refs) && |values| == |refs| && i < |refs|
    ensures AllInMapping(mapping, refs[..i]) && AllInMapping(mapping, refs[..i + 1])
    ensures KeptRefs(mapping, refs[..i + 1]) ==
      KeptRefs(mapping, refs[..i]) + if Survives(mapping, refs[i]) then [MapRef(mapping, refs[i])] else []
    ensures KeptValues(mapping, refs[..i + 1], values[..i + 1]) ==
      KeptValues(mapping, refs[..i], values[..i]) + if Survives(mapping, refs[i]) then [values[i]] else []
  {
    assert refs[..i + 1][..i] == refs[..i] && values[..i + 1][..i] == values[..i];
  }

  /** Writing the next kept entry over the first stale one. */
  lemma WriteAt(kept: seq<int>, rest: seq<int>, x: int)
    requires |kept| < |rest|
    ensures (kept + rest[|kept|..])[|kept| := x] == (kept + [x]) + rest[|kept| + 1..]
  {
  }

  predicate HintInMapping(mapping: seq<int>, hint: Option<Hint>)
  {
    hint.Some? ==> AllInMapping(mapping, hint.value.vars) && |hint.value.values| == |hint.value.vars|
  }

  /** The remapped hint: the surviving pairs, or no hint at all when none survives. */
  method RemapHint(mapping: seq<int>, hint: Option<Hint>) returns (r: Option<Hint>)
    requires HintInMapping(mapping, hint)
    ensures hint.None? ==> r.None?
    ensures hint.Some? ==> var kept := KeptRefs(mapping, hint.value.vars);
      r == if kept == [] then None else Some(Hint(kept, KeptValues(mapping, hint.value.vars, hint.value.values)))
  {
    if hint.None? {
      return None;
    }
    var vars := new int[|hint.value.vars|](i requires 0 <= i < |hint.value.vars| => hint.value.vars[i]);
    var values := new int[|hint.value.values|](i requires 0 <= i < |hint.value.values| => hint.value.values[i]);
    assert vars[..] == hint.value.vars && values[..] == hint.value.values;
    var newSize := CompactHint(mapping, vars, values);
    if newSize > 0 {
      r := Some(Hint(vars[..newSize], values[..newSize]));
    } else {
      r := None;
    }
  }

  // ---------------------------------------------------------------------
  // Moving the variable definitions

  /** One more than the largest new index among the first `n` variables, 0 if none survives. */
  function ImageCount(mapping: seq<int>, n: nat): (count: nat)
    requires n <= |mapping|
    ensures forall i :: 0 <= i < n ==> mapping[i] < count
    ensures count > 0 ==> exists i :: 0 <= i < n && mapping[i] == count - 1
  {
    if n == 0 then 0
    else
      var previous := ImageCount(mapping, n - 1);
      if mapping[n - 1] + 1 > previous then mapping[n - 1] + 1 else previous
  }

  /** The last of the first `n` variables whose new index is `k`, or -1 when there is none. */
  function LastPreimage(mapping: seq<int>, k: nat, n: nat): (i: int)
    requires n <= |mapping|
    ensures -1 <= i < n
    ensures i >= 0 ==> mapping[i] == k && forall j :: i < j < n ==> mapping[j] != k
    ensures i < 0 ==> forall j :: 0 <= j < n ==> mapping[j] != k
  {
    if n == 0 then -1
    else if mapping[n - 1] == k then n - 1
    else LastPreimage(mapping, k, n - 1)
  }

  /** What slot `k` holds once the first `n` variables have moved: the last of them sent there. */
  function Moved(mapping: seq<int>, variables: seq<Variable>, k: nat, n: nat): Variable
    requires n <= |mapping| <= |variables|
  {
    var i := LastPreimage(mapping, k, n);
    if i >= 0 then variables[i] else Unset
  }

  /**
   * The moved definitions: a slot per new index up to the largest, each
   * holding the definition of the last variable sent there, and `Unset`
   * where none was.
   */
  method MoveVariables(mapping: seq<int>, variables: seq<Variable>) returns (moved: seq<Variable>)
    requires |mapping| <= |variables|
    ensures |moved| == ImageCount(mapping, |mapping|)
    ensures forall k :: 0 <= k < |moved| ==> moved[k] == Moved(mapping, variables, k, |mapping|)
  {
    moved := [];
    for i := 0 to |mapping|
      invariant |moved| == ImageCount(mapping, i)
      invariant forall k :: 0 <= k < |moved| ==> moved[k] == Moved(mapping, variables, k, i)
    {
      var image := mapping[i];
      if image < 0 {
        continue;
      }
      if image >= |moved| {
        moved := moved + seq(image + 1 - |moved|, _ => Unset);
      }
      moved := moved[image := variables[i]];
    }
  }

  /** Some variable is sent to the new index `k`. */
  predicate HasPreimage(mapping: seq<int>, k: nat)
  {
    exists i :: 0 <= i < |mapping| && mapping[i] == k
  }

  /** Every moved slot has a definition with a non-empty domain. */
  predicate AllDefined(moved: seq<Variable>)
  {
    forall k :: 0 <= k < |moved| ==> moved[k].domain != []
  }

  /**
   * The final check passes exactly when every new index below the largest
   * receives a variable, provided the surviving variables had non-empty
   * domains.
   */
  lemma DefinedMeansOnto(mapping: seq<int>, variables: seq<Variable>)
    requires |mapping| <= |variables|
    requires forall i :: 0 <= i < |mapping| && mapping[i] >= 0 ==> variables[i].domain != []
    ensures (forall k :: 0 <= k < ImageCount(mapping, |mapping|) ==> Moved(mapping, variables, k, |mapping|).domain != []) <==>
      (forall k :: 0 <= k < ImageCount(mapping, |mapping|) ==> HasPreimage(mapping, k))
  {
    forall k | 0 <= k < ImageCount(mapping, |mapping|)
      ensures Moved(mapping, variables, k, |mapping|).domain != [] <==> HasPreimage(mapping, k)
    {
      var i := LastPreimage(mapping, k, |mapping|);
      if i < 0 {
        assert Moved(mapping, variables, k, |mapping|) == Unset;
      }
    }
  }

  /** No two surviving variables share a new index. */
  predicate Injective(mapping: seq<int>)
  {
    forall i, j :: 0 <= i < j < |mapping| && mapping[i] >= 0 ==> mapping[i] != mapping[j]
  }

  /** When no two variables share a new index, each surviving variable's definition lands at its new index. */
  lemma InjectiveMovesDefinition(mapping: seq<int>, variables: seq<Variable>, v: nat)
    requires |mapping| <= |variables| && Injective(mapping) && v < |mapping| && mapping[v] >= 0
    ensures mapping[v] < ImageCount(mapping, |mapping|)
    ensures Moved(mapping, variables, mapping[v], |mapping|) == variables[v]
  {
    var i := LastPreimage(mapping, mapping[v], |mapping|);
  }

  // ---------------------------------------------------------------------
  // The whole model

  /** Every reference of the model names a variable the mapping covers, and there is a mapping entry per variable at most. */
  predicate ModelInMapping(mapping: seq<int>, model: Model)
  {
    |mapping| <= |model.variables| &&
    (forall c :: 0 <= c < |model.constraints| ==> AllInMapping(mapping, References(model.constraints[c]))) &&
    (model.objective.Some? ==> AllInMapping(mapping, model.objective.value.vars)) &&
    (forall s :: 0 <= s < |model.strategies| ==> StrategyInMapping(mapping, model.strategies[s])) &&
    HintInMapping(mapping, model.hint)
  }

  /** The references of the constraints and of the objective all survive, as the renaming checks. */
  predicate ReferencesSurvive(mapping: seq<int>, model: Model)
  {
    (forall c :: 0 <= c < |model.constraints| ==> Mappable(mapping, model.constraints[c])) &&
    (model.objective.Some? ==> AllSurvive(mapping, model.objective.value.vars))
  }

  /**
   * The renumbered model, or `None` where the code stops on a failed
   * check: a constraint or objective reference whose variable is dropped,
   * or a new index that receives no variable definition.
   */
  method ApplyVariableMapping(mapping: seq<int>, model: Model) returns (r: Option<Model>)
    requires ModelInMapping(mapping, model)
    ensures r.Some? <==> (ReferencesSurvive(mapping, model) &&
      forall k :: 0 <= k < ImageCount(mapping, |mapping|) ==> Moved(mapping, model.variables, k, |mapping|).domain != [])
    ensures r.Some? ==> (|r.value.variables| == ImageCount(mapping, |mapping|) &&
      forall k :: 0 <= k < |r.value.variables| ==> r.value.variables[k] == Moved(mapping, model.variables, k, |mapping|))
    ensures r.Some? ==> (|r.value.constraints| == |model.constraints| &&
      forall c :: 0 <= c < |model.constraints| ==> r.value.constraints[c] == MapConstraint(mapping, model.constraints[c]))
    ensures r.Some? && model.objective.Some? ==>
      r.value.objective == Some(model.objective.value.(vars := MapRefs(mapping, model.objective.value.vars)))
    ensures r.Some? && model.objective.None? ==> r.value.objective.None?
    ensures r.Some? ==> (|r.value.strategies| == |model.strategies| &&
      forall s :: 0 <= s < |model.strategies| ==> r.value.strategies[s] == model.strategies[s].(
        variables := KeptRefs(mapping, model.strategies[s].variables),
        transformations := KeptTransformations(mapping, model.strategies[s].transformations)))
    ensures r.Some? && model.hint.None? ==> r.value.hint.None?
    ensures r.Some? && model.hint.Some? ==> var kept := KeptRefs(mapping, model.hint.value.vars);
      r.value.hint == if kept == [] then None else Some(Hint(kept, KeptValues(mapping, model.hint.value.vars, model.hint.value.values)))
  {
    if exists c :: 0 <= c < |model.constraints| && !Mappable(mapping, model.constraints[c]) {
      return None;
    }
    var constraints := seq(|model.constraints|, c requires 0 <= c < |model.constraints| => MapConstraint(mapping, model.constraints[c]));
    var objective := model.objective;
    if objective.Some? {
      if !AllSurvive(mapping, objective.value.vars) {
        return None;
      }
      objective := Some(objective.value.(vars := MapRefs(mapping, objective.value.vars)));
    }
    var strategies: seq<Strategy> := [];
    for s := 0 to |model.strategies|
      invariant |strategies| == s
      invariant forall t :: 0 <= t < s ==> strategies[t] == model.strategies[t].(
        variables := KeptRefs(mapping, model.strategies[t].variables),
        transformations := KeptTransformations(mapping, model.strategies[t].transformations))
    {
      var remapped := RemapStrategy(mapping, model.strategies[s]);
      strategies := strategies + [remapped];
    }
    var hint := RemapHint(mapping, model.hint);
    var moved := MoveVariables(mapping, model.variables);
    if !AllDefined(moved) {
      return None;
    }
    r := Some(Model(moved, constraints, objective, strategies, hint));
  }
}
