/**
 * The read-only queries of the integer trail about reasons, stated on the
 * values of its fields: dropping the literals that hold at level zero,
 * listing the first bound change of every variable, loosening a linear
 * reason within a slack, and collecting the literals of stored reasons.
 */
module TrailReasons {
  import opened IntegerTypes
  import opened Sat
  import opened TrailModel

  // ---------------------------------------------------------------------
  // Literals that need no reason

  /** Every literal of `reason` is about a variable that has a level-zero entry. */
  ghost predicate AboutVariables(numVars: nat, reason: seq<IntegerLiteral>)
  {
    forall k :: 0 <= k < |reason| ==> reason[k].variable < numVars
  }

  /** `lit` is not already true at level zero. */
  predicate AboveLevelZero(trail: seq<TrailEntry>, lit: IntegerLiteral)
    requires lit.variable < |trail|
  {
    lit.bound > trail[lit.variable].bound
  }

  /** The literals of `reason` that are not true at level zero, in their order. */
  function WithoutLevelZero(trail: seq<TrailEntry>, reason: seq<IntegerLiteral>): seq<IntegerLiteral>
    requires forall k :: 0 <= k < |reason| ==> reason[k].variable < |trail|
  {
    if reason == [] then []
    else
      var init := WithoutLevelZero(trail, reason[..|reason| - 1]);
      var lit := reason[|reason| - 1];
      if AboveLevelZero(trail, lit) then init + [lit] else init
  }

  /** Exactly the literals of `reason` above level zero are kept. */
  lemma {:induction false} WithoutLevelZeroMembers(trail: seq<TrailEntry>, reason: seq<IntegerLiteral>)
    requires forall k :: 0 <= k < |reason| ==> reason[k].variable < |trail|
    ensures |WithoutLevelZero(trail, reason)| <= |reason|
    ensures forall lit :: lit in WithoutLevelZero(trail, reason) <==> lit in reason && AboveLevelZero(trail, lit)
  {
    if reason != [] {
      var init := reason[..|reason| - 1];
      WithoutLevelZeroMembers(trail, init);
      assert reason == init + [reason[|reason| - 1]];
    }
  }

  /** Filtering a concatenation filters each part: the order of the kept literals is the order in `reason`. */
  lemma {:induction false} WithoutLevelZeroAppend(trail: seq<TrailEntry>, a: seq<IntegerLiteral>, b: seq<IntegerLiteral>)
    requires forall k :: 0 <= k < |a| ==> a[k].variable < |trail|
    requires forall k :: 0 <= k < |b| ==> b[k].variable < |trail|
    ensures WithoutLevelZero(trail, a + b) == WithoutLevelZero(trail, a) + WithoutLevelZero(trail, b)
    decreases |b|
  {
    if b == [] {
      assert a + b == a;
    } else {
      var b' := b[..|b| - 1];
      assert (a + b)[..|a + b| - 1] == a + b';
      WithoutLevelZeroAppend(trail, a, b');
    }
  }

  /** Filtering twice is filtering once. */
  lemma {:induction false} WithoutLevelZeroIsIdempotent(trail: seq<TrailEntry>, reason: seq<IntegerLiteral>)
    requires forall k :: 0 <= k < |reason| ==> reason[k].variable < |trail|
    ensures var r := WithoutLevelZero(trail, reason);
      (forall k :: 0 <= k < |r| ==> r[k].variable < |trail|) && WithoutLevelZero(trail, r) == r
  {
    if reason != [] {
      var init := reason[..|reason| - 1];
      var lit := reason[|reason| - 1];
      WithoutLevelZeroIsIdempotent(trail, init);
      var r0 := WithoutLevelZero(trail, init);
      if AboveLevelZero(trail, lit) {
        WithoutLevelZeroAppend(trail, r0, [lit]);
        assert [lit][..0] == [];
      }
    }
  }

  /** Compacts `reason` to its literals that are not true at level zero. */
  method RemoveLevelZeroBounds(trail: seq<TrailEntry>, reason: seq<IntegerLiteral>) returns (r: seq<IntegerLiteral>)
    requires forall k :: 0 <= k < |reason| ==> reason[k].variable < |trail|
    ensures r == WithoutLevelZero(trail, reason)
  {
    r := [];
    var k := 0;
    while k < |reason|
      invariant 0 <= k <= |reason|
      invariant r == WithoutLevelZero(trail, reason[..k])
    {
      assert reason[..k + 1][..k] == reason[..k];
      var lit := reason[k];
      if lit.bound > trail[lit.variable].bound {
        r := r + [lit];
      }
      k := k + 1;
    }
    assert reason[..k] == reason;
  }

  // ---------------------------------------------------------------------
  // The first new bound of each variable

  /** The variables of the entries `numVars..n` of the trail (Boolean entries excepted). */
  ghost function VariablesBetween(numVars: nat, trail: seq<TrailEntry>, n: int): set<int>
    requires n <= |trail|
  {
    set t | numVars <= t < n && trail[t].variable >= 0 :: trail[t].variable
  }

  /** Entry `t` is the first entry of its variable past the level-zero ones. */
  ghost predicate IsFirstNewEntry(numVars: nat, trail: seq<TrailEntry>, t: int)
  {
    numVars <= t < |trail| && trail[t].variable >= 0 &&
    forall u :: numVars <= u < t ==> trail[u].variable != trail[t].variable
  }

  /** For each variable with an entry among `numVars..n`, its first such entry as `var >= bound`, in trail order. */
  ghost function NewBounds(numVars: nat, trail: seq<TrailEntry>, n: int): seq<IntegerLiteral>
    requires n <= |trail|
    decreases n
  {
    if n <= numVars then []
    else
      var e := trail[n - 1];
      if e.variable < 0 || e.variable in VariablesBetween(numVars, trail, n - 1) then NewBounds(numVars, trail, n - 1)
      else NewBounds(numVars, trail, n - 1) + [GreaterOrEqual(e.variable, e.bound)]
  }

  /** The variables of a list of literals. */
  ghost function VariablesOf(s: seq<IntegerLiteral>): set<int>
  {
    set k | 0 <= k < |s| :: s[k].variable as int
  }

  /** No variable appears twice in `s`. */
  ghost predicate DistinctVariables(s: seq<IntegerLiteral>)
  {
    forall j, k :: 0 <= j < k < |s| ==> s[j].variable != s[k].variable
  }

  /** The new bounds list every variable with an entry past level zero, once. */
  lemma {:induction false} NewBoundsListEachVariableOnce(numVars: nat, trail: seq<TrailEntry>, n: int)
    requires n <= |trail|
    ensures VariablesOf(NewBounds(numVars, trail, n)) == VariablesBetween(numVars, trail, n)
    ensures DistinctVariables(NewBounds(numVars, trail, n))
    decreases n
  {
    if n > numVars {
      NewBoundsListEachVariableOnce(numVars, trail, n - 1);
      var e := trail[n - 1];
      var prev := NewBounds(numVars, trail, n - 1);
      assert VariablesBetween(numVars, trail, n) == VariablesBetween(numVars, trail, n - 1) + (if e.variable >= 0 then {e.variable} else {}) by {
        forall v | v in VariablesBetween(numVars, trail, n) ensures v in VariablesBetween(numVars, trail, n - 1) || v == e.variable {
          var t :| numVars <= t < n && trail[t].variable >= 0 && trail[t].variable == v;
          if t < n - 1 {
            assert v in VariablesBetween(numVars, trail, n - 1);
          }
        }
        if e.variable >= 0 {
          assert trail[n - 1].variable in VariablesBetween(numVars, trail, n);
        }
      }
      if e.variable >= 0 && e.variable !in VariablesBetween(numVars, trail, n - 1) {
        var r := prev + [GreaterOrEqual(e.variable, e.bound)];
        assert VariablesOf(r) == VariablesOf(prev) + {e.variable} by {
          forall v | v in VariablesOf(r) ensures v in VariablesOf(prev) || v == e.variable {
            var k :| 0 <= k < |r| && r[k].variable == v;
            if k < |prev| {
              assert prev[k].variable == v;
            }
          }
          forall v | v in VariablesOf(prev) ensures v in VariablesOf(r) {
            var k :| 0 <= k < |prev| && prev[k].variable == v;
            assert r[k].variable == v;
          }
          assert r[|prev|].variable == e.variable;
        }
        forall j | 0 <= j < |prev| ensures prev[j].variable != e.variable {
          assert prev[j].variable in VariablesOf(prev);
        }
      }
    }
  }

  /** Each new bound is the first entry of its variable past the level-zero ones. */
  lemma {:induction false} NewBoundsAreFirstEntries(numVars: nat, trail: seq<TrailEntry>, n: int)
    requires n <= |trail|
    ensures forall k :: 0 <= k < |NewBounds(numVars, trail, n)| ==>
      exists t :: numVars <= t < n && IsFirstNewEntry(numVars, trail, t) &&
        NewBounds(numVars, trail, n)[k] == GreaterOrEqual(trail[t].variable, trail[t].bound)
    decreases n
  {
    if n > numVars {
      NewBoundsAreFirstEntries(numVars, trail, n - 1);
      var e := trail[n - 1];
      if e.variable >= 0 && e.variable !in VariablesBetween(numVars, trail, n - 1) {
        forall u | numVars <= u < n - 1 ensures trail[u].variable != e.variable {
          if trail[u].variable >= 0 {
            assert trail[u].variable in VariablesBetween(numVars, trail, n - 1);
          }
        }
        assert IsFirstNewEntry(numVars, trail, n - 1);
      }
      var r := NewBounds(numVars, trail, n);
      var prev := NewBounds(numVars, trail, n - 1);
      forall k | 0 <= k < |r|
        ensures exists t :: numVars <= t < n && IsFirstNewEntry(numVars, trail, t) && r[k] == GreaterOrEqual(trail[t].variable, trail[t].bound)
      {
        if k < |prev| {
          assert r[k] == prev[k];
          var t :| numVars <= t < n - 1 && IsFirstNewEntry(numVars, trail, t) && prev[k] == GreaterOrEqual(trail[t].variable, trail[t].bound);
        } else {
          assert IsFirstNewEntry(numVars, trail, n - 1) && r[k] == GreaterOrEqual(trail[n - 1].variable, trail[n - 1].bound);
        }
      }
      assert r == NewBounds(numVars, trail, n);
      assert forall k :: 0 <= k < |r| ==> exists t :: numVars <= t < n && IsFirstNewEntry(numVars, trail, t) && r[k] == GreaterOrEqual(trail[t].variable, trail[t].bound);
    } else {
      assert NewBounds(numVars, trail, n) == [];
    }
  }

  /**
   * Appends to `output` the first new bound of every variable: one pass
   * over the trail past level zero, marking the variables already listed.
   */
  method AppendNewBounds(numVars: nat, trail: seq<TrailEntry>, output: seq<IntegerLiteral>) returns (r: seq<IntegerLiteral>)
    requires numVars <= |trail|
    requires forall t :: numVars <= t < |trail| ==> kNoIntegerVariable <= trail[t].variable < numVars
    ensures r == output + NewBounds(numVars, trail, |trail|)
  {
    r := output;
    var marked: set<int> := {};
    var i := numVars;
    while i < |trail|
      invariant numVars <= i <= |trail|
      invariant marked == VariablesBetween(numVars, trail, i)
      invariant r == output + NewBounds(numVars, trail, i)
    {
      var entry := trail[i];
      ghost var seen := VariablesBetween(numVars, trail, i + 1);
      assert seen == marked + (if entry.variable >= 0 then {entry.variable} else {}) by {
        forall v | v in seen ensures v in marked || v == entry.variable {
          var t :| numVars <= t < i + 1 && trail[t].variable >= 0 && trail[t].variable == v;
          if t < i {
            assert v in VariablesBetween(numVars, trail, i);
          }
        }
        if entry.variable >= 0 {
          assert trail[i].variable in seen;
        }
      }
      if entry.variable != kNoIntegerVariable && entry.variable !in marked {
        marked := marked + {entry.variable};
        r := r + [GreaterOrEqual(entry.variable, entry.bound)];
      } else if entry.variable == kNoIntegerVariable {
        assert entry.variable < 0;
      }
      i := i + 1;
    }
  }

  // ---------------------------------------------------------------------
  // The entry that explains a literal

  /** The first entry from `k` on of `v` with a bound of at least `b`, or -1. */
  ghost function FirstReaching(trail: seq<TrailEntry>, v: int, b: int, k: nat): (r: int)
    ensures r == -1 || (k <= r < |trail| && trail[r].variable == v && trail[r].bound >= b)
    decreases |trail| - k
  {
    if k >= |trail| then -1
    else if trail[k].variable == v && trail[k].bound >= b then k
    else FirstReaching(trail, v, b, k + 1)
  }

  /** The lowest explaining entry is the first one reaching the bound. */
  lemma {:induction false} LowestIsFirstReaching(trail: seq<TrailEntry>, v: int, b: int, r: int, k: nat)
    requires IsLowestExplaining(trail, v, b, r) && k <= r
    ensures FirstReaching(trail, v, b, k) == r
    decreases r - k
  {
    if k < r {
      assert !(trail[k].variable == v && trail[k].bound >= b);
      LowestIsFirstReaching(trail, v, b, r, k + 1);
    }
  }

  /** An entry reaching the bound bounds the first one reaching it. */
  lemma {:induction false} FirstReachingIsAtMost(trail: seq<TrailEntry>, v: int, b: int, k: nat, u: int)
    requires k <= u < |trail| && trail[u].variable == v && trail[u].bound >= b
    ensures 0 <= FirstReaching(trail, v, b, k) <= u
    decreases u - k
  {
    if k < u {
      FirstReachingIsAtMost(trail, v, b, k + 1, u);
    }
  }

  /** The index of the entry that first made `lit` true, or -1 when `lit` holds at level zero. */
  ghost function ExplainingIndex(trail: seq<TrailEntry>, lit: IntegerLiteral): int
    requires lit.variable < |trail|
  {
    if AboveLevelZero(trail, lit) then FirstReaching(trail, lit.variable, lit.bound, 0) else -1
  }

  /**
   * The trail index that explains `lit`, a literal that currently holds:
   * -1 when it holds at level zero, otherwise the first entry of its
   * variable whose bound reaches it, found by walking the chain back
   * from the current entry.
   */
  method FindLowestIndex(vars: seq<VarInfo>, trail: seq<TrailEntry>, lit: IntegerLiteral) returns (r: int)
    requires InitialEntries(|vars|, trail) && CurrentIsLast(vars, trail) && ChainLinked(|vars|, trail)
    requires lit.variable < |vars| && lit.bound <= vars[lit.variable].currentBound
    ensures r == ExplainingIndex(trail, lit)
    ensures r == -1 || (|vars| <= r && IsLowestExplaining(trail, lit.variable, lit.bound, r))
  {
    if lit.bound <= trail[lit.variable].bound {
      return -1;
    }
    r := WalkToLowest(|vars|, trail, lit.variable, lit.bound, vars[lit.variable].currentTrailIndex);
    LowestIsFirstReaching(trail, lit.variable, lit.bound, r, 0);
  }

  /**
   * A literal that held on the trail before entry `t` still holds, and the
   * entry explaining it precedes `t` and is not a level-zero entry.
   */
  lemma ExplainedBefore(vars: seq<VarInfo>, trail: seq<TrailEntry>, t: int, lit: IntegerLiteral)
    requires InitialEntries(|vars|, trail) && CurrentIsLast(vars, trail) && ChainLinked(|vars|, trail)
    requires 0 <= t <= |trail| && lit.variable < |vars| && Explained(trail[..t], lit)
    ensures lit.bound <= vars[lit.variable].currentBound
    ensures var d := ExplainingIndex(trail, lit); d == -1 || |vars| <= d < t
  {
    var v := lit.variable;
    var u :| 0 <= u < t && trail[..t][u].variable == v && trail[..t][u].bound >= lit.bound;
    var c := vars[v].currentTrailIndex;
    if u < c {
      ChainBoundsIncrease(|vars|, trail, u, c);
    }
    FirstReachingIsAtMost(trail, v, lit.bound, 0, u);
    var d := FirstReaching(trail, v, lit.bound, 0);
    assert 0 <= d && (d < |vars| ==> trail[d].variable == d);
  }

  // ---------------------------------------------------------------------
  // Dependencies of an entry

  /** The explaining entries, past level zero, of the literals `lits`, in their order. */
  ghost function DependenciesOf(numVars: nat, trail: seq<TrailEntry>, lits: seq<IntegerLiteral>): seq<int>
    requires forall k :: 0 <= k < |lits| ==> lits[k].variable < |trail|
  {
    if lits == [] then []
    else
      var init := DependenciesOf(numVars, trail, lits[..|lits| - 1]);
      var d := ExplainingIndex(trail, lits[|lits| - 1]);
      if d >= numVars then init + [d] else init
  }

  /** The literals of the integer reason stored for entry `t`. */
  ghost function IntegerReason(trail: seq<TrailEntry>, t: int, starts: seq<int>, buffer: seq<IntegerLiteral>): seq<IntegerLiteral>
    requires 0 <= t < |trail| && 0 <= trail[t].reasonIndex < |starts| && StartsOk(starts, |buffer|)
  {
    var ri := trail[t].reasonIndex;
    var start := starts[ri];
    var end := ReasonEnd(starts, |buffer|, ri);
    if start <= end then buffer[start..end] else []
  }

  /** Every literal of `lits` is about a variable and held on the trail before entry `t`. */
  ghost predicate HeldBefore(numVars: nat, trail: seq<TrailEntry>, t: int, lits: seq<IntegerLiteral>)
    requires 0 <= t <= |trail|
  {
    forall k :: 0 <= k < |lits| ==> lits[k].variable < numVars && Explained(trail[..t], lits[k])
  }

  /** The integer reason of an entry whose reason held is made of literals that held before it. */
  lemma IntegerReasonHeld(numVars: nat, trail: seq<TrailEntry>, t: int, starts: seq<int>, buffer: seq<IntegerLiteral>)
    requires 0 <= t < |trail| && 0 <= trail[t].reasonIndex < |starts| && StartsOk(starts, |buffer|)
    requires ReasonHeld(numVars, trail, t, starts, buffer)
    ensures HeldBefore(numVars, trail, t, IntegerReason(trail, t, starts, buffer))
  {
    var ri := trail[t].reasonIndex;
    var start := starts[ri];
    var end := ReasonEnd(starts, |buffer|, ri);
    var reason := IntegerReason(trail, t, starts, buffer);
    forall k | 0 <= k < |reason| ensures reason[k].variable < numVars && Explained(trail[..t], reason[k]) {
      assert reason[k] == buffer[start + k];
    }
  }

  /** The explaining entries past level zero of `lits`, literals that held before entry `t`; all precede `t`. */
  method DependenciesOfLiterals(vars: seq<VarInfo>, trail: seq<TrailEntry>, t: int, lits: seq<IntegerLiteral>) returns (deps: seq<int>)
    requires InitialEntries(|vars|, trail) && CurrentIsLast(vars, trail) && ChainLinked(|vars|, trail)
    requires 0 <= t <= |trail| && HeldBefore(|vars|, trail, t, lits)
    ensures deps == DependenciesOf(|vars|, trail, lits)
    ensures forall k :: 0 <= k < |deps| ==> |vars| <= deps[k] < t && 0 <= trail[deps[k]].variable < |vars|
  {
    deps := [];
    var i := 0;
    while i < |lits|
      invariant 0 <= i <= |lits|
      invariant deps == DependenciesOf(|vars|, trail, lits[..i])
      invariant forall k :: 0 <= k < |deps| ==> |vars| <= deps[k] < t && 0 <= trail[deps[k]].variable < |vars|
    {
      var lit := lits[i];
      ExplainedBefore(vars, trail, t, lit);
      assert lits[..i + 1][..i] == lits[..i];
      var dep := FindLowestIndex(vars, trail, lit);
      if dep >= |vars| {
        deps := deps + [dep];
      }
      i := i + 1;
    }
    assert lits[..i] == lits;
  }

  /**
   * The entries that explain the integer reason of entry `t`: for each
   * literal of the reason, in order, its explaining entry when it is not
   * a level-zero one. All of them precede `t`.
   */
  method Dependencies(vars: seq<VarInfo>, trail: seq<TrailEntry>, starts: seq<int>, buffer: seq<IntegerLiteral>, t: int)
    returns (deps: seq<int>)
    requires InitialEntries(|vars|, trail) && CurrentIsLast(vars, trail) && ChainLinked(|vars|, trail)
    requires |vars| <= t < |trail| && 0 <= trail[t].reasonIndex < |starts| && StartsOk(starts, |buffer|)
    requires ReasonHeld(|vars|, trail, t, starts, buffer)
    ensures deps == DependenciesOf(|vars|, trail, IntegerReason(trail, t, starts, buffer))
    ensures forall k :: 0 <= k < |deps| ==> |vars| <= deps[k] < t && 0 <= trail[deps[k]].variable < |vars|
  {
    var ri := trail[t].reasonIndex;
    var start := starts[ri];
    var end := if ri + 1 < |starts| then starts[ri + 1] else |buffer|;
    var reason := if start <= end then buffer[start..end] else [];
    IntegerReasonHeld(|vars|, trail, t, starts, buffer);
    deps := DependenciesOfLiterals(vars, trail, t, reason);
  }

  // ---------------------------------------------------------------------
  // The literal reason of an entry

  /** The Boolean variables of a list of literals. */
  function LiteralVariables(lits: seq<Literal>): set<nat>
  {
    set k | 0 <= k < |lits| :: lits[k].variable
  }

  /** The literals of `lits` whose variable is neither in `added` nor seen earlier in `lits`, in order. */
  ghost function FreshLiterals(lits: seq<Literal>, added: set<nat>): seq<Literal>
  {
    if lits == [] then []
    else
      var init := lits[..|lits| - 1];
      var l := lits[|lits| - 1];
      if l.variable in added + LiteralVariables(init) then FreshLiterals(init, added)
      else FreshLiterals(init, added) + [l]
  }

  lemma LiteralVariablesStep(lits: seq<Literal>, i: nat)
    requires i < |lits|
    ensures LiteralVariables(lits[..i + 1]) == LiteralVariables(lits[..i]) + {lits[i].variable}
  {
    var a := lits[..i + 1];
    forall x | x in LiteralVariables(a) ensures x in LiteralVariables(lits[..i]) || x == lits[i].variable {
      var k :| 0 <= k < |a| && a[k].variable == x;
      if k < i {
        assert lits[..i][k] == a[k];
      }
    }
    forall x | x in LiteralVariables(lits[..i]) ensures x in LiteralVariables(a) {
      var k :| 0 <= k < i && lits[..i][k].variable == x;
      assert a[k] == lits[..i][k];
    }
    assert a[i] == lits[i];
  }

  /**
   * The fresh literals have pairwise distinct variables, none of them in
   * `added`, and together with `added` they cover every variable of `lits`.
   */
  lemma {:induction false} FreshLiteralsAreNew(lits: seq<Literal>, added: set<nat>)
    ensures var f := FreshLiterals(lits, added);
      (forall j, k :: 0 <= j < k < |f| ==> f[j].variable != f[k].variable) &&
      (forall k :: 0 <= k < |f| ==> f[k].variable !in added && f[k] in lits) &&
      added + LiteralVariables(f) == added + LiteralVariables(lits)
  {
    if lits != [] {
      var i := |lits| - 1;
      var init := lits[..i];
      var l := lits[i];
      FreshLiteralsAreNew(init, added);
      LiteralVariablesStep(lits, i);
      assert lits[..i + 1] == lits;
      var f0 := FreshLiterals(init, added);
      if l.variable !in added + LiteralVariables(init) {
        var f := f0 + [l];
        assert f[..|f0|] == f0;
        LiteralVariablesStep(f, |f0|);
        assert f[..|f0| + 1] == f;
        forall k | 0 <= k < |f0| ensures f0[k].variable != l.variable && f0[k] in lits {
          assert f0[k].variable in LiteralVariables(f0);
          assert f0[k] in init;
        }
      } else {
        forall k | 0 <= k < |f0| ensures f0[k] in lits {
          assert f0[k] in init;
        }
      }
    }
  }

  /** The literals stored as the Boolean reason of entry `t`. */
  ghost function LiteralReason(trail: seq<TrailEntry>, t: int, starts: seq<int>, buffer: seq<Literal>): seq<Literal>
    requires 0 <= t < |trail| && 0 <= trail[t].reasonIndex < |starts| && StartsOk(starts, |buffer|)
  {
    var ri := trail[t].reasonIndex;
    var start := starts[ri];
    var end := ReasonEnd(starts, |buffer|, ri);
    if start <= end then buffer[start..end] else []
  }

  lemma FreshLiteralsStep(lits: seq<Literal>, i: nat, added: set<nat>)
    requires i < |lits|
    ensures FreshLiterals(lits[..i + 1], added) ==
      FreshLiterals(lits[..i], added) + (if lits[i].variable in added + LiteralVariables(lits[..i]) then [] else [lits[i]])
  {
    assert lits[..i + 1][..i] == lits[..i];
  }

  /** Appends to `output` the literals of `lits` whose variable is not yet in `added`, adding their variables to it. */
  method AppendFresh(lits: seq<Literal>, added: set<nat>, output: seq<Literal>) returns (out: seq<Literal>, added': set<nat>)
    ensures out == output + FreshLiterals(lits, added) && added' == added + LiteralVariables(lits)
  {
    out, added' := output, added;
    var i := 0;
    while i < |lits|
      invariant 0 <= i <= |lits|
      invariant out == output + FreshLiterals(lits[..i], added)
      invariant added' == added + LiteralVariables(lits[..i])
    {
      var l := lits[i];
      LiteralVariablesStep(lits, i);
      FreshLiteralsStep(lits, i, added);
      if l.variable !in added' {
        added' := added' + {l.variable};
        out := out + [l];
      }
      i := i + 1;
    }
    assert lits[..i] == lits;
  }

  /**
   * Appends to `output` the literals of the Boolean reason of entry `t`
   * whose variable is not yet in `added`, adding their variables to it.
   */
  method AppendLiteralsReason(trail: seq<TrailEntry>, t: int, starts: seq<int>, buffer: seq<Literal>,
                              added: set<nat>, output: seq<Literal>) returns (out: seq<Literal>, added': set<nat>)
    requires 0 <= t < |trail| && 0 <= trail[t].reasonIndex < |starts| && StartsOk(starts, |buffer|)
    ensures var reason := LiteralReason(trail, t, starts, buffer);
      out == output + FreshLiterals(reason, added) && added' == added + LiteralVariables(reason)
  {
    var ri := trail[t].reasonIndex;
    var start := starts[ri];
    var end := ReasonEnd(starts, |buffer|, ri);
    var reason := if start <= end then buffer[start..end] else [];
    assert reason == LiteralReason(trail, t, starts, buffer);
    out, added' := AppendFresh(reason, added, output);
  }

  // ---------------------------------------------------------------------
  // Loosening a linear reason

  /** `indices[i]` is an entry of the variable of `reason[i]` with exactly its bound. */
  ghost predicate OnTrailAt(trail: seq<TrailEntry>, reason: seq<IntegerLiteral>, indices: seq<int>, i: int)
  {
    0 <= i < |reason| && i < |indices| && 0 <= indices[i] < |trail| &&
    trail[indices[i]].variable == reason[i].variable && trail[indices[i]].bound == reason[i].bound
  }

  /** The bound of entry `index` minus that of the previous entry of its variable. */
  function Gap(trail: seq<TrailEntry>, index: int): int
    requires 0 <= index < |trail| && 0 <= trail[index].prevTrailIndex < |trail|
  {
    trail[index].bound - trail[trail[index].prevTrailIndex].bound
  }

  /** Literal `i` can be lowered to the previous entry of its variable within `slack`. */
  predicate Fits(numVars: nat, trail: seq<TrailEntry>, coeffs: seq<int>, indices: seq<int>, slack: int, i: int)
    requires 0 <= i < |coeffs| == |indices|
  {
    numVars <= indices[i] < |trail| && 0 <= trail[indices[i]].prevTrailIndex < |trail| &&
    CapProd(coeffs[i], Gap(trail, indices[i])) <= slack
  }

  /** Every entry past the level-zero ones links to an earlier entry. */
  ghost predicate LinksBack(numVars: nat, trail: seq<TrailEntry>)
  {
    forall t :: numVars <= t < |trail| && trail[t].variable >= 0 ==> 0 <= trail[t].prevTrailIndex < t
  }

  lemma ChainLinksBack(numVars: nat, trail: seq<TrailEntry>)
    requires ChainLinked(numVars, trail)
    ensures LinksBack(numVars, trail)
  {
    forall t | numVars <= t < |trail| && trail[t].variable >= 0 ensures 0 <= trail[t].prevTrailIndex < t {
      assert LinkedAt(numVars, trail, t);
    }
  }

  /** The entries `indices` are entries of variables (not of Boolean literals). */
  ghost predicate IndicesOfVariables(trail: seq<TrailEntry>, indices: seq<int>)
  {
    forall i :: 0 <= i < |indices| ==> 0 <= indices[i] < |trail| && trail[indices[i]].variable >= 0
  }

  /**
   * The literal to lower next: among those that fit within `slack`, one
   * with the latest entry (the last such literal on ties), or -1.
   */
  method PickCandidate(numVars: nat, trail: seq<TrailEntry>, coeffs: seq<int>, indices: seq<int>, slack: int) returns (best: int)
    requires |coeffs| == |indices| && LinksBack(numVars, trail) && IndicesOfVariables(trail, indices)
    ensures best == -1 <==> forall i :: 0 <= i < |indices| ==> !Fits(numVars, trail, coeffs, indices, slack, i)
    ensures best != -1 ==>
      0 <= best < |indices| && Fits(numVars, trail, coeffs, indices, slack, best) &&
      forall i :: 0 <= i < |indices| && Fits(numVars, trail, coeffs, indices, slack, i) ==> indices[i] <= indices[best]
  {
    best := -1;
    var i := 0;
    while i < |indices|
      invariant 0 <= i <= |indices| && -1 <= best < i
      invariant best == -1 <==> forall j :: 0 <= j < i ==> !Fits(numVars, trail, coeffs, indices, slack, j)
      invariant best != -1 ==>
        Fits(numVars, trail, coeffs, indices, slack, best) &&
        forall j :: 0 <= j < i && Fits(numVars, trail, coeffs, indices, slack, j) ==> indices[j] <= indices[best]
    {
      if indices[i] >= numVars && (best == -1 || indices[i] >= indices[best]) && Fits(numVars, trail, coeffs, indices, slack, i) {
        best := i;
      }
      i := i + 1;
    }
  }

  /** The sum over the literals of `coeffs[i]` times how much the bound of literal `i` was lowered from `a` to `b`. */
  function Consumed(coeffs: seq<int>, a: seq<IntegerLiteral>, b: seq<IntegerLiteral>): int
    requires |coeffs| == |a| == |b|
  {
    if coeffs == [] then 0
    else
      var n := |coeffs| - 1;
      Consumed(coeffs[..n], a[..n], b[..n]) + coeffs[n] * (a[n].bound - b[n].bound)
  }

  /** Lowering one literal adds its coefficient times the lowering to the consumed slack. */
  lemma {:induction false} ConsumedUpdate(coeffs: seq<int>, a: seq<IntegerLiteral>, b: seq<IntegerLiteral>, i: int, x: int)
    requires |coeffs| == |a| == |b| && 0 <= i < |b|
    ensures Consumed(coeffs, a, b[i := b[i].(bound := x)]) == Consumed(coeffs, a, b) + coeffs[i] * (b[i].bound - x)
    decreases |coeffs|
  {
    var n := |coeffs| - 1;
    var b' := b[i := b[i].(bound := x)];
    if i < n {
      assert b'[..n] == b[..n][i := b[i].(bound := x)];
      ConsumedUpdate(coeffs[..n], a[..n], b[..n], i, x);
    } else {
      assert b'[..n] == b[..n];
    }
  }

  /** Nothing was consumed from a reason left as it is. */
  lemma {:induction false} ConsumedNothing(coeffs: seq<int>, a: seq<IntegerLiteral>)
    requires |coeffs| == |a|
    ensures Consumed(coeffs, a, a) == 0
    decreases |coeffs|
  {
    if coeffs != [] {
      ConsumedNothing(coeffs[..|coeffs| - 1], a[..|coeffs| - 1]);
    }
  }

  function SumOf(s: seq<int>): int
  {
    if s == [] then 0 else SumOf(s[..|s| - 1]) + s[|s| - 1]
  }

  lemma {:induction false} SumOfUpdate(s: seq<int>, i: int, x: int)
    requires 0 <= i < |s|
    ensures SumOf(s[i := x]) == SumOf(s) - s[i] + x
    decreases |s|
  {
    var n := |s| - 1;
    if i < n {
      assert s[i := x][..n] == s[..n][i := x];
      SumOfUpdate(s[..n], i, x);
    } else {
      assert s[i := x][..n] == s[..n];
    }
  }

  lemma {:induction false} SumOfNonNegative(s: seq<int>)
    requires forall i :: 0 <= i < |s| ==> s[i] >= 0
    ensures SumOf(s) >= 0
    decreases |s|
  {
    if s != [] {
      SumOfNonNegative(s[..|s| - 1]);
    }
  }

  /** `r` is `reason` with each bound lowered to that of the entry `indices[i]` of its variable. */
  ghost predicate LoweredAlong(trail: seq<TrailEntry>, reason: seq<IntegerLiteral>, r: seq<IntegerLiteral>, indices: seq<int>)
  {
    |r| == |reason| == |indices| &&
    forall i :: 0 <= i < |r| ==> r[i].variable == reason[i].variable && r[i].bound <= reason[i].bound && OnTrailAt(trail, r, indices, i)
  }

  /** Lowering literal `best` to the previous entry of its variable keeps everything the loosening loop relies on. */
  lemma LowerOne(numVars: nat, trail: seq<TrailEntry>, coeffs: seq<int>, reason: seq<IntegerLiteral>,
                 r: seq<IntegerLiteral>, indices: seq<int>, left: int, best: int)
    requires ChainLinked(numVars, trail) && IndicesOfVariables(trail, indices)
    requires LoweredAlong(trail, reason, r, indices) && |coeffs| == |reason|
    requires 0 <= best < |indices| && Fits(numVars, trail, coeffs, indices, left, best) && coeffs[best] >= 0
    ensures var prev := trail[indices[best]].prevTrailIndex;
      var r' := r[best := r[best].(bound := trail[prev].bound)];
      var indices' := indices[best := prev];
      var lowered := coeffs[best] * Gap(trail, indices[best]);
      LoweredAlong(trail, reason, r', indices') && IndicesOfVariables(trail, indices') &&
      0 <= SumOf(indices') < SumOf(indices) &&
      Consumed(coeffs, reason, r') == Consumed(coeffs, reason, r) + lowered &&
      0 <= lowered && (left < kint64max ==> lowered <= left)
  {
    var t := indices[best];
    assert LinkedAt(numVars, trail, t);
    var prev := trail[t].prevTrailIndex;
    var r' := r[best := r[best].(bound := trail[prev].bound)];
    var indices' := indices[best := prev];
    assert OnTrailAt(trail, r, indices, best);
    forall i | 0 <= i < |r'|
      ensures r'[i].variable == reason[i].variable && r'[i].bound <= reason[i].bound && OnTrailAt(trail, r', indices', i)
    {
      assert OnTrailAt(trail, r, indices, i);
    }
    ConsumedUpdate(coeffs, reason, r, best, trail[prev].bound);
    SumOfUpdate(indices, best, prev);
    SumOfNonNegative(indices');
  }

  /** The entry that currently sets each literal of a reason made of current lower bounds. */
  method CurrentIndices(vars: seq<VarInfo>, trail: seq<TrailEntry>, reason: seq<IntegerLiteral>) returns (indices: seq<int>)
    requires CurrentIsLast(vars, trail)
    requires forall i :: 0 <= i < |reason| ==>
      reason[i].variable < |vars| && reason[i].bound == vars[reason[i].variable].currentBound
    ensures LoweredAlong(trail, reason, reason, indices) && IndicesOfVariables(trail, indices)
  {
    indices := [];
    var i := 0;
    while i < |reason|
      invariant 0 <= i <= |reason| && |indices| == i
      invariant forall j :: 0 <= j < i ==> indices[j] == vars[reason[j].variable].currentTrailIndex
    {
      indices := indices + [vars[reason[i].variable].currentTrailIndex];
      i := i + 1;
    }
    forall j | 0 <= j < |reason|
      ensures OnTrailAt(trail, reason, indices, j) && trail[indices[j]].variable >= 0
    {
      assert indices[j] == vars[reason[j].variable].currentTrailIndex;
    }
  }

  /**
   * Loosens a linear reason: while slack remains, lowers the literal with
   * the latest entry among those whose coefficient times the drop to the
   * previous entry of its variable fits in the slack. Returns the loosened
   * reason and the entry that now sets each of its literals.
   */
  method RelaxLinearReason(vars: seq<VarInfo>, trail: seq<TrailEntry>, slack: int, coeffs: seq<int>, reason: seq<IntegerLiteral>)
    returns (r: seq<IntegerLiteral>, indices: seq<int>)
    requires InitialEntries(|vars|, trail) && CurrentIsLast(vars, trail) && ChainLinked(|vars|, trail)
    requires slack >= 0 && |coeffs| == |reason|
    requires forall i :: 0 <= i < |reason| ==>
      coeffs[i] >= 0 && reason[i].variable < |vars| && reason[i].bound == vars[reason[i].variable].currentBound
    ensures slack == 0 ==> r == reason
    ensures |r| == |reason|
    ensures forall i :: 0 <= i < |r| ==> r[i].variable == reason[i].variable && r[i].bound <= reason[i].bound
    ensures slack != 0 ==> LoweredAlong(trail, reason, r, indices)
    ensures slack < kint64max ==> 0 <= Consumed(coeffs, reason, r) <= slack
    ensures slack != 0 ==> var left := slack - Consumed(coeffs, reason, r);
      left == 0 || (IndicesOfVariables(trail, indices) && forall i :: 0 <= i < |r| ==> !Fits(|vars|, trail, coeffs, indices, left, i))
  {
    r := reason;
    indices := [];
    ConsumedNothing(coeffs, reason);
    if slack == 0 {
      return;
    }
    indices := CurrentIndices(vars, trail, reason);
    ChainLinksBack(|vars|, trail);
    var left := slack;
    while left != 0
      invariant LoweredAlong(trail, reason, r, indices) && IndicesOfVariables(trail, indices)
      invariant left == slack - Consumed(coeffs, reason, r)
      invariant left <= slack && (slack < kint64max ==> left >= 0)
      decreases SumOf(indices)
    {
      var best := PickCandidate(|vars|, trail, coeffs, indices, left);
      if best == -1 {
        return;
      }
      LowerOne(|vars|, trail, coeffs, reason, r, indices, left, best);
      var entry := trail[indices[best]];
      var previous := trail[entry.prevTrailIndex];
      var lowered := coeffs[best] * Gap(trail, indices[best]);
      indices := indices[best := entry.prevTrailIndex];
      r := r[best := r[best].(bound := previous.bound)];
      left := left - lowered;
    }
  }
}
