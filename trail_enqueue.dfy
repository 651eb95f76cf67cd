/**
 * Tightening a lower bound, stated on values: skipping the holes of a
 * domain with several intervals, and the changes `Enqueue` makes to the
 * trail (a new entry at a positive level, the level-zero entry rewritten
 * in place at level zero, a new stored reason) with the invariants each
 * of them keeps.
 */
module TrailEnqueue {
  import opened IntegerTypes
  import opened Domains
  import opened Sat
  import opened Encoder
  import opened TrailModel

  // ---------------------------------------------------------------------
  // Holes of the domain

  /** The index of the first interval of `d` that ends at or after `bound`, or `|d|` when none does. */
  function FirstIntervalReaching(d: Domain, bound: int): (k: nat)
    ensures k <= |d|
    ensures forall j :: 0 <= j < k ==> d[j].end < bound
    ensures k < |d| ==> d[k].end >= bound
  {
    FirstIntervalReachingFrom(d, bound, 0)
  }

  function FirstIntervalReachingFrom(d: Domain, bound: int, from: nat): (k: nat)
    requires from <= |d| && forall j :: 0 <= j < from ==> d[j].end < bound
    ensures from <= k <= |d|
    ensures forall j :: 0 <= j < k ==> d[j].end < bound
    ensures k < |d| ==> d[k].end >= bound
    decreases |d| - from
  {
    if from == |d| || d[from].end >= bound then from else FirstIntervalReachingFrom(d, bound, from + 1)
  }

  /**
   * The bound `Enqueue` actually sets for `var >= bound`: on a domain with
   * holes, the start of the first interval reaching `bound` when that is
   * larger; `bound` itself otherwise.
   */
  function RaisedBound(d: Domain, bound: int): int
  {
    var k := FirstIntervalReaching(d, bound);
    if |d| > 1 && k < |d| && d[k].start > bound then d[k].start else bound
  }

  /** On a domain with holes, the raised bound is the smallest value of the domain at or above `bound`. */
  lemma RaisedBoundIsNextValue(d: Domain, bound: int)
    requires Valid(d) && |d| > 1 && FirstIntervalReaching(d, bound) < |d|
    ensures var r := RaisedBound(d, bound);
      bound <= r && Contains(d, r) && forall x :: bound <= x < r ==> !Contains(d, x)
  {
    var k := FirstIntervalReaching(d, bound);
    var r := RaisedBound(d, bound);
    assert d[k].start <= r <= d[k].end;
    forall x | bound <= x < r
      ensures !Contains(d, x)
    {
      GapHasNoValue(d, k as int - 1, x);
    }
  }

  /** When no interval reaches `bound`, no value of the domain is at or above it. */
  lemma NoIntervalReaches(d: Domain, bound: int)
    requires FirstIntervalReaching(d, bound) == |d|
    ensures forall x :: x >= bound ==> !Contains(d, x)
  {
  }

  /**
   * Advances the interval cursor `index` of a domain past the intervals
   * that end below `bound`. When every interval before `index` ends below
   * `bound`, the result is the first interval reaching `bound`.
   */
  method SkipHoles(d: Domain, index: nat, bound: int) returns (k: nat)
    requires index <= |d|
    ensures index <= k <= |d|
    ensures forall j :: index <= j < k ==> d[j].end < bound
    ensures k < |d| ==> d[k].end >= bound
    ensures (forall j :: 0 <= j < index ==> d[j].end < bound) ==> k == FirstIntervalReaching(d, bound)
  {
    k := index;
    while k < |d| && bound > d[k].end
      invariant index <= k <= |d|
      invariant forall j :: index <= j < k ==> d[j].end < bound
    {
      k := k + 1;
    }
  }

  // ---------------------------------------------------------------------
  // The last entry of a variable after a change of the trail

  /** Two trails with the same variables at the same places have the same last entries. */
  lemma {:induction false} LastIndexOfSameVariables(a: seq<TrailEntry>, b: seq<TrailEntry>, v: int)
    requires |a| == |b| && forall j :: 0 <= j < |a| ==> a[j].variable == b[j].variable
    ensures LastIndexOf(a, v) == LastIndexOf(b, v)
  {
    LastIndexOfIsUnique(a, v, LastIndexOf(b, v));
  }

  /** Appending an entry of `v` makes it the last one of `v`, and leaves the last entries of the others. */
  lemma LastIndexOfPushed(trail: seq<TrailEntry>, e: TrailEntry, u: int)
    ensures LastIndexOf(trail + [e], u) == if u == e.variable then |trail| else LastIndexOf(trail, u)
  {
    assert (trail + [e])[..|trail|] == trail;
  }

  // ---------------------------------------------------------------------
  // The interval cursor after a bound change

  /**
   * After a change of the trail that sets the bound of `v` to `bound` and
   * keeps every other bound, the cursor still fits once the cursor of `v`
   * is moved to `k` (only when the domain of `v` has holes), provided
   * every interval before `k` ends below `bound`.
   */
  lemma CursorFitsRaised(domains: seq<Domain>, trail: seq<TrailEntry>, trail': seq<TrailEntry>, cursor: map<nat, nat>,
                         v: nat, k: nat, bound: int)
    requires CursorFits(domains, trail, cursor) && v < |domains|
    requires BoundOf(trail', v) == bound
    requires forall u :: 0 <= u < |domains| && u != v ==> BoundOf(trail', u) == BoundOf(trail, u)
    requires |domains[v]| > 1 ==> k < |domains[v]| && forall j :: 0 <= j < k ==> domains[v][j].end < bound
    ensures CursorFits(domains, trail', if |domains[v]| > 1 then cursor[v := k] else cursor)
  {
    var c := if |domains[v]| > 1 then cursor[v := k] else cursor;
    forall u | 0 <= u < |domains|
      ensures CursorFitsAt(domains, trail', c, u)
    {
      assert CursorFitsAt(domains, trail, cursor, u);
    }
  }

  // ---------------------------------------------------------------------
  // A new stored reason

  /**
   * Storing a new reason, not yet referenced by any entry, keeps every
   * invariant: the reason of the last stored index still ends where the
   * integer buffer ended.
   */
  lemma AppendReasonKeepsState(domains: seq<Domain>, encoding: seq<seq<Entry>>, eq: map<(nat, int), Literal>, numVariables: nat,
                               vars: seq<VarInfo>, trail: seq<TrailEntry>, levels: seq<int>, reasonLevels: seq<int>,
                               litStarts: seq<int>, litBuffer: seq<Literal>, boundsStarts: seq<int>, boundsBuffer: seq<IntegerLiteral>,
                               saved: seq<map<nat, nat>>, constants: map<int, nat>,
                               literalReason: seq<Literal>, integerReason: seq<IntegerLiteral>)
    requires StateOk(domains, encoding, eq, numVariables, vars, trail, levels, reasonLevels,
                     litStarts, |litBuffer|, boundsStarts, boundsBuffer, saved, constants)
    ensures StateOk(domains, encoding, eq, numVariables, vars, trail, levels, reasonLevels,
                    litStarts + [|litBuffer|], |litBuffer + literalReason|,
                    boundsStarts + [|boundsBuffer|], boundsBuffer + integerReason, saved, constants)
  {
    var starts' := boundsStarts + [|boundsBuffer|];
    var buffer' := boundsBuffer + integerReason;
    forall t | |vars| <= t < |trail|
      ensures ReasonHeld(|vars|, trail, t, starts', buffer')
    {
      assert ReasonHeld(|vars|, trail, t, boundsStarts, boundsBuffer);
      var ri := trail[t].reasonIndex;
      if 0 <= ri < |boundsStarts| {
        assert ReasonEnd(starts', |buffer'|, ri) == ReasonEnd(boundsStarts, |boundsBuffer|, ri);
      }
    }
    forall l | 0 <= l < |levels|
      ensures ReasonsBelow(|vars|, trail, levels[l], reasonLevels[l])
    {
    }
  }

  /** The integer reason stored last, `integerReason`, holds on the trail with the entry `e` pushed. */
  lemma NewReasonHeld(numVars: nat, vars: seq<VarInfo>, trail: seq<TrailEntry>, starts: seq<int>, buffer: seq<IntegerLiteral>,
                      integerReason: seq<IntegerLiteral>, e: TrailEntry)
    requires numVars == |vars| && CurrentIsLast(vars, trail)
    requires forall k :: 0 <= k < |integerReason| ==>
      integerReason[k].variable < |vars| && integerReason[k].bound <= vars[integerReason[k].variable].currentBound
    requires e.reasonIndex == |starts|
    ensures ReasonHeld(numVars, trail + [e], |trail|, starts + [|buffer|], buffer + integerReason)
  {
    var starts' := starts + [|buffer|];
    var buffer' := buffer + integerReason;
    var trail' := trail + [e];
    assert trail'[..|trail|] == trail;
    forall j | starts'[e.reasonIndex] <= j < ReasonEnd(starts', |buffer'|, e.reasonIndex) && 0 <= j < |buffer'|
      ensures buffer'[j].variable < numVars && Explained(trail, buffer'[j])
    {
      var lit := integerReason[j - |buffer|];
      assert buffer'[j] == lit;
      var c := vars[lit.variable].currentTrailIndex;
      assert 0 <= c < |trail| && trail[c].variable == lit.variable && trail[c].bound >= lit.bound;
    }
  }

  /** The reason of the earlier entry `same`, which held before `same`, holds on the trail with `e` pushed. */
  lemma ReusedReasonHeld(numVars: nat, trail: seq<TrailEntry>, starts: seq<int>, buffer: seq<IntegerLiteral>, same: int, e: TrailEntry)
    requires ReasonsExplained(numVars, trail, starts, buffer)
    requires numVars <= same < |trail| && e.reasonIndex == trail[same].reasonIndex
    ensures ReasonHeld(numVars, trail + [e], |trail|, starts, buffer)
  {
    assert ReasonHeld(numVars, trail, same, starts, buffer);
    var trail' := trail + [e];
    assert trail'[..|trail|] == trail;
    var ri := e.reasonIndex;
    if 0 <= ri < |starts| {
      forall j | starts[ri] <= j < ReasonEnd(starts, |buffer|, ri) && 0 <= j < |buffer|
        ensures Explained(trail, buffer[j])
      {
        assert Explained(trail[..same], buffer[j]);
        var t :| 0 <= t < same && trail[..same][t].variable == buffer[j].variable && trail[..same][t].bound >= buffer[j].bound;
        assert trail[t] == trail[..same][t];
      }
    }
  }

  // ---------------------------------------------------------------------
  // A new entry at a positive level

  /** The entry pushed for `v >= bound` with reason `ri`: it links to the current entry of `v`. */
  function PushedEntry(vars: seq<VarInfo>, v: nat, bound: int, ri: int): TrailEntry
    requires v < |vars|
  {
    TrailEntry(bound, v, vars[v].currentTrailIndex, ri)
  }

  /** Pushing the entry makes it the current entry of `v` and leaves the current entries of the others. */
  lemma PushKeepsCurrent(vars: seq<VarInfo>, trail: seq<TrailEntry>, v: nat, bound: int, ri: int)
    requires CurrentIsLast(vars, trail) && v < |vars|
    ensures var trail' := trail + [PushedEntry(vars, v, bound, ri)];
      CurrentIsLast(vars[v := VarInfo(bound, |trail|)], trail') &&
      BoundOf(trail', v) == bound && forall u :: u != v ==> BoundOf(trail', u) == BoundOf(trail, u)
  {
    var e := PushedEntry(vars, v, bound, ri);
    var trail' := trail + [e];
    forall u
      ensures LastIndexOf(trail', u) == if u == v then |trail| else LastIndexOf(trail, u)
    {
      LastIndexOfPushed(trail, e, u);
    }
  }

  /** The pushed entry links to the current entry of `v`, of smaller bound; the earlier links stay. */
  lemma PushKeepsLinks(vars: seq<VarInfo>, trail: seq<TrailEntry>, v: nat, bound: int, ri: int)
    requires InitialEntries(|vars|, trail) && CurrentIsLast(vars, trail) && ChainLinked(|vars|, trail)
    requires v < |vars| && bound > vars[v].currentBound
    ensures var trail' := trail + [PushedEntry(vars, v, bound, ri)];
      InitialEntries(|vars|, trail') && ChainLinked(|vars|, trail')
  {
    var e := PushedEntry(vars, v, bound, ri);
    var trail' := trail + [e];
    assert trail'[..|trail|] == trail;
    forall t | |vars| <= t < |trail'|
      ensures LinkedAt(|vars|, trail', t)
    {
      if t < |trail| {
        assert LinkedAt(|vars|, trail, t);
        assert trail'[..t] == trail[..t];
      }
    }
  }

  /** Pushing the entry keeps the levels, the reason indices, the held reasons and the saved cursors. */
  lemma PushKeepsReasons(domains: seq<Domain>, vars: seq<VarInfo>, trail: seq<TrailEntry>, levels: seq<int>, reasonLevels: seq<int>,
                         litStarts: seq<int>, boundsStarts: seq<int>, boundsBuffer: seq<IntegerLiteral>,
                         saved: seq<map<nat, nat>>, e: TrailEntry)
    requires LevelsOk(|vars|, |trail|, levels, reasonLevels, |litStarts|) && |levels| > 0
    requires ReasonIndicesOk(|vars|, trail, levels, reasonLevels, |litStarts|)
    requires ReasonsExplained(|vars|, trail, boundsStarts, boundsBuffer)
    requires SavedCursorsFit(domains, trail, levels, saved)
    requires 0 <= e.reasonIndex < |litStarts| && ReasonHeld(|vars|, trail + [e], |trail|, boundsStarts, boundsBuffer)
    ensures var trail' := trail + [e];
      LevelsOk(|vars|, |trail'|, levels, reasonLevels, |litStarts|) &&
      ReasonIndicesOk(|vars|, trail', levels, reasonLevels, |litStarts|) &&
      ReasonsExplained(|vars|, trail', boundsStarts, boundsBuffer) &&
      SavedCursorsFit(domains, trail', levels, saved)
  {
    var trail' := trail + [e];
    forall t | |vars| <= t < |trail|
      ensures ReasonHeld(|vars|, trail', t, boundsStarts, boundsBuffer)
    {
      assert ReasonHeld(|vars|, trail, t, boundsStarts, boundsBuffer);
      assert trail'[..t] == trail[..t];
    }
    forall l | 0 <= l < |levels|
      ensures ReasonsBelow(|vars|, trail', levels[l], reasonLevels[l]) && CursorFits(domains, trail'[..levels[l]], saved[l])
    {
      assert ReasonsBelow(|vars|, trail, levels[l], reasonLevels[l]);
      assert trail'[..levels[l]] == trail[..levels[l]];
    }
  }

  /**
   * At a positive level, pushing `v >= bound` with a stored reason that
   * holds keeps every invariant of the trail; only the bound of `v` changes.
   */
  lemma PushKeepsState(domains: seq<Domain>, encoding: seq<seq<Entry>>, eq: map<(nat, int), Literal>, numVariables: nat,
                       vars: seq<VarInfo>, trail: seq<TrailEntry>, levels: seq<int>, reasonLevels: seq<int>,
                       litStarts: seq<int>, litBufferSize: nat, boundsStarts: seq<int>, boundsBuffer: seq<IntegerLiteral>,
                       saved: seq<map<nat, nat>>, constants: map<int, nat>, v: nat, bound: int, ri: int)
    requires StateOk(domains, encoding, eq, numVariables, vars, trail, levels, reasonLevels,
                     litStarts, litBufferSize, boundsStarts, boundsBuffer, saved, constants)
    requires |levels| > 0 && v < |vars| && bound > vars[v].currentBound && 0 <= ri < |litStarts|
    requires ReasonHeld(|vars|, trail + [PushedEntry(vars, v, bound, ri)], |trail|, boundsStarts, boundsBuffer)
    ensures var trail' := trail + [PushedEntry(vars, v, bound, ri)];
      StateOk(domains, encoding, eq, numVariables, vars[v := VarInfo(bound, |trail|)], trail', levels, reasonLevels,
              litStarts, litBufferSize, boundsStarts, boundsBuffer, saved, constants) &&
      BoundOf(trail', v) == bound && forall u :: u != v ==> BoundOf(trail', u) == BoundOf(trail, u)
  {
    PushKeepsCurrent(vars, trail, v, bound, ri);
    PushKeepsLinks(vars, trail, v, bound, ri);
    PushKeepsReasons(domains, vars, trail, levels, reasonLevels, litStarts, boundsStarts, boundsBuffer, saved,
                     PushedEntry(vars, v, bound, ri));
  }

  // ---------------------------------------------------------------------
  // A bound change at level zero

  /** The trail with the level-zero entry of `v` given the bound `bound`. */
  function WithLevelZeroBound(trail: seq<TrailEntry>, v: nat, bound: int): seq<TrailEntry>
    requires v < |trail|
  {
    trail[v := trail[v].(bound := bound)]
  }

  /**
   * At level zero, where the trail holds only the level-zero entries,
   * rewriting the entry of `v` in place keeps every invariant; only the
   * bound of `v` changes.
   */
  lemma LevelZeroKeepsState(domains: seq<Domain>, encoding: seq<seq<Entry>>, eq: map<(nat, int), Literal>, numVariables: nat,
                            vars: seq<VarInfo>, trail: seq<TrailEntry>,
                            litStarts: seq<int>, litBufferSize: nat, boundsStarts: seq<int>, boundsBuffer: seq<IntegerLiteral>,
                            constants: map<int, nat>, v: nat, bound: int)
    requires StateOk(domains, encoding, eq, numVariables, vars, trail, [], [],
                     litStarts, litBufferSize, boundsStarts, boundsBuffer, [], constants)
    requires v < |vars|
    ensures var trail' := WithLevelZeroBound(trail, v, bound);
      StateOk(domains, encoding, eq, numVariables, vars[v := vars[v].(currentBound := bound)], trail', [], [],
              litStarts, litBufferSize, boundsStarts, boundsBuffer, [], constants) &&
      BoundOf(trail', v) == bound && forall u :: u != v ==> BoundOf(trail', u) == BoundOf(trail, u)
  {
    var trail' := WithLevelZeroBound(trail, v, bound);
    forall u
      ensures LastIndexOf(trail', u) == LastIndexOf(trail, u)
    {
      LastIndexOfSameVariables(trail', trail, u);
    }
    assert LastIndexOf(trail, v) == v;
  }

  // ---------------------------------------------------------------------
  // A smaller initial domain at level zero

  /** The values `(v, x)` of the domain keys still in the domain of `v`. */
  ghost function RemainingValues(keys: set<(nat, int)>, domains: seq<Domain>): set<(nat, int)>
  {
    set p | p in keys && p.0 < |domains| && Contains(domains[p.0], p.1)
  }

  /** The domains with `d` for `v` and its negation for `NegationOf(v)`. */
  function WithDomainPair(domains: seq<Domain>, v: nat, d: Domain): seq<Domain>
    requires v < |domains| && NegationOf(v) < |domains|
  {
    domains[v := d][NegationOf(v) := Negation(d)]
  }

  /** The pair variable of a variable exists whenever the variable does. */
  lemma NegationExists(domains: seq<Domain>, v: nat)
    requires DomainsValid(domains) && v < |domains|
    ensures NegationOf(v) < |domains| && NegationOf(NegationOf(v)) == v && NegationOf(v) != v
  {
    NegationOfPairs(v);
  }

  /** A non-empty part of a one-value domain is that domain. */
  lemma OneValueCannotShrink(a: Domain, d: Domain, c: int)
    requires a == [ClosedInterval(c, c)] && Valid(d) && |d| > 0
    requires forall x :: Contains(d, x) ==> Contains(a, x)
    ensures d == a
  {
    SingleIntervalValues(c, c);
    assert Contains(d, d[0].start);
    CanonicalRepresentation(d, a);
  }

  /** A domain whose values are among those of `a` and which differs from it misses one of them. */
  lemma SmallerDomainMissesValue(a: Domain, d: Domain) returns (x: int)
    requires Valid(a) && Valid(d) && d != a
    requires forall y :: Contains(d, y) ==> Contains(a, y)
    ensures Contains(a, x) && !Contains(d, x)
  {
    if forall y :: Contains(a, y) ==> Contains(d, y) {
      CanonicalRepresentation(a, d);
      assert false;
    }
    x :| Contains(a, x) && !Contains(d, x);
  }

  /** The new pair of domains is mirrored and within the value range. */
  lemma DomainPairStaysMirrored(domains: seq<Domain>, v: nat, d: Domain)
    requires DomainsValid(domains) && v < |domains|
    requires ValidWithin(d, kMinIntegerValue, kMaxIntegerValue) && |d| > 0
    ensures NegationOf(v) < |domains| && DomainsValid(WithDomainPair(domains, v, d))
  {
    NegationExists(domains, v);
    var n := NegationOf(v);
    var ds := WithDomainPair(domains, v, d);
    NegationWithin(d);
    NegationIsInvolution(d);
    forall u {:trigger Negation(ds[u])} | 0 <= u < |ds|
      ensures ds[NegationOf(u)] == Negation(ds[u])
    {
      NegationOfPairs(u);
      if u != v && u != n {
        assert ds[NegationOf(u)] == domains[NegationOf(u)] && ds[u] == domains[u];
      }
    }
  }

  /** A one-value domain cannot shrink, so the constants keep their domains. */
  lemma DomainPairKeepsConstants(domains: seq<Domain>, constants: map<int, nat>, v: nat, d: Domain)
    requires DomainsValid(domains) && ConstantsOk(constants, domains)
    requires v < |domains| && Valid(d) && |d| > 0 && d != domains[v]
    requires forall x :: Contains(d, x) ==> Contains(domains[v], x)
    ensures NegationOf(v) < |domains| && ConstantsOk(constants, WithDomainPair(domains, v, d))
  {
    NegationExists(domains, v);
    var n := NegationOf(v);
    var ds := WithDomainPair(domains, v, d);
    forall c | c in constants
      ensures constants[c] < |ds| && ds[constants[c]] == [ClosedInterval(c, c)]
    {
      var u := constants[c];
      if u == v {
        OneValueCannotShrink(domains[v], d, c);
      } else if u == n {
        assert domains[v] == Negation(domains[n]);
        assert Negation(domains[n]) == [ClosedInterval(-c, -c)];
        OneValueCannotShrink(domains[v], d, -c);
      }
    }
  }

  /**
   * Giving `v` a smaller non-empty domain, and its negation the mirrored
   * one, keeps the domain keys covering the domains and the fully encoded
   * variables covered; the remaining values strictly shrink.
   */
  lemma DomainPairShrinks(domains: seq<Domain>, keys: set<(nat, int)>, fully: set<nat>, eq: map<(nat, int), Literal>, v: nat, d: Domain)
    requires DomainsValid(domains) && KeysCoverDomains(domains, keys) && FullyEncodedCovered(fully, domains, eq)
    requires v < |domains| && Valid(d) && d != domains[v]
    requires forall x :: Contains(d, x) ==> Contains(domains[v], x)
    ensures NegationOf(v) < |domains|
    ensures var ds := WithDomainPair(domains, v, d);
      KeysCoverDomains(ds, keys) && FullyEncodedCovered(fully, ds, eq) &&
      RemainingValues(keys, ds) < RemainingValues(keys, domains)
  {
    NegationExists(domains, v);
    var ds := WithDomainPair(domains, v, d);
    NegationValues(d);
    NegationValues(domains[v]);
    assert domains[NegationOf(v)] == Negation(domains[v]);
    assert forall u, x :: 0 <= u < |ds| && Contains(ds[u], x) ==> Contains(domains[u], x);
    var x := SmallerDomainMissesValue(domains[v], d);
    assert (v, x) in RemainingValues(keys, domains) - RemainingValues(keys, ds);
  }

  /**
   * Shrinking the domain of `v` to `d`, and that of its negation to the
   * mirror of `d`, keeps every domain an equality literal was linked to
   * holding the current domain of its variable.
   */
  lemma DomainPairKeepsLinks(domains: seq<Domain>, under: map<(nat, int), Domain>, v: nat, d: Domain)
    requires DomainsValid(domains) && LinksCover(domains, under)
    requires v < |domains| && Valid(d)
    requires forall x :: Contains(d, x) ==> Contains(domains[v], x)
    ensures NegationOf(v) < |domains|
    ensures LinksCover(WithDomainPair(domains, v, d), under)
  {
    NegationExists(domains, v);
    NegationValues(d);
    NegationValues(domains[v]);
    NegationIsValidMirror(d);
    assert domains[NegationOf(v)] == Negation(domains[v]);
    var ds := WithDomainPair(domains, v, d);
    forall w | 0 <= w < |domains|
      ensures Valid(ds[w]) && forall x :: Contains(ds[w], x) ==> Contains(domains[w], x)
    {
      if w != v && w != NegationOf(v) {
        assert ds[w] == domains[w];
      }
    }
    LinksCoverShrink(domains, ds, under);
  }

  /** Appending the domains of a new pair of variables keeps every linked domain holding the current one. */
  lemma AppendKeepsLinks(domains: seq<Domain>, under: map<(nat, int), Domain>, added: seq<Domain>)
    requires DomainsValid(domains) && LinksCover(domains, under)
    ensures LinksCover(domains + added, under)
  {
    var ds := domains + added;
    forall w | 0 <= w < |domains|
      ensures Valid(ds[w]) && forall x :: Contains(ds[w], x) ==> Contains(domains[w], x)
    {
      assert ds[w] == domains[w];
    }
    LinksCoverShrink(domains, ds, under);
  }

  /** At level zero the trail invariants depend on the domains and the constants only through `ConstantsOk`. */
  lemma OtherDomainsKeepState(domains: seq<Domain>, ds: seq<Domain>, encoding: seq<seq<Entry>>, eq: map<(nat, int), Literal>,
                              numVariables: nat, vars: seq<VarInfo>, trail: seq<TrailEntry>,
                              litStarts: seq<int>, litBufferSize: nat, boundsStarts: seq<int>, boundsBuffer: seq<IntegerLiteral>,
                              constants: map<int, nat>, cs: map<int, nat>)
    requires StateOk(domains, encoding, eq, numVariables, vars, trail, [], [],
                     litStarts, litBufferSize, boundsStarts, boundsBuffer, [], constants)
    requires |ds| == |domains| && ConstantsOk(cs, ds)
    ensures StateOk(ds, encoding, eq, numVariables, vars, trail, [], [],
                    litStarts, litBufferSize, boundsStarts, boundsBuffer, [], cs)
  {
  }

  /** Intersecting `a` with `b` keeps `a` exactly when `b` holds all of its values, and empties it exactly when none. */
  lemma IntersectionCases(a: Domain, b: Domain)
    requires ValidWithin(a, kMinIntegerValue, kMaxIntegerValue) && |a| > 0 && Valid(b)
    ensures var d := IntersectionWith(a, b);
      ValidWithin(d, kMinIntegerValue, kMaxIntegerValue) &&
      (d == a <==> forall x :: Contains(a, x) ==> Contains(b, x)) &&
      (d == [] <==> forall x :: Contains(a, x) ==> !Contains(b, x))
  {
    var d := IntersectionWith(a, b);
    if forall x :: Contains(a, x) ==> Contains(b, x) {
      CanonicalRepresentation(d, a);
    }
    if d != [] {
      assert Contains(d, d[0].start);
    }
  }

  // ---------------------------------------------------------------------
  // Constants

  /** The constants with `value` mapped to `v` and, unless it is zero, `-value` to the negation of `v`. */
  function WithConstant(constants: map<int, nat>, value: int, v: nat): map<int, nat>
  {
    if value != 0 then constants[value := v][-value := NegationOf(v)] else constants[value := v]
  }

  /** A new pair of one-value domains `{value}` / `{-value}` may be recorded as the constant `value`. */
  lemma WithConstantOk(constants: map<int, nat>, domains: seq<Domain>, value: int, v: nat)
    requires ConstantsOk(constants, domains) && value !in constants
    requires v % 2 == 0 && v + 1 < |domains|
    requires domains[v] == [ClosedInterval(value, value)] && domains[v + 1] == [ClosedInterval(-value, -value)]
    ensures ConstantsOk(WithConstant(constants, value, v), domains)
  {
    assert -value !in constants;
    assert NegationOf(v) == v + 1 && NegationOf(v + 1) == v;
    var cs := WithConstant(constants, value, v);
    forall c | c in cs
      ensures cs[c] < |domains| && domains[cs[c]] == [ClosedInterval(c, c)] &&
        -c in cs && (c != 0 ==> cs[-c] == NegationOf(cs[c]))
    {
      if c != value && c != -value {
        assert c in constants && cs[c] == constants[c] && cs[-c] == constants[-c];
      }
    }
  }

  // ---------------------------------------------------------------------
  // An entry for a Boolean literal

  /** The entry pushed for a Boolean literal: no variable, no previous entry, the reason `ri`. */
  function LiteralEntry(ri: int): TrailEntry
  {
    TrailEntry(0, kNoIntegerVariable, -1, ri)
  }

  /** Pushing an entry for a Boolean literal keeps every invariant and every bound. */
  lemma PushLiteralKeepsState(domains: seq<Domain>, encoding: seq<seq<Entry>>, eq: map<(nat, int), Literal>, numVariables: nat,
                              vars: seq<VarInfo>, trail: seq<TrailEntry>, levels: seq<int>, reasonLevels: seq<int>,
                              litStarts: seq<int>, litBufferSize: nat, boundsStarts: seq<int>, boundsBuffer: seq<IntegerLiteral>,
                              saved: seq<map<nat, nat>>, constants: map<int, nat>, ri: int)
    requires StateOk(domains, encoding, eq, numVariables, vars, trail, levels, reasonLevels,
                     litStarts, litBufferSize, boundsStarts, boundsBuffer, saved, constants)
    requires |levels| > 0 && 0 <= ri < |litStarts|
    requires ReasonHeld(|vars|, trail + [LiteralEntry(ri)], |trail|, boundsStarts, boundsBuffer)
    ensures var trail' := trail + [LiteralEntry(ri)];
      StateOk(domains, encoding, eq, numVariables, vars, trail', levels, reasonLevels,
              litStarts, litBufferSize, boundsStarts, boundsBuffer, saved, constants) &&
      forall u :: u >= 0 ==> BoundOf(trail', u) == BoundOf(trail, u)
  {
    var e := LiteralEntry(ri);
    var trail' := trail + [e];
    forall u | u >= 0
      ensures LastIndexOf(trail', u) == LastIndexOf(trail, u)
    {
      LastIndexOfPushed(trail, e, u);
    }
    assert trail'[..|trail|] == trail;
    forall t | |vars| <= t < |trail'|
      ensures LinkedAt(|vars|, trail', t)
    {
      if t < |trail| {
        assert LinkedAt(|vars|, trail, t);
        assert trail'[..t] == trail[..t];
      }
    }
    PushKeepsReasons(domains, vars, trail, levels, reasonLevels, litStarts, boundsStarts, boundsBuffer, saved, e);
  }

  /** The cursor fits a trail with the same bounds. */
  lemma CursorFitsKept(domains: seq<Domain>, trail: seq<TrailEntry>, trail': seq<TrailEntry>, cursor: map<nat, nat>)
    requires CursorFits(domains, trail, cursor)
    requires forall u :: 0 <= u < |domains| ==> BoundOf(trail', u) == BoundOf(trail, u)
    ensures CursorFits(domains, trail', cursor)
  {
    forall u | 0 <= u < |domains|
      ensures CursorFitsAt(domains, trail', cursor, u)
    {
      assert CursorFitsAt(domains, trail, cursor, u);
    }
  }

  // ---------------------------------------------------------------------
  // The Boolean trail

  /** `s` with `value` at `index`, first grown with zeros when too short. */
  function RecordedAt(s: seq<int>, index: nat, value: int): (r: seq<int>)
    ensures |r| == if index < |s| then |s| else index + 1
    ensures r[index] == value && forall j :: 0 <= j < |s| && j != index ==> r[j] == s[j]
  {
    var grown := if index < |s| then s else s + seq(index + 1 - |s|, _ => 0);
    grown[index := value]
  }

  /** Every variable assigned in `a0` keeps its value in `a`. */
  ghost predicate AssignmentExtends(a0: map<nat, bool>, a: map<nat, bool>)
  {
    forall b :: b in a0 ==> b in a && a[b] == a0[b]
  }

  /**
   * Every variable assigned in `a` but not in `a0` falsifies the literal
   * of one of the first `k` pairs whose value is outside `d`.
   */
  ghost predicate OnlyExcludedFalsified(a0: map<nat, bool>, a: map<nat, bool>, d: Domain, pairs: seq<ValueLiteralPair>, k: nat)
    requires k <= |pairs|
  {
    forall b :: b in a && b !in a0 ==>
      exists j :: 0 <= j < k && !Contains(d, pairs[j].value) && pairs[j].literal.variable == b && FalseIn(a, pairs[j].literal)
  }

  /** The literal of each of the first `k` pairs whose value is outside `d` is false in `a`. */
  ghost predicate ExcludedFalse(a: map<nat, bool>, d: Domain, pairs: seq<ValueLiteralPair>, k: nat)
    requires k <= |pairs|
  {
    forall j :: 0 <= j < k && !Contains(d, pairs[j].value) ==> FalseIn(a, pairs[j].literal)
  }

  /**
   * With every interval before `i` ending below `v` and interval `i`, if
   * any, ending at or above it, `v` is outside `d` exactly when `v` falls
   * before interval `i` or past the last interval.
   */
  lemma OutsideAtCursor(d: Domain, i: nat, v: int)
    requires Valid(d) && i <= |d|
    requires forall j :: 0 <= j < i ==> d[j].end < v
    requires i < |d| ==> d[i].end >= v
    ensures (i == |d| || v < d[i].start) <==> !Contains(d, v)
  {
    if i == |d| || v < d[i].start {
      GapHasNoValue(d, i - 1, v);
    } else {
      assert d[i].start <= v <= d[i].end;
    }
  }

  /**
   * Falsifying the literal of pair `k`, whose value is outside `d` and
   * which is not true yet, keeps every earlier assignment and keeps
   * `ExcludedFalse` and `OnlyExcludedFalsified` over one more pair.
   */
  lemma {:induction false} ExcludedFalsifiedStep(a0: map<nat, bool>, a1: map<nat, bool>, d: Domain, pairs: seq<ValueLiteralPair>, k: nat)
    requires k < |pairs| && !Contains(d, pairs[k].value)
    requires AssignmentExtends(a0, a1) && OnlyExcludedFalsified(a0, a1, d, pairs, k) && ExcludedFalse(a1, d, pairs, k)
    requires !(pairs[k].literal.variable in a1 && a1[pairs[k].literal.variable] == pairs[k].literal.positive)
    ensures var l := pairs[k].literal; var a2 := a1[l.variable := !l.positive];
      AssignmentExtends(a0, a2) && OnlyExcludedFalsified(a0, a2, d, pairs, k + 1) && ExcludedFalse(a2, d, pairs, k + 1)
  {
    var l := pairs[k].literal;
    var a2 := a1[l.variable := !l.positive];
    forall j | 0 <= j < k + 1 && !Contains(d, pairs[j].value)
      ensures FalseIn(a2, pairs[j].literal)
    {
      if j < k {
        assert FalseIn(a1, pairs[j].literal);
      }
    }
    forall b | b in a2 && b !in a0
      ensures exists j :: 0 <= j < k + 1 && !Contains(d, pairs[j].value) && pairs[j].literal.variable == b && FalseIn(a2, pairs[j].literal)
    {
      if b in a1 && b != l.variable {
        var j :| 0 <= j < k && !Contains(d, pairs[j].value) && pairs[j].literal.variable == b && FalseIn(a1, pairs[j].literal);
        assert FalseIn(a2, pairs[j].literal);
      } else {
        assert FalseIn(a2, pairs[k].literal);
      }
    }
  }

  /** The cursor of the new pair of domains: the first interval, when they have holes. */
  function ResetCursor(cursor: map<nat, nat>, v: nat, d: Domain): map<nat, nat>
  {
    if |d| > 1 then cursor[v := 0][NegationOf(v) := 0] else cursor
  }

  /** The reset cursor fits any bounds on the new domains. */
  lemma ResetCursorFits(domains: seq<Domain>, trail: seq<TrailEntry>, cursor: map<nat, nat>, v: nat, d: Domain)
    requires CursorFits(domains, trail, cursor) && v < |domains| && NegationOf(v) < |domains|
    ensures CursorFits(WithDomainPair(domains, v, d), trail, ResetCursor(cursor, v, d))
  {
    var ds := WithDomainPair(domains, v, d);
    var c := ResetCursor(cursor, v, d);
    forall u | 0 <= u < |ds|
      ensures CursorFitsAt(ds, trail, c, u)
    {
      assert CursorFitsAt(domains, trail, cursor, u);
    }
  }
}
