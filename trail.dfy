/**
 * The integer trail: the current lower bound of every integer variable, the
 * trail of bound changes with their reasons, backtracking to an earlier
 * decision level, and the expansion of a bound into the Boolean literals
 * that explain it.
 *
 * An upper bound is the lower bound of the negated variable:
 * `x <= b` is `NegationOf(x) >= -b`.
 */
module Trail {
  import opened Wrappers
  import opened IntegerTypes
  import opened Domains
  import opened Sat
  import opened Encoder
  import opened TrailModel
  import opened TrailBacktrack
  import opened TrailReasons
  import opened TrailMerge
  import opened TrailEnqueue

  class IntegerTrail {
    const encoder: IntegerEncoder
    const sat: SatSolver

    var vars: seq<VarInfo>
    var integerTrail: seq<TrailEntry>
    /** The answer of the last bound explanation asked for each variable; a hint only. */
    var varTrailIndexCache: seq<nat>
    var integerSearchLevels: seq<int>
    var reasonDecisionLevels: seq<int>
    var literalsReasonStarts: seq<int>
    var literalsReasonBuffer: seq<Literal>
    var boundsReasonStarts: seq<int>
    var boundsReasonBuffer: seq<IntegerLiteral>
    /** The interval of the domain the lower bound of a variable with holes lies in. */
    var lbIntervalIndex: map<nat, nat>
    /** The cursor as it was when each decision level was entered; restored on backtrack. */
    var savedLbIntervalIndex: seq<map<nat, nat>>
    var constantMap: map<int, nat>
    /** How much of the Boolean trail was already turned into bounds. */
    var propagationTrailIndex: nat
    /** For a literal this trail put on the Boolean trail, the index of the entry holding its reason. */
    var booleanTrailIndexToIntegerOne: seq<int>
    /** The variables whose bound changed, for the watchers. */
    var modifiedVars: set<nat>
    /**
     * For an optional variable, the literal that is true when the variable is
     * absent from the model; it is set by code that is not part of this model.
     */
    var isIgnoredLiterals: map<nat, Literal>

    ghost predicate Valid()
      reads this`vars, this`integerTrail, this`integerSearchLevels, this`reasonDecisionLevels
      reads this`literalsReasonStarts, this`literalsReasonBuffer, this`boundsReasonStarts, this`boundsReasonBuffer
      reads this`savedLbIntervalIndex, this`constantMap
      reads encoder`domains, encoder`encodingByVar, encoder`equalityToAssociatedLiteral, encoder`isFullyEncoded
      reads encoder`trueLiteral, encoder`domainKeys, encoder`linkDomains
      reads sat`assignment, sat`numVariables, sat`trail
    {
      encoder.sat == sat && encoder.Valid() && LinksCover(encoder.domains, encoder.linkDomains) &&
      |sat.trail| == |sat.assignment| &&
      StateFits(encoder.domains)
    }

    /** The fields of the trail are consistent with the variables' domains `domains` and the encoder's literals. */
    ghost predicate StateFits(domains: seq<Domain>)
      reads this`vars, this`integerTrail, this`integerSearchLevels, this`reasonDecisionLevels
      reads this`literalsReasonStarts, this`literalsReasonBuffer, this`boundsReasonStarts, this`boundsReasonBuffer
      reads this`savedLbIntervalIndex, this`constantMap
      reads encoder`encodingByVar, encoder`equalityToAssociatedLiteral, sat`numVariables
    {
      StateOk(domains, encoder.encodingByVar, encoder.equalityToAssociatedLiteral, sat.numVariables,
              vars, integerTrail, integerSearchLevels, reasonDecisionLevels,
              literalsReasonStarts, |literalsReasonBuffer|, boundsReasonStarts, boundsReasonBuffer,
              savedLbIntervalIndex, constantMap)
    }

    /** The cache of entries holds one slot per variable; it is kept apart from `Valid`, which it does not affect. */
    ghost predicate CacheSized()
      reads this`vars, this`varTrailIndexCache
    {
      |varTrailIndexCache| == |vars|
    }

    /**
     * The interval cursor fits the current bounds. A conflict found in
     * `Enqueue` may leave it ahead of them; backtracking restores it.
     */
    ghost predicate CursorOk()
      reads this`integerTrail, this`lbIntervalIndex, encoder`domains
    {
      CursorFits(encoder.domains, integerTrail, lbIntervalIndex)
    }

    /** The values of the initial domains; shrinks each time a domain does. */
    ghost function Remaining(): set<(nat, int)>
      reads encoder`domainKeys, encoder`domains
    {
      RemainingValues(encoder.domainKeys, encoder.domains)
    }

    constructor (e: IntegerEncoder, s: SatSolver)
      requires e.sat == s && e.Valid() && e.domains == [] && e.linkDomains == map[]
      requires |s.trail| == |s.assignment|
      requires LiteralsExist(e.encodingByVar, e.equalityToAssociatedLiteral, s.numVariables)
      ensures Valid() && CacheSized() && CursorOk()
      ensures encoder == e && sat == s && vars == [] && integerTrail == [] && integerSearchLevels == []
      ensures literalsReasonStarts == [] && boundsReasonStarts == [] && constantMap == map[] && propagationTrailIndex == 0
    {
      encoder := e;
      sat := s;
      vars := [];
      integerTrail := [];
      varTrailIndexCache := [];
      integerSearchLevels := [];
      reasonDecisionLevels := [];
      literalsReasonStarts := [];
      literalsReasonBuffer := [];
      boundsReasonStarts := [];
      boundsReasonBuffer := [];
      lbIntervalIndex := map[];
      savedLbIntervalIndex := [];
      constantMap := map[];
      propagationTrailIndex := 0;
      booleanTrailIndexToIntegerOne := [];
      modifiedVars := {};
      isIgnoredLiterals := map[];
    }

    function NumIntegerVariables(): nat
      reads this`vars
    {
      |vars|
    }

    function LowerBound(v: nat): int
      reads this`vars
      requires v < |vars|
    {
      vars[v].currentBound
    }

    /** The upper bound of `v` is minus the lower bound of its negation. */
    function UpperBound(v: nat): int
      reads this`vars
      requires v < |vars| && |vars| % 2 == 0
    {
      NegationInRange(v, |vars|);
      -vars[NegationOf(v)].currentBound
    }

    /** The bound of `v` at level zero, kept in its first entry. */
    function LevelZeroBound(v: nat): int
      reads this`integerTrail
      requires v < |integerTrail|
    {
      integerTrail[v].bound
    }

    /**
     * Creates the pair `i` / `NegationOf(i)` with bounds `lb..ub`, with
     * their level-zero entries and initial domains. Only possible at level
     * zero.
     */
    method AddIntegerVariable(lb: int, ub: int) returns (i: nat)
      requires Valid() && CacheSized() && CursorOk()
      requires kMinIntegerValue <= lb <= kMaxIntegerValue && kMinIntegerValue <= ub <= kMaxIntegerValue
      requires lb <= ub
      requires integerSearchLevels == []
      modifies this`vars, this`varTrailIndexCache, this`integerTrail, encoder`domains, encoder`domainKeys
      ensures Valid() && CacheSized() && CursorOk()
      ensures i == old(|vars|) && i % 2 == 0
      ensures vars == old(vars) + [VarInfo(lb, i), VarInfo(-ub, i + 1)]
      ensures integerTrail == old(integerTrail) + [TrailEntry(lb, i, 0, 0), TrailEntry(-ub, i + 1, 0, 0)]
      ensures encoder.domains == old(encoder.domains) + [FromInterval(lb, ub), FromInterval(-ub, -lb)]
    {
      i := |vars|;
      ghost var d0 := encoder.domains;
      AppendDomainPair(lb, ub);
      AppendTrailPair(lb, ub, d0);
    }

    /**
     * Creates the pair `i` / `NegationOf(i)` with the bounds of `domain`,
     * then cuts the initial domain of `i` to `domain`.
     */
    method AddIntegerVariableWithDomain(domain: Domain) returns (i: nat, ok: bool)
      requires Valid() && CacheSized() && CursorOk() && |integerTrail| + 2 < kint32max && integerSearchLevels == []
      requires ValidWithin(domain, kMinIntegerValue, kMaxIntegerValue) && |domain| > 0
      modifies this`vars, this`integerTrail, this`literalsReasonStarts, this`literalsReasonBuffer, this`boundsReasonStarts, this`boundsReasonBuffer
      modifies this`lbIntervalIndex, this`modifiedVars, this`booleanTrailIndexToIntegerOne, this`varTrailIndexCache
      modifies sat`assignment, sat`trail, sat`conflict, encoder`domains, encoder`domainKeys
      ensures Valid() && CacheSized() && (ok ==> CursorOk())
      ensures i == old(|vars|) && i < |vars|
      ensures ok ==> forall x :: Contains(encoder.domains[i], x) ==> Contains(domain, x)
    {
      i := AddIntegerVariable(Min(domain), Max(domain));
      ok := UpdateInitialDomain(i, domain);
    }

    /**
     * The variable fixed to `value`: the one recorded for `value`, or else a
     * new pair of variables with the one-value domains `{value}` and
     * `{-value}`, recorded as the constants `value` and `-value`.
     */
    method GetOrCreateConstantIntegerVariable(value: int) returns (v: nat)
      requires Valid() && CacheSized() && CursorOk()
      requires value !in constantMap ==> integerSearchLevels == [] && kMinIntegerValue <= value <= kMaxIntegerValue
      modifies this`vars, this`varTrailIndexCache, this`integerTrail, this`constantMap, encoder`domains, encoder`domainKeys
      ensures Valid() && CacheSized() && CursorOk()
      ensures value in constantMap && constantMap[value] == v && v < |vars|
      ensures encoder.domains[v] == [ClosedInterval(value, value)]
      ensures value in old(constantMap) ==> v == old(constantMap[value]) && unchanged(this) && unchanged(encoder)
      ensures value !in old(constantMap) ==>
        v == old(|vars|) && constantMap == WithConstant(old(constantMap), value, v) &&
        encoder.domains == old(encoder.domains) + [FromInterval(value, value), FromInterval(-value, -value)]
    {
      if value in constantMap {
        v := constantMap[value];
        return;
      }
      v := AddIntegerVariable(value, value);
      RecordConstant(value, v);
    }

    /** Records the new pair `v` / `NegationOf(v)`, with domains `{value}` / `{-value}`, as the constants `value` / `-value`. */
    method RecordConstant(value: int, v: nat)
      requires Valid() && integerSearchLevels == [] && value !in constantMap
      requires v % 2 == 0 && v + 1 < |encoder.domains|
      requires encoder.domains[v] == [ClosedInterval(value, value)] && encoder.domains[v + 1] == [ClosedInterval(-value, -value)]
      modifies this`constantMap
      ensures Valid() && constantMap == WithConstant(old(constantMap), value, v)
    {
      assert reasonDecisionLevels == [] && savedLbIntervalIndex == [];
      WithConstantOk(constantMap, encoder.domains, value, v);
      OtherDomainsKeepState(encoder.domains, encoder.domains, encoder.encodingByVar, encoder.equalityToAssociatedLiteral, sat.numVariables,
                            vars, integerTrail, literalsReasonStarts, |literalsReasonBuffer|,
                            boundsReasonStarts, boundsReasonBuffer, constantMap, WithConstant(constantMap, value, v));
      constantMap := WithConstant(constantMap, value, v);
    }

    /**
     * Appends the level-zero entries of a new pair of variables with bounds
     * `lb..ub`, once their domains were appended to `domains0`.
     */
    method AppendTrailPair(lb: int, ub: int, ghost domains0: seq<Domain>)
      requires StateFits(domains0) && CursorFits(domains0, integerTrail, lbIntervalIndex) && integerSearchLevels == [] && lb <= ub
      requires encoder.domains == domains0 + [FromInterval(lb, ub), FromInterval(-ub, -lb)]
      modifies this`vars, this`varTrailIndexCache, this`integerTrail
      ensures StateFits(encoder.domains) && CursorOk()
      ensures var i := old(|vars|);
        vars == old(vars) + [VarInfo(lb, i), VarInfo(-ub, i + 1)] &&
        varTrailIndexCache == old(varTrailIndexCache) + [i, i + 1] &&
        integerTrail == old(integerTrail) + [TrailEntry(lb, i, 0, 0), TrailEntry(-ub, i + 1, 0, 0)]
    {
      var i := |vars|;
      NewPairKeepsState(domains0, encoder.encodingByVar, encoder.equalityToAssociatedLiteral, sat.numVariables,
                        vars, integerTrail, literalsReasonStarts, |literalsReasonBuffer|,
                        boundsReasonStarts, boundsReasonBuffer, lbIntervalIndex, constantMap, lb, ub);
      vars := vars + [VarInfo(lb, i), VarInfo(-ub, i + 1)];
      varTrailIndexCache := varTrailIndexCache + [i, i + 1];
      integerTrail := integerTrail + [TrailEntry(lb, i, 0, 0), TrailEntry(-ub, i + 1, 0, 0)];
    }

    /**
     * The first entry of the trail at which `i` held, or -1 when `i` held at
     * level zero; remembered in the cache of `i.variable`, which it also
     * uses as a shortcut.
     */
    method FindLowestTrailIndexThatExplainBound(i: IntegerLiteral) returns (r: int)
      requires Walkable() && i.variable < |vars| && i.bound <= vars[i.variable].currentBound
      modifies this`varTrailIndexCache
      ensures Walkable()
      ensures r == -1 <==> i.bound <= integerTrail[i.variable].bound
      ensures r != -1 ==>
        |vars| <= r && IsLowestExplaining(integerTrail, i.variable, i.bound, r) &&
        0 <= integerTrail[r].prevTrailIndex < r && integerTrail[integerTrail[r].prevTrailIndex].bound < i.bound
      ensures varTrailIndexCache == if r == -1 then old(varTrailIndexCache) else old(varTrailIndexCache)[i.variable := r]
    {
      var v := i.variable;
      if i.bound <= integerTrail[v].bound {
        return -1;
      }
      var index := vars[v].currentTrailIndex;
      var cached := varTrailIndexCache[v];
      if cached < index && integerTrail[cached].variable == v && integerTrail[cached].bound >= i.bound {
        index := cached;
      }
      r := WalkToLowest(|vars|, integerTrail, v, i.bound, index);
      varTrailIndexCache := varTrailIndexCache[v := r];
    }

    /** The part of `Valid` that walking down the entries of a variable relies on. */
    ghost predicate Walkable()
      reads this`vars, this`integerTrail, this`varTrailIndexCache
    {
      |varTrailIndexCache| == |vars| &&
      InitialEntries(|vars|, integerTrail) && CurrentIsLast(vars, integerTrail) && ChainLinked(|vars|, integerTrail)
    }

    lemma ViewIsOk()
      requires Valid() && |integerTrail| < kint32max
      ensures ViewOk(TrailView(vars, integerTrail, encoder.encodingByVar, literalsReasonStarts, literalsReasonBuffer, boundsReasonStarts, boundsReasonBuffer))
    {
    }

    /**
     * The entries that first made each of `literals` true, for those not
     * true at level zero, in the order of `literals`.
     */
    method ExplainingEntries(literals: seq<IntegerLiteral>) returns (queue: seq<int>)
      requires Walkable()
      requires forall k :: 0 <= k < |literals| ==>
        literals[k].variable < |vars| && literals[k].bound <= vars[literals[k].variable].currentBound
      modifies this`varTrailIndexCache
      ensures Walkable()
      ensures AllQueued(TrailView(vars, integerTrail, encoder.encodingByVar, literalsReasonStarts, literalsReasonBuffer, boundsReasonStarts, boundsReasonBuffer), queue)
      ensures forall k :: 0 <= k < |literals| && literals[k].bound > integerTrail[literals[k].variable].bound ==>
        exists j :: 0 <= j < |queue| && IsLowestExplaining(integerTrail, literals[k].variable, literals[k].bound, queue[j])
    {
      queue := [];
      var i := 0;
      while i < |literals|
        invariant 0 <= i <= |literals| && Walkable()
        invariant AllQueued(TrailView(vars, integerTrail, encoder.encodingByVar, literalsReasonStarts, literalsReasonBuffer, boundsReasonStarts, boundsReasonBuffer), queue)
        invariant forall k :: 0 <= k < i && literals[k].bound > integerTrail[literals[k].variable].bound ==>
          exists j :: 0 <= j < |queue| && IsLowestExplaining(integerTrail, literals[k].variable, literals[k].bound, queue[j])
      {
        ghost var queue0 := queue;
        var index := FindLowestTrailIndexThatExplainBound(literals[i]);
        if index >= |vars| {
          queue := queue + [index];
        }
        forall k | 0 <= k < i + 1 && literals[k].bound > integerTrail[literals[k].variable].bound
          ensures exists j :: 0 <= j < |queue| && IsLowestExplaining(integerTrail, literals[k].variable, literals[k].bound, queue[j])
        {
          if k < i {
            var j :| 0 <= j < |queue0| && IsLowestExplaining(integerTrail, literals[k].variable, literals[k].bound, queue0[j]);
            assert queue[j] == queue0[j];
          } else {
            assert queue[|queue| - 1] == index;
          }
        }
        i := i + 1;
      }
    }

    /**
     * Appends to `output` the Boolean literals that explain `literals`,
     * bounds that currently hold. The entries that first made them true
     * are expanded from the latest one down, `processed` listing them in
     * that order; for every literal not true at level zero an expanded
     * entry of its variable implies it.
     */
    method MergeReasonInto(literals: seq<IntegerLiteral>, output: seq<Literal>) returns (out: seq<Literal>, ghost processed: seq<int>)
      requires Valid() && CacheSized() && |integerTrail| < kint32max
      requires forall k :: 0 <= k < |literals| ==>
        literals[k].variable < |vars| && literals[k].bound <= vars[literals[k].variable].currentBound
      modifies this`varTrailIndexCache
      ensures Valid() && CacheSized()
      ensures AllQueued(TrailView(vars, integerTrail, encoder.encodingByVar, literalsReasonStarts, literalsReasonBuffer, boundsReasonStarts, boundsReasonBuffer), processed) && Decreasing(processed)
      ensures out == MergedOutput(TrailView(vars, integerTrail, encoder.encodingByVar, literalsReasonStarts, literalsReasonBuffer, boundsReasonStarts, boundsReasonBuffer), output, LiteralVariables(output), processed)
      ensures forall k :: 0 <= k < |literals| && literals[k].bound > integerTrail[literals[k].variable].bound ==>
        var l := Latest(integerTrail, processed, literals[k].variable);
        |vars| <= l < |integerTrail| && integerTrail[l].bound >= literals[k].bound
    {
      var queue := ExplainingEntries(literals);
      ViewIsOk();
      var tmp;
      out, tmp, processed := MergeQueued(TrailView(vars, integerTrail, encoder.encodingByVar, literalsReasonStarts, literalsReasonBuffer, boundsReasonStarts, boundsReasonBuffer),
                                         [], queue, literals, output);
    }

    /** The Boolean literals that explain `literal`, a bound that currently holds. */
    method ReasonFor(literal: IntegerLiteral) returns (reason: seq<Literal>, ghost processed: seq<int>)
      requires Valid() && CacheSized() && |integerTrail| < kint32max
      requires literal.variable < |vars| && literal.bound <= vars[literal.variable].currentBound
      modifies this`varTrailIndexCache
      ensures Valid() && CacheSized()
      ensures AllQueued(TrailView(vars, integerTrail, encoder.encodingByVar, literalsReasonStarts, literalsReasonBuffer, boundsReasonStarts, boundsReasonBuffer), processed) && Decreasing(processed)
      ensures reason == MergedOutput(TrailView(vars, integerTrail, encoder.encodingByVar, literalsReasonStarts, literalsReasonBuffer, boundsReasonStarts, boundsReasonBuffer), [], {}, processed)
      ensures literal.bound > integerTrail[literal.variable].bound ==>
        var l := Latest(integerTrail, processed, literal.variable);
        |vars| <= l < |integerTrail| && integerTrail[l].bound >= literal.bound
    {
      reason, processed := MergeReasonInto([literal], []);
      assert [literal][0] == literal;
      assert LiteralVariables([]) == {};
    }

    /**
     * The reason of the Boolean literal at `trailIndex` of the Boolean
     * trail, one this trail propagated: the literal reason of the entry
     * holding its reason, then the expansion of the entries explaining the
     * integer reason of that entry.
     */
    method Reason(trailIndex: nat) returns (reason: seq<Literal>, ghost processed: seq<int>)
      requires Valid() && |integerTrail| < kint32max
      requires trailIndex < |booleanTrailIndexToIntegerOne|
      requires |vars| <= booleanTrailIndexToIntegerOne[trailIndex] < |integerTrail|
      ensures Valid()
      ensures ViewOk(TrailView(vars, integerTrail, encoder.encodingByVar, literalsReasonStarts, literalsReasonBuffer, boundsReasonStarts, boundsReasonBuffer))
      ensures ExplainsEntry(TrailView(vars, integerTrail, encoder.encodingByVar, literalsReasonStarts, literalsReasonBuffer, boundsReasonStarts, boundsReasonBuffer),
                            booleanTrailIndexToIntegerOne[trailIndex], reason, processed)
    {
      ViewIsOk();
      var tmp;
      reason, tmp, processed := ReasonOfEntry(TrailView(vars, integerTrail, encoder.encodingByVar, literalsReasonStarts, literalsReasonBuffer, boundsReasonStarts, boundsReasonBuffer),
                                              [], booleanTrailIndexToIntegerOne[trailIndex]);
    }

    /**
     * Backtracks to the Boolean solver's current decision level: the
     * propagation restarts no later than `literalTrailIndex`, and when the
     * trail holds a level past it, the bounds, the trail, the levels, the
     * stored reasons and the interval cursor are put back as they were when
     * that level was entered. Nothing else changes.
     */
    method Untrail(literalTrailIndex: nat)
      requires Valid()
      modifies this`propagationTrailIndex, this`vars, this`integerTrail, this`integerSearchLevels, this`reasonDecisionLevels
      modifies this`literalsReasonStarts, this`literalsReasonBuffer, this`boundsReasonStarts, this`boundsReasonBuffer
      modifies this`lbIntervalIndex, this`savedLbIntervalIndex
      ensures Valid()
      ensures old(CursorOk()) ==> CursorOk()
      ensures sat.level < old(|integerSearchLevels|) ==> CursorOk()
      ensures propagationTrailIndex <= old(propagationTrailIndex) && propagationTrailIndex <= literalTrailIndex
      ensures propagationTrailIndex == old(propagationTrailIndex) || propagationTrailIndex == literalTrailIndex
      ensures sat.level >= old(|integerSearchLevels|) ==>
        vars == old(vars) && integerTrail == old(integerTrail) && integerSearchLevels == old(integerSearchLevels) &&
        lbIntervalIndex == old(lbIntervalIndex) && savedLbIntervalIndex == old(savedLbIntervalIndex) &&
        reasonDecisionLevels == old(reasonDecisionLevels) &&
        literalsReasonStarts == old(literalsReasonStarts) && literalsReasonBuffer == old(literalsReasonBuffer) &&
        boundsReasonStarts == old(boundsReasonStarts) && boundsReasonBuffer == old(boundsReasonBuffer)
      ensures sat.level < old(|integerSearchLevels|) ==>
        integerTrail == old(integerTrail[..integerSearchLevels[sat.level]]) &&
        integerSearchLevels == old(integerSearchLevels[..sat.level]) &&
        lbIntervalIndex == old(savedLbIntervalIndex[sat.level])
      ensures sat.level < old(|integerSearchLevels|) ==>
        var size := old(reasonDecisionLevels[sat.level]);
        var n := KeptCount(old(literalsReasonStarts), size);
        reasonDecisionLevels == old(reasonDecisionLevels[..sat.level]) &&
        literalsReasonStarts == old(literalsReasonStarts)[..n] && boundsReasonStarts == old(boundsReasonStarts)[..n] &&
        literalsReasonBuffer == old(literalsReasonBuffer)[..KeptSize(old(literalsReasonStarts), old(|literalsReasonBuffer|), size)] &&
        boundsReasonBuffer == old(boundsReasonBuffer)[..KeptSize(old(boundsReasonStarts), old(|boundsReasonBuffer|), size)]
    {
      if literalTrailIndex < propagationTrailIndex {
        propagationTrailIndex := literalTrailIndex;
      }
      var level := sat.level;
      if level >= |integerSearchLevels| {
        return;
      }
      BacktrackTo(level);
      EncoderKept();
    }

    /** The encoder and the Boolean solver are still valid when neither changed. */
    twostate lemma EncoderKept()
      requires old(encoder.sat == sat && encoder.Valid() && |sat.trail| == |sat.assignment|)
      requires unchanged(encoder, sat)
      ensures encoder.sat == sat && encoder.Valid() && |sat.trail| == |sat.assignment|
    {
    }

    /** Cuts the trail, the levels and the reasons back to where `level + 1` was entered. */
    method BacktrackTo(level: nat)
      requires StateFits(encoder.domains) && level < |integerSearchLevels|
      modifies this`vars, this`integerTrail, this`integerSearchLevels, this`reasonDecisionLevels
      modifies this`literalsReasonStarts, this`literalsReasonBuffer, this`boundsReasonStarts, this`boundsReasonBuffer
      modifies this`lbIntervalIndex, this`savedLbIntervalIndex
      ensures StateFits(encoder.domains) && CursorOk()
      ensures var target := old(integerSearchLevels[level]);
        var size := old(reasonDecisionLevels[level]);
        integerTrail == old(integerTrail[..target]) && |vars| == old(|vars|) &&
        integerSearchLevels == old(integerSearchLevels[..level]) && reasonDecisionLevels == old(reasonDecisionLevels[..level]) &&
        var n := KeptCount(old(literalsReasonStarts), size);
        literalsReasonStarts == old(literalsReasonStarts)[..n] && boundsReasonStarts == old(boundsReasonStarts)[..n] &&
        literalsReasonBuffer == old(literalsReasonBuffer)[..KeptSize(old(literalsReasonStarts), old(|literalsReasonBuffer|), size)] &&
        boundsReasonBuffer == old(boundsReasonBuffer)[..KeptSize(old(boundsReasonStarts), old(|boundsReasonBuffer|), size)] &&
        lbIntervalIndex == old(savedLbIntervalIndex[level]) && savedLbIntervalIndex == old(savedLbIntervalIndex[..level])
    {
      var target := integerSearchLevels[level];
      var size := reasonDecisionLevels[level];
      var vs := RestoreVars(vars, integerTrail, target);
      BacktrackKeepsState(encoder.domains, encoder.encodingByVar, encoder.equalityToAssociatedLiteral, sat.numVariables,
                          vars, vs, integerTrail, integerSearchLevels, reasonDecisionLevels,
                          literalsReasonStarts, |literalsReasonBuffer|, boundsReasonStarts, boundsReasonBuffer,
                          savedLbIntervalIndex, constantMap, level);
      var n := KeptCount(literalsReasonStarts, size);
      var litSize := KeptSize(literalsReasonStarts, |literalsReasonBuffer|, size);
      var boundsSize := KeptSize(boundsReasonStarts, |boundsReasonBuffer|, size);
      CutTrail(vs, target, level);
      CutReasons(level, n, litSize, boundsSize);
    }

    /** Puts back the bounds, cuts the trail and the levels to `target` and `level`, and restores the interval cursor. */
    method CutTrail(vs: seq<VarInfo>, target: nat, level: nat)
      requires target <= |integerTrail| && level < |integerSearchLevels| && level < |savedLbIntervalIndex|
      modifies this`vars, this`integerTrail, this`integerSearchLevels, this`lbIntervalIndex, this`savedLbIntervalIndex
      ensures vars == vs && integerTrail == old(integerTrail[..target]) && integerSearchLevels == old(integerSearchLevels[..level])
      ensures lbIntervalIndex == old(savedLbIntervalIndex[level]) && savedLbIntervalIndex == old(savedLbIntervalIndex[..level])
    {
      vars, integerTrail, integerSearchLevels := vs, integerTrail[..target], integerSearchLevels[..level];
      lbIntervalIndex, savedLbIntervalIndex := savedLbIntervalIndex[level], savedLbIntervalIndex[..level];
    }

    /** Drops the stored reasons of the entries past the first `n`, and the reason levels past `level`. */
    method CutReasons(level: nat, n: nat, litSize: nat, boundsSize: nat)
      requires level <= |reasonDecisionLevels| && n <= |literalsReasonStarts| && n <= |boundsReasonStarts|
      requires litSize <= |literalsReasonBuffer| && boundsSize <= |boundsReasonBuffer|
      modifies this`reasonDecisionLevels, this`literalsReasonStarts, this`literalsReasonBuffer, this`boundsReasonStarts, this`boundsReasonBuffer
      ensures reasonDecisionLevels == old(reasonDecisionLevels[..level])
      ensures literalsReasonStarts == old(literalsReasonStarts[..n]) && literalsReasonBuffer == old(literalsReasonBuffer[..litSize])
      ensures boundsReasonStarts == old(boundsReasonStarts[..n]) && boundsReasonBuffer == old(boundsReasonBuffer[..boundsSize])
    {
      reasonDecisionLevels := reasonDecisionLevels[..level];
      literalsReasonStarts, literalsReasonBuffer := literalsReasonStarts[..n], literalsReasonBuffer[..litSize];
      boundsReasonStarts, boundsReasonBuffer := boundsReasonStarts[..n], boundsReasonBuffer[..boundsSize];
    }

    /** Adds the initial domains of a new pair of variables, and their values to the domain keys. */
    method AppendDomainPair(lb: int, ub: int)
      requires encoder.Valid() && LinksCover(encoder.domains, encoder.linkDomains) && kMinIntegerValue <= lb <= ub <= kMaxIntegerValue
      modifies encoder`domains, encoder`domainKeys
      ensures encoder.Valid() && LinksCover(encoder.domains, encoder.linkDomains)
      ensures encoder.domains == old(encoder.domains) + [FromInterval(lb, ub), FromInterval(-ub, -lb)]
      ensures encoder.domainKeys >= old(encoder.domainKeys)
    {
      var i := |encoder.domains|;
      DomainPairKeepsEncoder(encoder.domains, encoder.domainKeys, encoder.isFullyEncoded, encoder.equalityToAssociatedLiteral, lb, ub);
      AppendKeepsLinks(encoder.domains, encoder.linkDomains, [FromInterval(lb, ub), FromInterval(-ub, -lb)]);
      encoder.domainKeys := encoder.domainKeys + PairsOf(i, lb, ub) + PairsOf(i + 1, -ub, -lb);
      encoder.domains := encoder.domains + [FromInterval(lb, ub), FromInterval(-ub, -lb)];
    }

    // -------------------------------------------------------------------
    // Tightening a bound

    /** The trail and its stored reasons, as the reason expansion reads them. */
    ghost function View(): TrailView
      reads this`vars, this`integerTrail, encoder`encodingByVar, this`literalsReasonStarts, this`literalsReasonBuffer
      reads this`boundsReasonStarts, this`boundsReasonBuffer
    {
      TrailView(vars, integerTrail, encoder.encodingByVar, literalsReasonStarts, literalsReasonBuffer, boundsReasonStarts, boundsReasonBuffer)
    }

    /** A reason for a new bound: its Boolean literals are false and its integer literals hold. */
    predicate ReasonIsValid(literalReason: seq<Literal>, integerReason: seq<IntegerLiteral>)
      reads this`vars, sat`assignment
    {
      (forall k :: 0 <= k < |literalReason| ==> sat.LiteralIsFalse(literalReason[k])) &&
      (forall k :: 0 <= k < |integerReason| ==>
         integerReason[k].variable < |vars| && integerReason[k].bound <= vars[integerReason[k].variable].currentBound)
    }

    /**
     * The conflict of the Boolean solver is `output` followed by the
     * expansion of entries of the trail, and for every one of `literals`
     * not true at level zero an expanded entry of its variable implies it.
     */
    ghost predicate ConflictExplains(literals: seq<IntegerLiteral>, output: seq<Literal>)
      reads this`vars, this`integerTrail, encoder`encodingByVar, this`literalsReasonStarts, this`literalsReasonBuffer
      reads this`boundsReasonStarts, this`boundsReasonBuffer, sat`conflict
    {
      ViewOk(View()) && exists processed :: ExplainsLiterals(View(), literals, output, sat.conflict, processed)
    }

    /**
     * What every step of a bound change keeps: the variables and the
     * levels; the trail size at level zero; bounds never decrease and
     * domains never grow.
     */
    twostate predicate Progressed()
      reads this`vars, this`integerTrail, this`integerSearchLevels, encoder`domainKeys, encoder`domains
    {
      |vars| == old(|vars|) && integerSearchLevels == old(integerSearchLevels) &&
      (integerSearchLevels == [] ==> |integerTrail| == old(|integerTrail|)) &&
      Remaining() <= old(Remaining()) &&
      forall u :: 0 <= u < |vars| ==> vars[u].currentBound >= old(vars[u].currentBound)
    }

    /**
     * The cursor will fit the trail once `v` has the bound `bound`: it is
     * `cursor0`, which fits the trail now, with `k` for `v` when the domain
     * of `v` has holes, every interval before `k` ending below `bound`.
     */
    ghost predicate CursorFitsOnce(v: nat, bound: int, cursor0: map<nat, nat>, k: nat)
      reads this`integerTrail, this`lbIntervalIndex, encoder`domains
    {
      v < |encoder.domains| && CursorFits(encoder.domains, integerTrail, cursor0) &&
      var d := encoder.domains[v];
      lbIntervalIndex == (if |d| > 1 then cursor0[v := k] else cursor0) &&
      (|d| > 1 ==> k < |d| && forall j :: 0 <= j < k ==> d[j].end < bound)
    }

    /** The current bound of a variable is the bound of its last entry. */
    lemma BoundIsCurrent(v: nat)
      requires Valid() && v < |vars|
      ensures BoundOf(integerTrail, v) == vars[v].currentBound && |vars| % 2 == 0 && NegationOf(v) < |vars|
    {
      NegationInRange(v, |vars|);
    }

    /**
     * Sets the conflict of the Boolean solver to `literalReason` followed
     * by the explanation of `integerReason`, and fails.
     */
    method ReportConflict(literalReason: seq<Literal>, integerReason: seq<IntegerLiteral>) returns (ok: bool)
      requires Valid() && CacheSized() && |integerTrail| < kint32max && ReasonIsValid(literalReason, integerReason)
      modifies this`varTrailIndexCache, sat`conflict
      ensures Valid() && CacheSized() && !ok
      ensures ConflictExplains(integerReason, literalReason)
    {
      var conflict;
      ghost var processed;
      conflict, processed := MergeReasonInto(integerReason, literalReason);
      sat.SetConflict(conflict);
      ViewIsOk();
      assert ExplainsLiterals(View(), integerReason, literalReason, sat.conflict, processed);
      ok := false;
    }

    /**
     * The bound `v >= bound` is above the upper bound of `v`: the conflict
     * is `literalReason` with the explanation of `integerReason` and of
     * `v <= bound - 1`, the weakest upper bound that still conflicts.
     */
    method UpperBoundConflict(v: nat, bound: int, literalReason: seq<Literal>, integerReason: seq<IntegerLiteral>) returns (ok: bool)
      requires Valid() && CacheSized() && |integerTrail| < kint32max && ReasonIsValid(literalReason, integerReason)
      requires v < |vars| && |vars| % 2 == 0 && bound > UpperBound(v)
      modifies this`varTrailIndexCache, sat`conflict
      ensures Valid() && CacheSized() && !ok
      ensures ConflictExplains(integerReason + [LowerOrEqual(v, bound - 1)], literalReason)
    {
      NegationInRange(v, |vars|);
      ok := ReportConflict(literalReason, integerReason + [LowerOrEqual(v, bound - 1)]);
    }

    /**
     * Puts the literal associated with a new bound on the Boolean trail:
     * with no reason at level zero; otherwise recording that its reason is
     * that of the entry at `trailIndexWithSameReason`. A literal already
     * true needs nothing; one already false is a conflict made of
     * `literalReason`, the literal and the explanation of `integerReason`.
     */
    method EnqueueAssociatedLiteral(literal: Literal, trailIndexWithSameReason: int,
                                    literalReason: seq<Literal>, integerReason: seq<IntegerLiteral>) returns (ok: bool)
      requires Valid() && CacheSized() && |integerTrail| < kint32max && ReasonIsValid(literalReason, integerReason)
      requires literal.variable < sat.numVariables
      modifies sat`assignment, sat`trail, sat`conflict, this`booleanTrailIndexToIntegerOne
      modifies this`varTrailIndexCache
      ensures Valid() && CacheSized() && ReasonIsValid(literalReason, integerReason)
      ensures old(!sat.VariableIsAssigned(literal.variable)) ==>
        ok && sat.assignment == old(sat.assignment)[literal.variable := literal.positive] && sat.trail == old(sat.trail) + [literal] &&
        booleanTrailIndexToIntegerOne == if integerSearchLevels == [] then old(booleanTrailIndexToIntegerOne)
          else RecordedAt(old(booleanTrailIndexToIntegerOne), old(|sat.trail|), trailIndexWithSameReason)
      ensures old(sat.LiteralIsTrue(literal)) ==>
        ok && sat.assignment == old(sat.assignment) && sat.trail == old(sat.trail) &&
        booleanTrailIndexToIntegerOne == old(booleanTrailIndexToIntegerOne)
      ensures old(sat.LiteralIsFalse(literal)) ==>
        !ok && sat.assignment == old(sat.assignment) && sat.trail == old(sat.trail) &&
        ConflictExplains(integerReason, literalReason + [literal])
    {
      if !sat.VariableIsAssigned(literal.variable) {
        if integerSearchLevels != [] {
          booleanTrailIndexToIntegerOne := RecordedAt(booleanTrailIndexToIntegerOne, |sat.trail|, trailIndexWithSameReason);
        }
        sat.Enqueue(literal);
        ok := true;
      } else if sat.LiteralIsFalse(literal) {
        ok := ReportConflict(literalReason + [literal], integerReason);
      } else {
        ok := true;
      }
    }

    /** The literal found for a bound is a variable of the Boolean solver. */
    lemma SearchedLiteralExists(i: IntegerLiteral)
      requires Valid()
      ensures var r := encoder.SearchForLiteralAtOrBefore(i); r.Some? ==> r.value.variable < sat.numVariables
    {
      var r := encoder.SearchForLiteralAtOrBefore(i);
      if r.Some? {
        var m := VariableEncoding(encoder.encodingByVar, i.variable);
        var e :| e in m && e.bound <= i.bound && e.literal == r.value &&
                 forall e' :: e' in m && e'.bound <= i.bound ==> e'.bound <= e.bound;
        var k :| 0 <= k < |m| && m[k] == e;
      }
    }

    /** Stores `literalReason` and `integerReason` as a new reason, for the entry `v >= bound` about to be pushed. */
    method StoreReason(literalReason: seq<Literal>, integerReason: seq<IntegerLiteral>, v: nat, bound: int)
      requires StateFits(encoder.domains) && v < |vars|
      requires forall k :: 0 <= k < |integerReason| ==>
        integerReason[k].variable < |vars| && integerReason[k].bound <= vars[integerReason[k].variable].currentBound
      modifies this`literalsReasonStarts, this`literalsReasonBuffer, this`boundsReasonStarts, this`boundsReasonBuffer
      ensures StateFits(encoder.domains)
      ensures literalsReasonStarts == old(literalsReasonStarts) + [old(|literalsReasonBuffer|)]
      ensures literalsReasonBuffer == old(literalsReasonBuffer) + literalReason
      ensures boundsReasonStarts == old(boundsReasonStarts) + [old(|boundsReasonBuffer|)]
      ensures boundsReasonBuffer == old(boundsReasonBuffer) + integerReason
      ensures ReasonHeld(|vars|, integerTrail + [PushedEntry(vars, v, bound, old(|literalsReasonStarts|))], |integerTrail|,
                         boundsReasonStarts, boundsReasonBuffer)
    {
      AppendReasonKeepsState(encoder.domains, encoder.encodingByVar, encoder.equalityToAssociatedLiteral, sat.numVariables,
                             vars, integerTrail, integerSearchLevels, reasonDecisionLevels,
                             literalsReasonStarts, literalsReasonBuffer, boundsReasonStarts, boundsReasonBuffer,
                             savedLbIntervalIndex, constantMap, literalReason, integerReason);
      NewReasonHeld(|vars|, vars, integerTrail, boundsReasonStarts, boundsReasonBuffer, integerReason,
                    PushedEntry(vars, v, bound, |literalsReasonStarts|));
      literalsReasonStarts, literalsReasonBuffer := literalsReasonStarts + [|literalsReasonBuffer|], literalsReasonBuffer + literalReason;
      boundsReasonStarts, boundsReasonBuffer := boundsReasonStarts + [|boundsReasonBuffer|], boundsReasonBuffer + integerReason;
    }

    /** Pushes the entry `v >= bound` with the reason `ri`; `v` takes the bound. */
    method AppendEntry(v: nat, bound: int, ri: int)
      requires StateFits(encoder.domains) && |integerSearchLevels| > 0
      requires v < |vars| && bound > vars[v].currentBound && 0 <= ri < |literalsReasonStarts|
      requires ReasonHeld(|vars|, integerTrail + [PushedEntry(vars, v, bound, ri)], |integerTrail|, boundsReasonStarts, boundsReasonBuffer)
      modifies this`vars, this`integerTrail
      ensures StateFits(encoder.domains)
      ensures integerTrail == old(integerTrail) + [PushedEntry(old(vars), v, bound, ri)]
      ensures vars == old(vars)[v := VarInfo(bound, old(|integerTrail|))]
      ensures BoundOf(integerTrail, v) == bound && forall u :: u != v ==> BoundOf(integerTrail, u) == BoundOf(old(integerTrail), u)
    {
      PushKeepsState(encoder.domains, encoder.encodingByVar, encoder.equalityToAssociatedLiteral, sat.numVariables,
                     vars, integerTrail, integerSearchLevels, reasonDecisionLevels,
                     literalsReasonStarts, |literalsReasonBuffer|, boundsReasonStarts, boundsReasonBuffer,
                     savedLbIntervalIndex, constantMap, v, bound, ri);
      integerTrail, vars := integerTrail + [PushedEntry(vars, v, bound, ri)], vars[v := VarInfo(bound, |integerTrail|)];
    }

    /**
     * At a positive level, pushes `v >= bound`: with a new stored reason,
     * or with the reason of the entry `sameReason` when that is an entry
     * of the trail. `v` takes the bound and the new entry.
     */
    method PushBound(v: nat, bound: int, literalReason: seq<Literal>, integerReason: seq<IntegerLiteral>, sameReason: int)
      requires Valid() && |integerSearchLevels| > 0 && ReasonIsValid(literalReason, integerReason)
      requires v < |vars| && bound > vars[v].currentBound && sameReason >= |vars|
      modifies this`vars, this`integerTrail
      modifies this`literalsReasonStarts, this`literalsReasonBuffer, this`boundsReasonStarts, this`boundsReasonBuffer
      ensures Valid()
      ensures var ri := if sameReason < old(|integerTrail|) then old(integerTrail[sameReason].reasonIndex) else old(|literalsReasonStarts|);
        integerTrail == old(integerTrail) + [TrailEntry(bound, v, old(vars[v].currentTrailIndex), ri)] &&
        vars == old(vars)[v := VarInfo(bound, old(|integerTrail|))]
      ensures sameReason < old(|integerTrail|) ==>
        literalsReasonStarts == old(literalsReasonStarts) && literalsReasonBuffer == old(literalsReasonBuffer) &&
        boundsReasonStarts == old(boundsReasonStarts) && boundsReasonBuffer == old(boundsReasonBuffer)
      ensures sameReason >= old(|integerTrail|) ==>
        literalsReasonStarts == old(literalsReasonStarts) + [old(|literalsReasonBuffer|)] &&
        literalsReasonBuffer == old(literalsReasonBuffer) + literalReason &&
        boundsReasonStarts == old(boundsReasonStarts) + [old(|boundsReasonBuffer|)] &&
        boundsReasonBuffer == old(boundsReasonBuffer) + integerReason
      ensures BoundOf(integerTrail, v) == bound && forall u :: u != v ==> BoundOf(integerTrail, u) == BoundOf(old(integerTrail), u)
    {
      var ri: int;
      if sameReason < |integerTrail| {
        ri := integerTrail[sameReason].reasonIndex;
        ReusedReasonHeld(|vars|, integerTrail, boundsReasonStarts, boundsReasonBuffer, sameReason, PushedEntry(vars, v, bound, ri));
      } else {
        ri := |literalsReasonStarts|;
        StoreReason(literalReason, integerReason, v, bound);
      }
      AppendEntry(v, bound, ri);
      EncoderKept();
    }

    /** At level zero, gives `v` the bound `bound` in place, in its variable and in its level-zero entry. */
    method SetLevelZeroBound(v: nat, bound: int)
      requires StateFits(encoder.domains) && integerSearchLevels == [] && v < |vars|
      modifies this`vars, this`integerTrail
      ensures StateFits(encoder.domains)
      ensures vars == old(vars)[v := old(vars[v]).(currentBound := bound)]
      ensures integerTrail == WithLevelZeroBound(old(integerTrail), v, bound)
      ensures BoundOf(integerTrail, v) == bound && forall u :: u != v ==> BoundOf(integerTrail, u) == BoundOf(old(integerTrail), u)
    {
      assert reasonDecisionLevels == [] && savedLbIntervalIndex == [];
      LevelZeroKeepsState(encoder.domains, encoder.encodingByVar, encoder.equalityToAssociatedLiteral, sat.numVariables,
                          vars, integerTrail, literalsReasonStarts, |literalsReasonBuffer|,
                          boundsReasonStarts, boundsReasonBuffer, constantMap, v, bound);
      vars, integerTrail := vars[v := vars[v].(currentBound := bound)], WithLevelZeroBound(integerTrail, v, bound);
    }

    /** `v` is optional and its absence literal is true: its bounds no longer matter. */
    predicate IsCurrentlyIgnored(v: nat)
      reads this`isIgnoredLiterals, sat`assignment
    {
      v in isIgnoredLiterals && sat.LiteralIsTrue(isIgnoredLiterals[v])
    }

    /**
     * Tightens the lower bound of `i.variable` to `i.bound`, with the
     * reason `literalReason` / `integerReason` (or the reason of the entry
     * `sameReason` when that is an entry of the trail). Nothing happens
     * when the bound is not larger than the current one. On a domain with
     * holes the bound is raised to the next value of the domain, and there
     * is a conflict when there is none; there is a conflict too when the
     * bound is above the upper bound. Otherwise the associated literal is
     * put on the Boolean trail, and the bound is pushed on the trail at a
     * positive level, or written in place at level zero, where the initial
     * domain is then cut to the new bounds.
     */
    method Enqueue(i: IntegerLiteral, literalReason: seq<Literal>, integerReason: seq<IntegerLiteral>, sameReason: int)
      returns (ok: bool)
      requires Valid() && CacheSized() && CursorOk() && |integerTrail| < kint32max
      requires i.variable < |vars| && ReasonIsValid(literalReason, integerReason) && sameReason >= |vars|
      modifies this`vars, this`integerTrail, this`literalsReasonStarts, this`literalsReasonBuffer, this`boundsReasonStarts, this`boundsReasonBuffer
      modifies this`lbIntervalIndex, this`modifiedVars, this`booleanTrailIndexToIntegerOne, this`varTrailIndexCache
      modifies sat`assignment, sat`trail, sat`conflict, encoder`domains
      decreases Remaining(), 7
      ensures Valid() && CacheSized() && Progressed() && (ok ==> CursorOk())
      ensures |integerTrail| <= old(|integerTrail|) + 1 && modifiedVars >= old(modifiedVars)
      ensures old(IsCurrentlyIgnored(i.variable)) || i.bound <= old(vars[i.variable].currentBound) ==>
        ok && unchanged(this) && unchanged(sat) && unchanged(encoder)
      ensures ok && !old(IsCurrentlyIgnored(i.variable)) ==> vars[i.variable].currentBound >= i.bound
      ensures var d := old(encoder.domains[i.variable]);
        !old(IsCurrentlyIgnored(i.variable)) && i.bound > old(vars[i.variable].currentBound) && |d| > 1 && FirstIntervalReaching(d, i.bound) == |d| ==>
        !ok && ConflictExplains(integerReason, literalReason)
      ensures var d := old(encoder.domains[i.variable]);
        !old(IsCurrentlyIgnored(i.variable)) && i.bound > old(vars[i.variable].currentBound) && (|d| <= 1 || FirstIntervalReaching(d, i.bound) < |d|) ==>
        RaisedOutcome(i.variable, RaisedBound(d, i.bound), literalReason, integerReason, sameReason, ok)
    {
      var v := i.variable;
      if IsCurrentlyIgnored(v) || i.bound <= vars[v].currentBound {
        return true;
      }
      if |encoder.domains[v]| > 1 {
        ok := EnqueueWithHoles(v, i.bound, literalReason, integerReason, sameReason);
      } else {
        ok := EnqueueRaised(v, i.bound, literalReason, integerReason, sameReason, 0);
      }
    }

    /**
     * `Enqueue` on a domain with holes: the bound skips forward to the first
     * interval that reaches it, which moves the cursor of `v`; a conflict
     * when no interval does.
     */
    method EnqueueWithHoles(v: nat, bound: int, literalReason: seq<Literal>, integerReason: seq<IntegerLiteral>, sameReason: int)
      returns (ok: bool)
      requires Valid() && CacheSized() && CursorOk() && |integerTrail| < kint32max
      requires v < |vars| && bound > vars[v].currentBound && |encoder.domains[v]| > 1
      requires ReasonIsValid(literalReason, integerReason) && sameReason >= |vars|
      modifies this`vars, this`integerTrail, this`literalsReasonStarts, this`literalsReasonBuffer, this`boundsReasonStarts, this`boundsReasonBuffer
      modifies this`lbIntervalIndex, this`modifiedVars, this`booleanTrailIndexToIntegerOne, this`varTrailIndexCache
      modifies sat`assignment, sat`trail, sat`conflict, encoder`domains
      decreases Remaining(), 6
      ensures Valid() && CacheSized() && Progressed() && (ok ==> CursorOk())
      ensures |integerTrail| <= old(|integerTrail|) + 1 && modifiedVars >= old(modifiedVars)
      ensures var d := old(encoder.domains[v]);
        FirstIntervalReaching(d, bound) == |d| ==> !ok && ConflictExplains(integerReason, literalReason)
      ensures var d := old(encoder.domains[v]);
        FirstIntervalReaching(d, bound) < |d| ==> RaisedOutcome(v, RaisedBound(d, bound), literalReason, integerReason, sameReason, ok)
    {
      BoundIsCurrent(v);
      var d := encoder.domains[v];
      assert CursorFitsAt(encoder.domains, integerTrail, lbIntervalIndex, v);
      var k := lbIntervalIndex[v];
      while k < |d| && bound > d[k].end
        invariant lbIntervalIndex[v] <= k <= |d|
        invariant forall j :: 0 <= j < k ==> d[j].end < bound
      {
        k := k + 1;
      }
      assert k == FirstIntervalReaching(d, bound);
      if k == |d| {
        ok := ReportConflict(literalReason, integerReason);
        return;
      }
      var raised := if d[k].start > bound then d[k].start else bound;
      assert raised == RaisedBound(d, bound);
      ok := EnqueueRaised(v, raised, literalReason, integerReason, sameReason, k);
    }

    /**
     * `v >= bound` was pushed on the trail with the reason of the entry
     * `sameReason` when that is an entry, or else with a new reason, and
     * `v` holds the new bound and entry.
     */
    twostate predicate Pushed(v: nat, bound: int, sameReason: int)
      reads this`vars, this`integerTrail, this`literalsReasonStarts
    {
      v < old(|vars|) &&
      var ri := if 0 <= sameReason < old(|integerTrail|) then old(integerTrail[sameReason].reasonIndex) else old(|literalsReasonStarts|);
      integerTrail == old(integerTrail) + [TrailEntry(bound, v, old(vars[v].currentTrailIndex), ri)] &&
      vars == old(vars)[v := VarInfo(bound, old(|integerTrail|))]
    }

    /**
     * The outcome of enqueueing `v >= bound` once raised past the holes.
     */
    twostate predicate RaisedOutcome(v: nat, bound: int, literalReason: seq<Literal>, integerReason: seq<IntegerLiteral>, sameReason: int, ok: bool)
      reads this`vars, this`integerTrail, this`integerSearchLevels, this`literalsReasonStarts, this`modifiedVars, sat`conflict, encoder`domains
      reads this`literalsReasonBuffer, this`boundsReasonStarts, this`boundsReasonBuffer, encoder`encodingByVar
    {
      v < old(|vars|) && |vars| % 2 == 0 && old(|vars|) == |vars| &&
      (bound > old(UpperBound(v)) ==>
         !ok && ConflictExplains(integerReason + [LowerOrEqual(v, bound - 1)], literalReason) &&
         integerTrail == old(integerTrail) && vars == old(vars)) &&
      (bound <= old(UpperBound(v)) ==> v in modifiedVars && Placed(v, bound, sameReason, ok))
    }

    /**
     * The outcome of placing `v >= bound` below the upper bound: on success
     * `v` is at least `bound`, through a new entry at a positive level or
     * in place at level zero, where the domain is cut to it; a failure at a
     * positive level leaves the trail as it was.
     */
    twostate predicate Placed(v: nat, bound: int, sameReason: int, ok: bool)
      reads this`vars, this`integerTrail, this`integerSearchLevels, this`literalsReasonStarts, encoder`domains
    {
      v < |vars| &&
      (ok ==> vars[v].currentBound >= bound) &&
      (ok && old(|integerSearchLevels|) > 0 ==> Pushed(v, bound, sameReason)) &&
      (!ok && old(|integerSearchLevels|) > 0 ==> integerTrail == old(integerTrail) && vars == old(vars)) &&
      (ok && old(integerSearchLevels) == [] ==> DomainAtLeast(v, bound))
    }

    /** Every value left in the initial domain of `v` is at least `bound`. */
    ghost predicate DomainAtLeast(v: nat, bound: int)
      reads encoder`domains
    {
      v < |encoder.domains| && forall x :: Contains(encoder.domains[v], x) ==> x >= bound
    }

    /**
     * `Enqueue` once `bound` was raised past the holes of the domain of
     * `v`: a conflict when it is above the upper bound, with the weakest
     * upper bound that still conflicts; otherwise `v` is marked modified
     * and the bound goes on.
     */
    method EnqueueRaised(v: nat, bound: int, literalReason: seq<Literal>, integerReason: seq<IntegerLiteral>, sameReason: int, k: nat)
      returns (ok: bool)
      requires Valid() && CacheSized() && CursorOk() && |integerTrail| < kint32max && v < |encoder.domains|
      requires var d := encoder.domains[v]; |d| > 1 ==> k < |d| && forall j :: 0 <= j < k ==> d[j].end < bound
      requires v < |vars| && bound > vars[v].currentBound && ReasonIsValid(literalReason, integerReason) && sameReason >= |vars|
      modifies this`vars, this`integerTrail, this`literalsReasonStarts, this`literalsReasonBuffer, this`boundsReasonStarts, this`boundsReasonBuffer
      modifies this`lbIntervalIndex, this`modifiedVars, this`booleanTrailIndexToIntegerOne, this`varTrailIndexCache
      modifies sat`assignment, sat`trail, sat`conflict, encoder`domains
      decreases Remaining(), 5
      ensures Valid() && CacheSized() && Progressed() && (ok ==> CursorOk())
      ensures |integerTrail| <= old(|integerTrail|) + 1 && modifiedVars >= old(modifiedVars)
      ensures RaisedOutcome(v, bound, literalReason, integerReason, sameReason, ok)
    {
      BoundIsCurrent(v);
      if bound > UpperBound(v) {
        ok := UpperBoundConflict(v, bound, literalReason, integerReason);
        if |encoder.domains[v]| > 1 {
          lbIntervalIndex := lbIntervalIndex[v := k];
        }
        return;
      }
      ok := EnqueueMarked(v, bound, literalReason, integerReason, sameReason, k);
    }

    /**
     * `EnqueueRaised` below the upper bound: moves the cursor of `v`, marks
     * `v` modified for the watchers and places the bound.
     */
    method EnqueueMarked(v: nat, bound: int, literalReason: seq<Literal>, integerReason: seq<IntegerLiteral>, sameReason: int, k: nat)
      returns (ok: bool)
      requires Valid() && CacheSized() && CursorOk() && |integerTrail| < kint32max && v < |encoder.domains|
      requires var d := encoder.domains[v]; |d| > 1 ==> k < |d| && forall j :: 0 <= j < k ==> d[j].end < bound
      requires v < |vars| && |vars| % 2 == 0 && bound > vars[v].currentBound && bound <= UpperBound(v)
      requires ReasonIsValid(literalReason, integerReason) && sameReason >= |vars|
      modifies this`vars, this`integerTrail, this`literalsReasonStarts, this`literalsReasonBuffer, this`boundsReasonStarts, this`boundsReasonBuffer
      modifies this`lbIntervalIndex, this`modifiedVars, this`booleanTrailIndexToIntegerOne, this`varTrailIndexCache
      modifies sat`assignment, sat`trail, sat`conflict, encoder`domains
      decreases Remaining(), 4
      ensures Valid() && CacheSized() && Progressed() && (ok ==> CursorOk())
      ensures |integerTrail| <= old(|integerTrail|) + 1 && modifiedVars >= old(modifiedVars) && v in modifiedVars
      ensures Placed(v, bound, sameReason, ok)
    {
      ghost var cursor0 := lbIntervalIndex;
      if |encoder.domains[v]| > 1 {
        lbIntervalIndex := lbIntervalIndex[v := k];
      }
      modifiedVars := modifiedVars + {v};
      ok := EnqueueImplied(v, bound, literalReason, integerReason, sameReason, cursor0, k);
    }

    /**
     * Puts the strongest literal associated with a bound at most `v >= bound`
     * on the Boolean trail, then places the bound.
     */
    method EnqueueImplied(v: nat, bound: int, literalReason: seq<Literal>, integerReason: seq<IntegerLiteral>, sameReason: int,
                          ghost cursor0: map<nat, nat>, ghost k: nat) returns (ok: bool)
      requires Valid() && CacheSized() && |integerTrail| < kint32max && CursorFitsOnce(v, bound, cursor0, k)
      requires v < |vars| && |vars| % 2 == 0 && bound > vars[v].currentBound && bound <= UpperBound(v)
      requires ReasonIsValid(literalReason, integerReason) && sameReason >= |vars|
      modifies this`vars, this`integerTrail, this`literalsReasonStarts, this`literalsReasonBuffer, this`boundsReasonStarts, this`boundsReasonBuffer
      modifies this`lbIntervalIndex, this`modifiedVars, this`booleanTrailIndexToIntegerOne, this`varTrailIndexCache
      modifies sat`assignment, sat`trail, sat`conflict, encoder`domains
      decreases Remaining(), 3
      ensures Valid() && CacheSized() && Progressed() && (ok ==> CursorOk())
      ensures |integerTrail| <= old(|integerTrail|) + 1 && modifiedVars >= old(modifiedVars)
      ensures Placed(v, bound, sameReason, ok)
    {
      ok := EnqueueStrongestLiteral(v, bound, literalReason, integerReason);
      if ok {
        ok := PlaceBound(v, bound, literalReason, integerReason, sameReason, cursor0, k);
      }
    }

    /**
     * Puts the literal associated with the strongest bound at most
     * `v >= bound`, if there is one, on the Boolean trail, its reason being
     * that of the entry about to be pushed; fails on a conflict.
     */
    method EnqueueStrongestLiteral(v: nat, bound: int, literalReason: seq<Literal>, integerReason: seq<IntegerLiteral>)
      returns (ok: bool)
      requires Valid() && CacheSized() && |integerTrail| < kint32max && ReasonIsValid(literalReason, integerReason)
      modifies sat`assignment, sat`trail, sat`conflict, this`booleanTrailIndexToIntegerOne
      modifies this`varTrailIndexCache
      ensures Valid() && CacheSized() && ReasonIsValid(literalReason, integerReason)
    {
      var literal := encoder.SearchForLiteralAtOrBefore(IntegerLiteral(v, bound));
      ok := true;
      if literal.Some? {
        SearchedLiteralExists(IntegerLiteral(v, bound));
        ok := EnqueueAssociatedLiteral(literal.value, |integerTrail|, literalReason, integerReason);
      }
    }

    /**
     * Gives `v` the bound `bound`, at most its upper bound: pushed on the
     * trail at a positive level; at level zero, written in place and the
     * initial domain cut to the new bounds.
     */
    method PlaceBound(v: nat, bound: int, literalReason: seq<Literal>, integerReason: seq<IntegerLiteral>, sameReason: int,
                      ghost cursor0: map<nat, nat>, ghost k: nat) returns (ok: bool)
      requires Valid() && CacheSized() && |integerTrail| < kint32max && CursorFitsOnce(v, bound, cursor0, k)
      requires v < |vars| && |vars| % 2 == 0 && bound > vars[v].currentBound && bound <= UpperBound(v)
      requires ReasonIsValid(literalReason, integerReason) && sameReason >= |vars|
      modifies this`vars, this`integerTrail, this`literalsReasonStarts, this`literalsReasonBuffer, this`boundsReasonStarts, this`boundsReasonBuffer
      modifies this`lbIntervalIndex, this`modifiedVars, this`booleanTrailIndexToIntegerOne, this`varTrailIndexCache
      modifies sat`assignment, sat`trail, sat`conflict, encoder`domains
      decreases Remaining(), 2
      ensures Valid() && CacheSized() && Progressed() && (ok ==> CursorOk())
      ensures |integerTrail| <= old(|integerTrail|) + 1 && modifiedVars >= old(modifiedVars)
      ensures vars[v].currentBound >= bound
      ensures old(|integerSearchLevels|) > 0 ==> ok && Pushed(v, bound, sameReason)
      ensures ok && old(integerSearchLevels) == [] ==> DomainAtLeast(v, bound)
    {
      if integerSearchLevels == [] {
        ok := EnqueueAtLevelZero(v, bound, cursor0, k);
        return;
      }
      ghost var trail0 := integerTrail;
      PushBound(v, bound, literalReason, integerReason, sameReason);
      CursorFitsRaised(encoder.domains, trail0, integerTrail, cursor0, v, k, bound);
      ok := true;
    }

    /**
     * At level zero, gives `v` the bound `bound` in place, then cuts the
     * initial domain of `v` to the values between the new bounds.
     */
    method EnqueueAtLevelZero(v: nat, bound: int, ghost cursor0: map<nat, nat>, ghost k: nat) returns (ok: bool)
      requires Valid() && CacheSized() && |integerTrail| < kint32max && integerSearchLevels == [] && CursorFitsOnce(v, bound, cursor0, k)
      requires v < |vars| && |vars| % 2 == 0 && bound > vars[v].currentBound && bound <= UpperBound(v)
      modifies this`vars, this`integerTrail, this`literalsReasonStarts, this`literalsReasonBuffer, this`boundsReasonStarts, this`boundsReasonBuffer
      modifies this`lbIntervalIndex, this`modifiedVars, this`booleanTrailIndexToIntegerOne, this`varTrailIndexCache
      modifies sat`assignment, sat`trail, sat`conflict, encoder`domains
      decreases Remaining(), 1
      ensures Valid() && CacheSized() && Progressed() && (ok ==> CursorOk())
      ensures modifiedVars >= old(modifiedVars)
      ensures vars[v].currentBound >= bound
      ensures ok ==> DomainAtLeast(v, bound)
    {
      var ub := UpperBound(v);
      WriteLevelZeroBound(v, bound, cursor0, k);
      ok := UpdateInitialDomain(v, FromInterval(bound, ub));
    }

    /** At level zero, gives `v` the bound `bound` in place and clears the conflict. */
    method WriteLevelZeroBound(v: nat, bound: int, ghost cursor0: map<nat, nat>, ghost k: nat)
      requires Valid() && integerSearchLevels == [] && CursorFitsOnce(v, bound, cursor0, k)
      requires v < |vars| && bound > vars[v].currentBound
      modifies this`vars, this`integerTrail, sat`conflict
      ensures Valid() && CursorOk() && Progressed()
      ensures vars[v].currentBound == bound && sat.conflict == []
    {
      ghost var trail0 := integerTrail;
      SetLevelZeroBound(v, bound);
      CursorFitsRaised(encoder.domains, trail0, integerTrail, cursor0, v, k, bound);
      EncoderKept();
      sat.SetConflict([]);
    }

    /**
     * At level zero, intersects the initial domain of `v` with `domain`.
     * Nothing changes when `domain` holds every value of it; an empty
     * intersection fails. Otherwise `v` and its negation get the smaller
     * domains, the bounds of `v` move to the new minimum and maximum, and
     * the equality literals of values no longer in the domain are set to
     * false, failing when one of them is true.
     */
    method UpdateInitialDomain(v: nat, domain: Domain) returns (ok: bool)
      requires Valid() && CacheSized() && CursorOk() && |integerTrail| < kint32max && integerSearchLevels == []
      requires v < |vars| && Domains.Valid(domain)
      modifies this`vars, this`integerTrail, this`literalsReasonStarts, this`literalsReasonBuffer, this`boundsReasonStarts, this`boundsReasonBuffer
      modifies this`lbIntervalIndex, this`modifiedVars, this`booleanTrailIndexToIntegerOne, this`varTrailIndexCache
      modifies sat`assignment, sat`trail, sat`conflict, encoder`domains
      decreases Remaining(), 0
      ensures Valid() && CacheSized() && Progressed() && (ok ==> CursorOk())
      ensures modifiedVars >= old(modifiedVars)
      ensures (forall x :: Contains(old(encoder.domains[v]), x) ==> Contains(domain, x)) ==>
        ok && unchanged(this) && unchanged(sat) && unchanged(encoder)
      ensures (forall x :: Contains(old(encoder.domains[v]), x) ==> !Contains(domain, x)) ==>
        !ok && unchanged(this) && unchanged(sat) && unchanged(encoder)
      ensures ok ==> forall x :: Contains(encoder.domains[v], x) ==> Contains(domain, x) && Contains(old(encoder.domains[v]), x)
    {
      var oldDomain := encoder.domains[v];
      IntersectionCases(oldDomain, domain);
      var d := IntersectionWith(oldDomain, domain);
      if oldDomain == d {
        return true;
      }
      if d == [] {
        return false;
      }
      SetDomainPair(v, d);
      ok := PropagateNewDomain(v, d);
    }

    /**
     * After the domain of `v` became `d`: moves the bounds of `v` to the
     * minimum and the maximum of `d`, then sets to false the equality
     * literals of the values left out.
     */
    method PropagateNewDomain(v: nat, d: Domain) returns (ok: bool)
      requires Valid() && CacheSized() && CursorOk() && |integerTrail| < kint32max && integerSearchLevels == []
      requires v < |vars| && |d| > 0 && encoder.domains[v] == d
      modifies this`vars, this`integerTrail, this`literalsReasonStarts, this`literalsReasonBuffer, this`boundsReasonStarts, this`boundsReasonBuffer
      modifies this`lbIntervalIndex, this`modifiedVars, this`booleanTrailIndexToIntegerOne, this`varTrailIndexCache
      modifies sat`assignment, sat`trail, sat`conflict, encoder`domains
      decreases Remaining(), 10
      ensures Valid() && CacheSized() && Progressed() && (ok ==> CursorOk())
      ensures modifiedVars >= old(modifiedVars)
      ensures ok ==> forall x :: Contains(encoder.domains[v], x) ==> Contains(d, x)
    {
      ghost var before := Remaining();
      ok := EnqueueDomainBounds(v, d);
      if ok {
        var pairs := encoder.PartialDomainEncoding(v);
        ok := FixExcludedLiterals(d, pairs);
        forall x | Contains(encoder.domains[v], x)
          ensures Contains(d, x)
        {
          StillRemaining(v, x, before);
        }
      }
    }

    /** At level zero, moves the bounds of `v` to the minimum and the maximum of `d`, with no reason. */
    method EnqueueDomainBounds(v: nat, d: Domain) returns (ok: bool)
      requires Valid() && CacheSized() && CursorOk() && |integerTrail| < kint32max && integerSearchLevels == []
      requires v < |vars| && |d| > 0
      modifies this`vars, this`integerTrail, this`literalsReasonStarts, this`literalsReasonBuffer, this`boundsReasonStarts, this`boundsReasonBuffer
      modifies this`lbIntervalIndex, this`modifiedVars, this`booleanTrailIndexToIntegerOne, this`varTrailIndexCache
      modifies sat`assignment, sat`trail, sat`conflict, encoder`domains
      decreases Remaining(), 9
      ensures Valid() && CacheSized() && Progressed() && (ok ==> CursorOk())
      ensures modifiedVars >= old(modifiedVars)
    {
      ok := EnqueueWithNewReason(GreaterOrEqual(v, Min(d)), [], []);
      if ok {
        BoundIsCurrent(v);
        ok := EnqueueWithNewReason(LowerOrEqual(v, Max(d)), [], []);
      }
    }

    /**
     * `Enqueue` with a reason of its own rather than that of an earlier
     * entry; on success the bound holds.
     */
    method EnqueueWithNewReason(i: IntegerLiteral, literalReason: seq<Literal>, integerReason: seq<IntegerLiteral>) returns (ok: bool)
      requires Valid() && CacheSized() && CursorOk() && |integerTrail| < kint32max
      requires i.variable < |vars| && ReasonIsValid(literalReason, integerReason)
      modifies this`vars, this`integerTrail, this`literalsReasonStarts, this`literalsReasonBuffer, this`boundsReasonStarts, this`boundsReasonBuffer
      modifies this`lbIntervalIndex, this`modifiedVars, this`booleanTrailIndexToIntegerOne, this`varTrailIndexCache
      modifies sat`assignment, sat`trail, sat`conflict, encoder`domains
      decreases Remaining(), 8
      ensures Valid() && CacheSized() && Progressed() && (ok ==> CursorOk())
      ensures modifiedVars >= old(modifiedVars)
      ensures ok && !old(IsCurrentlyIgnored(i.variable)) ==> vars[i.variable].currentBound >= i.bound
    {
      BoundIsCurrent(i.variable);
      ok := Enqueue(i, literalReason, integerReason, |integerTrail|);
    }

    /** A value still in the domain of `v` is among the remaining values of any earlier time. */
    lemma StillRemaining(v: nat, x: int, before: set<(nat, int)>)
      requires encoder.Valid() && v < |encoder.domains| && Contains(encoder.domains[v], x) && Remaining() <= before
      ensures (v, x) in before
    {
      assert (v, x) in Remaining();
    }

    /**
     * Gives `v` the domain `d`, smaller than its own, and its negation the
     * mirrored domain; when they have holes, their cursors go back to the
     * first interval.
     */
    method SetDomainPair(v: nat, d: Domain)
      requires Valid() && CursorOk() && integerSearchLevels == [] && v < |vars|
      requires ValidWithin(d, kMinIntegerValue, kMaxIntegerValue) && |d| > 0 && d != encoder.domains[v]
      requires forall x :: Contains(d, x) ==> Contains(encoder.domains[v], x)
      modifies encoder`domains, this`lbIntervalIndex
      ensures Valid() && CursorOk() && NegationOf(v) < |vars|
      ensures encoder.domains == WithDomainPair(old(encoder.domains), v, d) && encoder.domains[v] == d
      ensures lbIntervalIndex == ResetCursor(old(lbIntervalIndex), v, d)
      ensures Remaining() < old(Remaining())
    {
      var ds := encoder.domains;
      assert reasonDecisionLevels == [] && savedLbIntervalIndex == [];
      DomainPairKeepsLinks(ds, encoder.linkDomains, v, d);
      DomainPairStaysMirrored(ds, v, d);
      DomainPairShrinks(ds, encoder.domainKeys, encoder.isFullyEncoded, encoder.equalityToAssociatedLiteral, v, d);
      DomainPairKeepsConstants(ds, constantMap, v, d);
      ResetCursorFits(ds, integerTrail, lbIntervalIndex, v, d);
      OtherDomainsKeepState(ds, WithDomainPair(ds, v, d), encoder.encodingByVar, encoder.equalityToAssociatedLiteral, sat.numVariables,
                            vars, integerTrail, literalsReasonStarts, |literalsReasonBuffer|,
                            boundsReasonStarts, boundsReasonBuffer, constantMap, constantMap);
      encoder.domains := WithDomainPair(ds, v, d);
      lbIntervalIndex := ResetCursor(lbIntervalIndex, v, d);
    }

    /** Sets `l` to false unless it is already false; fails, changing nothing, when it is true. */
    method FalsifyLiteral(l: Literal) returns (ok: bool)
      requires sat.Valid() && |sat.trail| == |sat.assignment| && l.variable < sat.numVariables
      modifies sat`assignment, sat`trail
      ensures sat.Valid() && |sat.trail| == |sat.assignment|
      ensures ok <==> !old(sat.LiteralIsTrue(l))
      ensures ok ==> sat.LiteralIsFalse(l) && sat.assignment == old(sat.assignment)[l.variable := !l.positive]
      ensures !ok ==> sat.assignment == old(sat.assignment)
    {
      if sat.LiteralIsTrue(l) {
        return false;
      }
      if !sat.LiteralIsFalse(l) {
        sat.Enqueue(l.Negated());
      }
      ok := true;
    }

    /**
     * Sets to false the literal of every pair whose value is not in `d`,
     * walking the pairs in order with a cursor on the intervals of `d`;
     * fails, leaving the rest, when such a literal is true.
     */
    method FixExcludedLiterals(d: Domain, pairs: seq<ValueLiteralPair>) returns (ok: bool)
      requires sat.Valid() && |sat.trail| == |sat.assignment| && Domains.Valid(d) && NonDecreasingValues(pairs)
      requires forall k :: 0 <= k < |pairs| ==> pairs[k].literal.variable < sat.numVariables
      modifies sat`assignment, sat`trail
      ensures sat.Valid() && |sat.trail| == |sat.assignment|
      ensures AssignmentExtends(old(sat.assignment), sat.assignment)
      ensures OnlyExcludedFalsified(old(sat.assignment), sat.assignment, d, pairs, |pairs|)
      ensures ok ==> forall k :: 0 <= k < |pairs| && !Contains(d, pairs[k].value) ==> sat.LiteralIsFalse(pairs[k].literal)
      ensures !ok ==> exists k :: 0 <= k < |pairs| && !Contains(d, pairs[k].value) && sat.LiteralIsTrue(pairs[k].literal)
    {
      var i := 0;
      var k := 0;
      ghost var last := if |pairs| > 0 then pairs[0].value else 0;
      while k < |pairs|
        invariant 0 <= k <= |pairs| && 0 <= i <= |d|
        invariant sat.Valid() && |sat.trail| == |sat.assignment|
        invariant k < |pairs| ==> last <= pairs[k].value
        invariant forall j :: 0 <= j < i ==> d[j].end < last
        invariant ExcludedFalse(sat.assignment, d, pairs, k)
        invariant AssignmentExtends(old(sat.assignment), sat.assignment)
        invariant OnlyExcludedFalsified(old(sat.assignment), sat.assignment, d, pairs, k)
      {
        var p := pairs[k];
        i := SkipHoles(d, i, p.value);
        OutsideAtCursor(d, i, p.value);
        if i == |d| || p.value < d[i].start {
          if !sat.LiteralIsTrue(p.literal) {
            ExcludedFalsifiedStep(old(sat.assignment), sat.assignment, d, pairs, k);
          }
          ok := FalsifyLiteral(p.literal);
          if !ok {
            return;
          }
        } else {
          assert ExcludedFalse(sat.assignment, d, pairs, k + 1);
        }
        last := p.value;
        k := k + 1;
      }
      ok := true;
    }
  }

}
