/**
 * The integer trail stated on values: the entries of the trail, the chain
 * linking the entries of one variable, the decision levels, the stored
 * reasons and the interval cursor, with the invariants the integer trail
 * keeps and the lemmas relating them.
 */
module TrailModel {
  import opened Wrappers
  import opened IntegerTypes
  import opened Domains
  import opened Sat
  import opened Encoder

  /** The variable of an entry pushed for a Boolean literal instead of a bound. */
  const kNoIntegerVariable: int := -1
  /** Largest value of a signed 32-bit integer. */
  const kint32max: int := 0x7FFF_FFFF

  /** The current lower bound of a variable and the index of the trail entry that set it. */
  datatype VarInfo = VarInfo(currentBound: int, currentTrailIndex: int)

  /**
   * One bound change: `variable >= bound`, the index of the previous entry
   * of the same variable, and the index of its reason in the reason buffers.
   * The first `|vars|` entries hold the level-zero bound of each variable.
   */
  datatype TrailEntry = TrailEntry(bound: int, variable: int, prevTrailIndex: int, reasonIndex: int)

  // ---------------------------------------------------------------------
  // The chain of entries of one variable

  /** The index of the last entry of `v`, or -1 when there is none. */
  function LastIndexOf(trail: seq<TrailEntry>, v: int): (k: int)
    ensures -1 <= k < |trail|
    ensures k >= 0 ==> trail[k].variable == v
    ensures forall j :: k < j < |trail| ==> trail[j].variable != v
  {
    if |trail| == 0 then -1
    else if trail[|trail| - 1].variable == v then |trail| - 1
    else LastIndexOf(trail[..|trail| - 1], v)
  }

  /** `LastIndexOf` is the only index with its two properties. */
  lemma LastIndexOfIsUnique(trail: seq<TrailEntry>, v: int, k: int)
    requires -1 <= k < |trail| && (k >= 0 ==> trail[k].variable == v)
    requires forall j :: k < j < |trail| ==> trail[j].variable != v
    ensures LastIndexOf(trail, v) == k
  {
  }

  /** The bound of the last entry of `v`. */
  function BoundOf(trail: seq<TrailEntry>, v: int): int
  {
    var k := LastIndexOf(trail, v);
    if k >= 0 then trail[k].bound else kint64min
  }

  /** Each variable below `numVars` has its level-zero entry at its own index. */
  ghost predicate InitialEntries(numVars: nat, trail: seq<TrailEntry>)
  {
    numVars <= |trail| && forall v :: 0 <= v < numVars ==> trail[v].variable == v
  }

  /** The current bound and trail index of a variable are those of its last entry. */
  ghost predicate CurrentIsLast(vars: seq<VarInfo>, trail: seq<TrailEntry>)
  {
    forall v :: 0 <= v < |vars| ==>
      vars[v].currentTrailIndex == LastIndexOf(trail, v) && 0 <= vars[v].currentTrailIndex &&
      vars[v].currentBound == trail[vars[v].currentTrailIndex].bound
  }

  /**
   * Every later entry is either for a Boolean literal or links to the
   * previous entry of its variable, whose bound is strictly smaller.
   */
  ghost predicate ChainLinked(numVars: nat, trail: seq<TrailEntry>)
  {
    forall t :: numVars <= t < |trail| ==> LinkedAt(numVars, trail, t)
  }

  /** Entry `t` is for a Boolean literal, or links to the previous entry of its variable, of smaller bound. */
  ghost predicate LinkedAt(numVars: nat, trail: seq<TrailEntry>, t: int)
  {
    0 <= t < |trail| &&
    (trail[t].variable == kNoIntegerVariable ||
     (0 <= trail[t].variable < numVars &&
      trail[t].prevTrailIndex == LastIndexOf(trail[..t], trail[t].variable) &&
      0 <= trail[t].prevTrailIndex &&
      trail[trail[t].prevTrailIndex].bound < trail[t].bound))
  }

  /** Along the entries of one variable the bounds strictly increase. */
  lemma {:induction false} ChainBoundsIncrease(numVars: nat, trail: seq<TrailEntry>, t1: int, t2: int)
    requires InitialEntries(numVars, trail) && ChainLinked(numVars, trail)
    requires 0 <= t1 < t2 < |trail| && trail[t1].variable == trail[t2].variable >= 0
    ensures trail[t1].bound < trail[t2].bound
    decreases t2
  {
    assert numVars <= t2 && LinkedAt(numVars, trail, t2);
    var p := trail[t2].prevTrailIndex;
    assert trail[..t2][t1].variable == trail[t2].variable;
    assert t1 <= p;
    if t1 < p {
      ChainBoundsIncrease(numVars, trail, t1, p);
    }
  }

  lemma LastIndexOfStep(trail: seq<TrailEntry>, n: nat, v: int)
    requires n < |trail|
    ensures LastIndexOf(trail[..n + 1], v) == if trail[n].variable == v then n else LastIndexOf(trail[..n], v)
  {
    assert trail[..n + 1][..n] == trail[..n];
  }

  /** A prefix of a linked trail is linked. */
  lemma ChainLinkedPrefix(numVars: nat, trail: seq<TrailEntry>, n: nat)
    requires ChainLinked(numVars, trail) && n <= |trail|
    ensures ChainLinked(numVars, trail[..n])
  {
    forall t | numVars <= t < n
      ensures LinkedAt(numVars, trail[..n], t)
    {
      assert trail[..n][..t] == trail[..t];
      assert LinkedAt(numVars, trail, t);
    }
  }

  // ---------------------------------------------------------------------
  // The entry that explains a bound

  /** `r` is the first entry of `v` whose bound is at least `b`: the earliest point at which `v >= b` held. */
  ghost predicate IsLowestExplaining(trail: seq<TrailEntry>, v: int, b: int, r: int)
  {
    0 <= r < |trail| && trail[r].variable == v && trail[r].bound >= b &&
    forall t :: 0 <= t < r && trail[t].variable == v ==> trail[t].bound < b
  }

  /**
   * Walks the chain of `v` back from `start`, an entry of `v` with bound at
   * least `b`, to the first entry of `v` whose bound is at least `b`.
   */
  method WalkToLowest(numVars: nat, trail: seq<TrailEntry>, v: int, b: int, start: int) returns (r: int)
    requires InitialEntries(numVars, trail) && ChainLinked(numVars, trail)
    requires 0 <= v < numVars && trail[v].bound < b
    requires 0 <= start < |trail| && trail[start].variable == v && trail[start].bound >= b
    ensures numVars <= r && IsLowestExplaining(trail, v, b, r)
    ensures 0 <= trail[r].prevTrailIndex < r && trail[trail[r].prevTrailIndex].bound < b
  {
    var index := start;
    var prev := start;
    while true
      invariant 0 <= index <= prev < |trail| && trail[index].variable == v && trail[prev].variable == v
      invariant trail[prev].bound >= b
      invariant forall t :: index < t < prev ==> trail[t].variable != v
      decreases index
    {
      var entry := trail[index];
      if entry.bound <= b {
        r := if entry.bound == b then index else prev;
        forall t | 0 <= t < r && trail[t].variable == v
          ensures trail[t].bound < b
        {
          if t < index {
            ChainBoundsIncrease(numVars, trail, t, index);
          }
        }
        assert LinkedAt(numVars, trail, r);
        return;
      }
      assert LinkedAt(numVars, trail, index);
      prev := index;
      index := entry.prevTrailIndex;
    }
  }

  // ---------------------------------------------------------------------
  // Decision levels and reasons

  /**
   * `levels[l]` is the trail size and `reasonLevels[l]` the number of stored
   * reasons when level `l + 1` was entered; at level zero only the
   * level-zero entries are on the trail.
   */
  ghost predicate LevelsOk(numVars: nat, trailSize: nat, levels: seq<int>, reasonLevels: seq<int>, numReasons: nat)
  {
    |reasonLevels| == |levels| &&
    (|levels| == 0 ==> trailSize == numVars) &&
    (|levels| > 0 ==> levels[0] == numVars) &&
    (forall l :: 0 <= l < |levels| ==> numVars <= levels[l] <= trailSize && 0 <= reasonLevels[l] <= numReasons) &&
    (forall l :: 0 < l < |levels| ==> levels[l - 1] <= levels[l] && reasonLevels[l - 1] <= reasonLevels[l])
  }

  /** Reason starts are ordered offsets into their buffer. */
  ghost predicate StartsOk(starts: seq<int>, bufferSize: nat)
  {
    (forall r :: 0 <= r < |starts| ==> 0 <= starts[r] <= bufferSize) &&
    (forall r :: 0 < r < |starts| ==> starts[r - 1] <= starts[r])
  }

  /** The end of reason `r` in a buffer: the start of the next reason, or the end of the buffer. */
  function ReasonEnd(starts: seq<int>, bufferSize: int, r: int): int
    requires 0 <= r < |starts|
  {
    if r + 1 < |starts| then starts[r + 1] else bufferSize
  }

  /** Every entry past the level-zero ones has a stored reason, stored before the level it was pushed at was left. */
  ghost predicate ReasonIndicesOk(numVars: nat, trail: seq<TrailEntry>, levels: seq<int>, reasonLevels: seq<int>, numReasons: nat)
    requires |reasonLevels| == |levels|
  {
    (forall t :: numVars <= t < |trail| ==> 0 <= trail[t].reasonIndex < numReasons) &&
    (forall l :: 0 <= l < |levels| ==> ReasonsBelow(numVars, trail, levels[l], reasonLevels[l]))
  }

  /** The entries before `n` past the level-zero ones have a reason index below `r`. */
  ghost predicate ReasonsBelow(numVars: nat, trail: seq<TrailEntry>, n: int, r: int)
  {
    forall t :: numVars <= t < n && t < |trail| ==> trail[t].reasonIndex < r
  }

  /** `lit` held on the trail `prefix`: some entry of its variable has a bound at least as large. */
  ghost predicate Explained(prefix: seq<TrailEntry>, lit: IntegerLiteral)
  {
    exists t :: 0 <= t < |prefix| && prefix[t].variable == lit.variable && prefix[t].bound >= lit.bound
  }

  /** The integer reason of every entry held before the entry was pushed. */
  ghost predicate ReasonsExplained(numVars: nat, trail: seq<TrailEntry>, starts: seq<int>, buffer: seq<IntegerLiteral>)
  {
    forall t :: numVars <= t < |trail| ==> ReasonHeld(numVars, trail, t, starts, buffer)
  }

  /** Each literal of the integer reason of entry `t` is about a variable and held on the trail before `t`. */
  ghost predicate ReasonHeld(numVars: nat, trail: seq<TrailEntry>, t: int, starts: seq<int>, buffer: seq<IntegerLiteral>)
  {
    0 <= t < |trail| &&
    (0 <= trail[t].reasonIndex < |starts| ==>
       forall j :: starts[trail[t].reasonIndex] <= j < ReasonEnd(starts, |buffer|, trail[t].reasonIndex) && 0 <= j < |buffer| ==>
         buffer[j].variable < numVars && Explained(trail[..t], buffer[j]))
  }

  // ---------------------------------------------------------------------
  // The interval cursor

  /**
   * For a variable whose domain has holes, the cursor is the index of an
   * interval such that every interval before it ends below the current
   * bound of the variable.
   */
  ghost predicate CursorFits(domains: seq<Domain>, trail: seq<TrailEntry>, cursor: map<nat, nat>)
  {
    forall v :: 0 <= v < |domains| ==> CursorFitsAt(domains, trail, cursor, v)
  }

  /** The cursor of `v`, when its domain has holes, is an interval every earlier one of which ends below its bound. */
  ghost predicate CursorFitsAt(domains: seq<Domain>, trail: seq<TrailEntry>, cursor: map<nat, nat>, v: int)
  {
    0 <= v < |domains| &&
    (|domains[v]| > 1 ==>
       v in cursor && cursor[v] < |domains[v]| &&
       forall k :: 0 <= k < cursor[v] ==> domains[v][k].end < BoundOf(trail, v))
  }

  /** The cursor saved when level `l + 1` was entered fits the trail of that time. */
  ghost predicate SavedCursorsFit(domains: seq<Domain>, trail: seq<TrailEntry>, levels: seq<int>, saved: seq<map<nat, nat>>)
  {
    |saved| == |levels| &&
    forall l :: 0 <= l < |levels| ==> 0 <= levels[l] <= |trail| && CursorFits(domains, trail[..levels[l]], saved[l])
  }

  /** The invariants of the trail, its levels and its stored reasons. */
  ghost predicate TrailInvariant(vars: seq<VarInfo>, trail: seq<TrailEntry>, levels: seq<int>, reasonLevels: seq<int>,
                                 litStarts: seq<int>, litBufferSize: nat, boundsStarts: seq<int>, boundsBuffer: seq<IntegerLiteral>)
  {
    InitialEntries(|vars|, trail) && CurrentIsLast(vars, trail) && ChainLinked(|vars|, trail) &&
    LevelsOk(|vars|, |trail|, levels, reasonLevels, |litStarts|) &&
    |boundsStarts| == |litStarts| &&
    StartsOk(litStarts, litBufferSize) && StartsOk(boundsStarts, |boundsBuffer|) &&
    ReasonIndicesOk(|vars|, trail, levels, reasonLevels, |litStarts|) &&
    ReasonsExplained(|vars|, trail, boundsStarts, boundsBuffer)
  }

  // ---------------------------------------------------------------------
  // Constants and literals

  /** Constant variables come in pairs `c` / `-c` and have the one-value domain `{c}`. */
  ghost predicate ConstantsOk(constants: map<int, nat>, domains: seq<Domain>)
  {
    forall c :: c in constants ==>
      constants[c] < |domains| && domains[constants[c]] == [ClosedInterval(c, c)] &&
      -c in constants && (c != 0 ==> constants[-c] == NegationOf(constants[c]))
  }

  /** Every literal of the encoding is a variable of the Boolean solver. */
  ghost predicate LiteralsExist(encoding: seq<seq<Entry>>, eq: map<(nat, int), Literal>, numVariables: nat)
  {
    (forall v, k :: 0 <= v < |encoding| && 0 <= k < |encoding[v]| ==> encoding[v][k].literal.variable < numVariables) &&
    (forall key :: key in eq ==> eq[key].variable < numVariables)
  }

  predicate AllZero(s: seq<int>)
  {
    forall k :: 0 <= k < |s| ==> s[k] == 0
  }

  /**
   * Everything the integer trail keeps about its own fields, given the
   * encoder's domains and literals; the current interval cursor is kept
   * apart (`CursorFits`), since a conflict may leave it ahead of the bounds.
   */
  ghost predicate StateOk(domains: seq<Domain>, encoding: seq<seq<Entry>>, eq: map<(nat, int), Literal>, numVariables: nat,
                          vars: seq<VarInfo>, trail: seq<TrailEntry>, levels: seq<int>, reasonLevels: seq<int>,
                          litStarts: seq<int>, litBufferSize: nat, boundsStarts: seq<int>, boundsBuffer: seq<IntegerLiteral>,
                          saved: seq<map<nat, nat>>, constants: map<int, nat>)
  {
    LiteralsExist(encoding, eq, numVariables) &&
    |vars| == |domains| &&
    TrailInvariant(vars, trail, levels, reasonLevels, litStarts, litBufferSize, boundsStarts, boundsBuffer) &&
    SavedCursorsFit(domains, trail, levels, saved) &&
    ConstantsOk(constants, domains)
  }

  /** The keys `(v, x)` for `x` in `lo..hi`. */
  ghost function PairsOf(v: nat, lo: int, hi: int): (s: set<(nat, int)>)
    ensures forall p :: p in s <==> p.0 == v && lo <= p.1 <= hi
  {
    set x | x in Range(lo, hi) :: (v, x)
  }

  /** The domains of a new pair keep the domains valid, mirrored and covered by their keys. */
  lemma DomainPairKeepsEncoder(domains: seq<Domain>, keys: set<(nat, int)>, fully: set<nat>, eq: map<(nat, int), Literal>, lb: int, ub: int)
    requires DomainsValid(domains) && KeysCoverDomains(domains, keys) && FullyEncodedCovered(fully, domains, eq)
    requires kMinIntegerValue <= lb <= ub <= kMaxIntegerValue
    ensures var i := |domains|;
      var ds := domains + [FromInterval(lb, ub), FromInterval(-ub, -lb)];
      DomainsValid(ds) && KeysCoverDomains(ds, keys + PairsOf(i, lb, ub) + PairsOf(i + 1, -ub, -lb)) &&
      FullyEncodedCovered(fully, ds, eq)
  {
    var ds := domains + [FromInterval(lb, ub), FromInterval(-ub, -lb)];
    DomainPairMirrored(domains, lb, ub);
    DomainPairCovered(domains, keys, lb, ub);
    forall v | v in fully
      ensures v < |ds| && forall x :: Contains(ds[v], x) ==> (v, x) in eq
    {
      assert ds[v] == domains[v];
    }
  }

  lemma DomainPairMirrored(domains: seq<Domain>, lb: int, ub: int)
    requires DomainsValid(domains) && kMinIntegerValue <= lb <= ub <= kMaxIntegerValue
    ensures DomainsValid(domains + [FromInterval(lb, ub), FromInterval(-ub, -lb)])
  {
    var i := |domains|;
    var d := FromInterval(lb, ub);
    var n := FromInterval(-ub, -lb);
    var ds := domains + [d, n];
    NegationIsValidMirror(d);
    assert Negation(d) == n;
    NegationIsValidMirror(n);
    assert NegationOf(i) == i + 1 && NegationOf(i + 1) == i;
    forall v | 0 <= v < |ds|
      ensures ValidWithin(ds[v], kMinIntegerValue, kMaxIntegerValue) && |ds[v]| > 0
    {
      if v < i {
        assert ds[v] == domains[v];
      }
    }
    forall v | 0 <= v < |ds|
      ensures ds[NegationOf(v)] == Negation(ds[v])
    {
      if v < i {
        assert NegationOf(v) < i;
        assert ds[v] == domains[v] && ds[NegationOf(v)] == domains[NegationOf(v)];
      }
    }
  }

  lemma DomainPairCovered(domains: seq<Domain>, keys: set<(nat, int)>, lb: int, ub: int)
    requires KeysCoverDomains(domains, keys) && lb <= ub
    ensures var i := |domains|;
      KeysCoverDomains(domains + [FromInterval(lb, ub), FromInterval(-ub, -lb)], keys + PairsOf(i, lb, ub) + PairsOf(i + 1, -ub, -lb))
  {
    var i := |domains|;
    var ds := domains + [FromInterval(lb, ub), FromInterval(-ub, -lb)];
    var keys' := keys + PairsOf(i, lb, ub) + PairsOf(i + 1, -ub, -lb);
    forall v, x | 0 <= v < |ds| && Contains(ds[v], x)
      ensures (v, x) in keys'
    {
      if v < i {
        assert ds[v] == domains[v];
      }
    }
  }

  /** Two fresh level-zero entries keep every invariant of the trail about the old variables. */
  lemma NewPairKeepsTrail(trail0: seq<TrailEntry>, vars0: seq<VarInfo>, lb: int, ub: int)
    requires InitialEntries(|vars0|, trail0) && |trail0| == |vars0| && CurrentIsLast(vars0, trail0)
    ensures var i := |vars0|;
      var trail := trail0 + [TrailEntry(lb, i, 0, 0), TrailEntry(-ub, i + 1, 0, 0)];
      var vars := vars0 + [VarInfo(lb, i), VarInfo(-ub, i + 1)];
      InitialEntries(|vars|, trail) && CurrentIsLast(vars, trail) && ChainLinked(|vars|, trail) &&
      forall v :: 0 <= v < |vars0| ==> BoundOf(trail, v) == BoundOf(trail0, v)
  {
    var i := |vars0|;
    var trail := trail0 + [TrailEntry(lb, i, 0, 0), TrailEntry(-ub, i + 1, 0, 0)];
    forall v | 0 <= v < |vars0|
      ensures LastIndexOf(trail, v) == LastIndexOf(trail0, v)
    {
      LastIndexOfIsUnique(trail, v, LastIndexOf(trail0, v));
    }
    LastIndexOfIsUnique(trail, i, i);
    LastIndexOfIsUnique(trail, i + 1, i + 1);
  }

  /** At level zero, a new pair of variables keeps the invariants of the trail and of the cursor. */
  lemma NewPairKeepsInvariant(vars0: seq<VarInfo>, trail0: seq<TrailEntry>, litStarts: seq<int>, litBufferSize: nat,
                              boundsStarts: seq<int>, boundsBuffer: seq<IntegerLiteral>, domains: seq<Domain>, cursor: map<nat, nat>,
                              lb: int, ub: int)
    requires TrailInvariant(vars0, trail0, [], [], litStarts, litBufferSize, boundsStarts, boundsBuffer)
    requires CursorFits(domains, trail0, cursor) && |domains| == |vars0| && lb <= ub
    ensures var i := |vars0|;
      var trail := trail0 + [TrailEntry(lb, i, 0, 0), TrailEntry(-ub, i + 1, 0, 0)];
      var vars := vars0 + [VarInfo(lb, i), VarInfo(-ub, i + 1)];
      TrailInvariant(vars, trail, [], [], litStarts, litBufferSize, boundsStarts, boundsBuffer) &&
      CursorFits(domains + [FromInterval(lb, ub), FromInterval(-ub, -lb)], trail, cursor)
  {
    var i := |vars0|;
    var trail := trail0 + [TrailEntry(lb, i, 0, 0), TrailEntry(-ub, i + 1, 0, 0)];
    var ds: seq<Domain> := domains + [FromInterval(lb, ub), FromInterval(-ub, -lb)];
    NewPairKeepsTrail(trail0, vars0, lb, ub);
    forall v | 0 <= v < |ds|
      ensures CursorFitsAt(ds, trail, cursor, v)
    {
      if v < i {
        assert ds[v] == domains[v] && CursorFitsAt(domains, trail0, cursor, v);
      }
    }
  }

  /** At level zero, a new pair of variables with domain `lb..ub` keeps the whole state consistent. */
  lemma NewPairKeepsState(domains: seq<Domain>, encoding: seq<seq<Entry>>, eq: map<(nat, int), Literal>, numVariables: nat,
                          vars0: seq<VarInfo>, trail0: seq<TrailEntry>,
                          litStarts: seq<int>, litBufferSize: nat, boundsStarts: seq<int>, boundsBuffer: seq<IntegerLiteral>,
                          cursor: map<nat, nat>, constants: map<int, nat>, lb: int, ub: int)
    requires StateOk(domains, encoding, eq, numVariables, vars0, trail0, [], [], litStarts, litBufferSize,
                     boundsStarts, boundsBuffer, [], constants)
    requires CursorFits(domains, trail0, cursor) && lb <= ub
    ensures var i := |vars0|;
      StateOk(domains + [FromInterval(lb, ub), FromInterval(-ub, -lb)], encoding, eq, numVariables,
              vars0 + [VarInfo(lb, i), VarInfo(-ub, i + 1)],
              trail0 + [TrailEntry(lb, i, 0, 0), TrailEntry(-ub, i + 1, 0, 0)], [], [], litStarts, litBufferSize,
              boundsStarts, boundsBuffer, [], constants) &&
      CursorFits(domains + [FromInterval(lb, ub), FromInterval(-ub, -lb)],
                 trail0 + [TrailEntry(lb, i, 0, 0), TrailEntry(-ub, i + 1, 0, 0)], cursor)
  {
    var ds: seq<Domain> := domains + [FromInterval(lb, ub), FromInterval(-ub, -lb)];
    NewPairKeepsInvariant(vars0, trail0, litStarts, litBufferSize, boundsStarts, boundsBuffer, domains, cursor, lb, ub);
    forall c | c in constants
      ensures constants[c] < |ds| && ds[constants[c]] == [ClosedInterval(c, c)]
    {
      assert ds[constants[c]] == domains[constants[c]];
    }
  }
}
