/**
 * Backtracking the integer trail, stated on values: restoring the current
 * bounds from the chain of each variable, and the truncation of the trail,
 * of the levels and of the stored reasons that keeps every invariant.
 */
module TrailBacktrack {
  import opened IntegerTypes
  import opened Domains
  import opened Sat
  import opened Encoder
  import opened TrailModel

  /** A sequence ordered on adjacent positions is ordered on any two. */
  lemma {:induction false} AdjacentOrdered(s: seq<int>, i: int, j: int)
    requires forall l :: 0 < l < |s| ==> s[l - 1] <= s[l]
    requires 0 <= i <= j < |s|
    ensures s[i] <= s[j]
    decreases j - i
  {
    if i < j {
      AdjacentOrdered(s, i, j - 1);
    }
  }

  /**
   * Walks the trail back from its end to `target`, giving each variable the
   * bound and index of the previous entry of its chain; the result is the
   * current state of the trail cut at `target`.
   */
  method RestoreVars(vars: seq<VarInfo>, trail: seq<TrailEntry>, target: int) returns (vs: seq<VarInfo>)
    requires InitialEntries(|vars|, trail) && CurrentIsLast(vars, trail) && ChainLinked(|vars|, trail)
    requires |vars| <= target <= |trail|
    ensures |vs| == |vars| && CurrentIsLast(vs, trail[..target])
  {
    vs := vars;
    var index := |trail|;
    assert trail[..index] == trail;
    while index > target
      invariant target <= index <= |trail| && |vs| == |vars|
      invariant CurrentIsLast(vs, trail[..index])
    {
      index := index - 1;
      var entry := trail[index];
      ghost var vs0 := vs;
      if entry.variable >= 0 {
        assert LinkedAt(|vars|, trail, index);
        vs := vs[entry.variable := VarInfo(trail[entry.prevTrailIndex].bound, entry.prevTrailIndex)];
      }
      forall v | 0 <= v < |vs|
        ensures vs[v].currentTrailIndex == LastIndexOf(trail[..index], v) && 0 <= vs[v].currentTrailIndex &&
                vs[v].currentBound == trail[..index][vs[v].currentTrailIndex].bound
      {
        LastIndexOfStep(trail, index, v);
        if v != entry.variable {
          assert vs[v] == vs0[v];
          assert 0 <= vs0[v].currentTrailIndex;
        }
      }
    }
  }

  /** The number of reasons kept when the reasons from `size` on are dropped. */
  function KeptCount(starts: seq<int>, size: int): int
  {
    if 0 <= size < |starts| then size else |starts|
  }

  /** The part of a reason buffer kept when the reasons from `size` on are dropped. */
  function KeptSize(starts: seq<int>, bufferSize: nat, size: int): (k: nat)
    requires 0 <= size && StartsOk(starts, bufferSize)
    ensures k <= bufferSize
  {
    if size < |starts| then starts[size] else bufferSize
  }

  /** Cutting the trail and the levels at a level keeps the levels and the reason starts in order. */
  lemma TruncateKeepsLevels(numVars: nat, trailSize: nat, levels: seq<int>, reasonLevels: seq<int>,
                            litStarts: seq<int>, litBufferSize: nat, boundsStarts: seq<int>, boundsBufferSize: nat, level: nat)
    requires LevelsOk(numVars, trailSize, levels, reasonLevels, |litStarts|) && level < |levels|
    requires |boundsStarts| == |litStarts| && StartsOk(litStarts, litBufferSize) && StartsOk(boundsStarts, boundsBufferSize)
    ensures var size := reasonLevels[level];
      var n := KeptCount(litStarts, size);
      LevelsOk(numVars, levels[level], levels[..level], reasonLevels[..level], n) &&
      StartsOk(litStarts[..n], KeptSize(litStarts, litBufferSize, size)) &&
      StartsOk(boundsStarts[..n], KeptSize(boundsStarts, boundsBufferSize, size))
  {
    var size := reasonLevels[level];
    var n := KeptCount(litStarts, size);
    forall l | 0 <= l < level
      ensures numVars <= levels[l] <= levels[level] && 0 <= reasonLevels[l] <= n
    {
      AdjacentOrdered(levels, l, level);
      AdjacentOrdered(reasonLevels, l, level);
    }
    if size < |litStarts| {
      forall r | 0 <= r < n
        ensures litStarts[r] <= litStarts[size] && boundsStarts[r] <= boundsStarts[size]
      {
        AdjacentOrdered(litStarts, r, size);
        AdjacentOrdered(boundsStarts, r, size);
      }
    }
  }

  /** Cutting the trail and the reasons at a level keeps every kept entry's reason stored and held. */
  lemma TruncateKeepsReasons(numVars: nat, trail: seq<TrailEntry>, levels: seq<int>, reasonLevels: seq<int>,
                             litStarts: seq<int>, boundsStarts: seq<int>, boundsBuffer: seq<IntegerLiteral>, level: nat)
    requires |reasonLevels| == |levels| && level < |levels| && 0 <= levels[level] <= |trail| && 0 <= reasonLevels[level]
    requires |boundsStarts| == |litStarts| && StartsOk(boundsStarts, |boundsBuffer|)
    requires ReasonIndicesOk(numVars, trail, levels, reasonLevels, |litStarts|)
    requires ReasonsExplained(numVars, trail, boundsStarts, boundsBuffer)
    ensures var size := reasonLevels[level];
      var n := KeptCount(litStarts, size);
      var kept := KeptSize(boundsStarts, |boundsBuffer|, size);
      ReasonIndicesOk(numVars, trail[..levels[level]], levels[..level], reasonLevels[..level], n) &&
      ReasonsExplained(numVars, trail[..levels[level]], boundsStarts[..n], boundsBuffer[..kept])
  {
    var target := levels[level];
    var size := reasonLevels[level];
    var n := KeptCount(litStarts, size);
    var kept := KeptSize(boundsStarts, |boundsBuffer|, size);
    var trail' := trail[..target];
    assert ReasonsBelow(numVars, trail, target, size);
    forall l | 0 <= l < level
      ensures ReasonsBelow(numVars, trail', levels[l], reasonLevels[l])
    {
      assert ReasonsBelow(numVars, trail, levels[l], reasonLevels[l]);
    }
    forall t | numVars <= t < target
      ensures ReasonHeld(numVars, trail', t, boundsStarts[..n], boundsBuffer[..kept])
    {
      assert ReasonHeld(numVars, trail, t, boundsStarts, boundsBuffer);
      assert trail'[..t] == trail[..t];
      var ri := trail[t].reasonIndex;
      assert 0 <= ri < n;
      assert ReasonEnd(boundsStarts[..n], kept, ri) == ReasonEnd(boundsStarts, |boundsBuffer|, ri);
    }
  }

  /** Cutting the trail at a level restores the cursor saved when that level was entered. */
  lemma TruncateKeepsCursors(domains: seq<Domain>, trail: seq<TrailEntry>, levels: seq<int>,
                             saved: seq<map<nat, nat>>, level: nat)
    requires SavedCursorsFit(domains, trail, levels, saved) && level < |levels|
    requires forall l :: 0 < l < |levels| ==> levels[l - 1] <= levels[l]
    ensures CursorFits(domains, trail[..levels[level]], saved[level])
    ensures SavedCursorsFit(domains, trail[..levels[level]], levels[..level], saved[..level])
  {
    var target := levels[level];
    forall l | 0 <= l < level
      ensures 0 <= levels[l] <= target && CursorFits(domains, trail[..target][..levels[l]], saved[l])
    {
      AdjacentOrdered(levels, l, level);
      assert trail[..target][..levels[l]] == trail[..levels[l]];
    }
  }

  /**
   * Backtracking to `level`: the trail cut where the level was entered, the
   * current bounds restored to it, the levels and the reasons stored since
   * dropped and the saved cursor put back keep every invariant.
   */
  lemma BacktrackKeepsState(domains: seq<Domain>, encoding: seq<seq<Entry>>, eq: map<(nat, int), Literal>, numVariables: nat,
                            vars: seq<VarInfo>, vs: seq<VarInfo>, trail: seq<TrailEntry>,
                            levels: seq<int>, reasonLevels: seq<int>, litStarts: seq<int>, litBufferSize: nat,
                            boundsStarts: seq<int>, boundsBuffer: seq<IntegerLiteral>,
                            saved: seq<map<nat, nat>>, constants: map<int, nat>, level: nat)
    requires StateOk(domains, encoding, eq, numVariables, vars, trail, levels, reasonLevels,
                     litStarts, litBufferSize, boundsStarts, boundsBuffer, saved, constants)
    requires level < |levels| && |vs| == |vars| && CurrentIsLast(vs, trail[..levels[level]])
    ensures 0 <= reasonLevels[level] && |boundsStarts| == |litStarts|
    ensures StartsOk(litStarts, litBufferSize) && StartsOk(boundsStarts, |boundsBuffer|)
    ensures forall v :: 0 <= v < |vs| ==> vs[v].currentBound == BoundOf(trail[..levels[level]], v)
    ensures var size := reasonLevels[level];
      var n := KeptCount(litStarts, size);
      StateOk(domains, encoding, eq, numVariables, vs, trail[..levels[level]], levels[..level], reasonLevels[..level],
              litStarts[..n], KeptSize(litStarts, litBufferSize, size),
              boundsStarts[..n], boundsBuffer[..KeptSize(boundsStarts, |boundsBuffer|, size)],
              saved[..level], constants) &&
      CursorFits(domains, trail[..levels[level]], saved[level])
  {
    var target := levels[level];
    assert InitialEntries(|vs|, trail[..target]);
    ChainLinkedPrefix(|vars|, trail, target);
    TruncateKeepsLevels(|vars|, |trail|, levels, reasonLevels, litStarts, litBufferSize, boundsStarts, |boundsBuffer|, level);
    TruncateKeepsReasons(|vars|, trail, levels, reasonLevels, litStarts, boundsStarts, boundsBuffer, level);
    TruncateKeepsCursors(domains, trail, levels, saved, level);
  }
}
