/**
 * Expanding integer reasons into Boolean literals: the entries of the
 * integer trail to explain are processed from the latest one down; each is
 * replaced by the negation of its associated literal when it has one, and
 * otherwise by the literals of its stored reason, its bound dependencies
 * being queued in turn.
 */
module TrailMerge {
  import opened Wrappers
  import opened IntegerTypes
  import opened Sat
  import opened Encoder
  import opened TrailModel
  import opened TrailReasons

  /** What the expansion reads of the integer trail and of the encoder. */
  datatype TrailView = TrailView(vars: seq<VarInfo>, trail: seq<TrailEntry>, encoding: seq<seq<Entry>>,
                                 litStarts: seq<int>, litBuffer: seq<Literal>,
                                 boundsStarts: seq<int>, boundsBuffer: seq<IntegerLiteral>)

  /** The invariants of the trail and of its stored reasons that the expansion relies on. */
  ghost predicate ViewOk(e: TrailView)
  {
    InitialEntries(|e.vars|, e.trail) && CurrentIsLast(e.vars, e.trail) && ChainLinked(|e.vars|, e.trail) &&
    |e.trail| < kint32max && |e.boundsStarts| == |e.litStarts| &&
    StartsOk(e.litStarts, |e.litBuffer|) && StartsOk(e.boundsStarts, |e.boundsBuffer|) &&
    (forall t :: |e.vars| <= t < |e.trail| ==> 0 <= e.trail[t].reasonIndex < |e.litStarts|) &&
    ReasonsExplained(|e.vars|, e.trail, e.boundsStarts, e.boundsBuffer)
  }

  /** Entry `q` is a bound change of a variable, past the level-zero entries. */
  ghost predicate Queued(e: TrailView, q: int)
  {
    |e.vars| <= q < |e.trail| && 0 <= e.trail[q].variable < |e.vars|
  }

  ghost predicate AllQueued(e: TrailView, s: seq<int>)
  {
    forall k :: 0 <= k < |s| ==> Queued(e, s[k])
  }

  /** The literal associated with the bound set by entry `t`, if any. */
  ghost function Associated(e: TrailView, t: int): Option<Literal>
    requires Queued(e, t)
  {
    Find(VariableEncoding(e.encoding, e.trail[t].variable), e.trail[t].bound)
  }

  /** The entries that explain the integer reason of entry `t`. */
  ghost function DepsOf(e: TrailView, t: int): seq<int>
    requires ViewOk(e) && Queued(e, t)
  {
    IntegerReasonHeld(|e.vars|, e.trail, t, e.boundsStarts, e.boundsBuffer);
    DependenciesOf(|e.vars|, e.trail, IntegerReason(e.trail, t, e.boundsStarts, e.boundsBuffer))
  }

  // ---------------------------------------------------------------------
  // The result as a function of the processed entries

  /** The dependencies of the processed entries that were expanded through their stored reason. */
  ghost function DependenciesAlong(e: TrailView, processed: seq<int>): seq<int>
    requires ViewOk(e) && AllQueued(e, processed)
  {
    if processed == [] then []
    else
      var n := |processed| - 1;
      DependenciesAlong(e, processed[..n]) + if Associated(e, processed[n]).None? then DepsOf(e, processed[n]) else []
  }

  /** The Boolean variables marked as present in the output once `processed` was processed. */
  ghost function AddedAfter(e: TrailView, added0: set<nat>, processed: seq<int>): set<nat>
    requires ViewOk(e) && AllQueued(e, processed)
  {
    if processed == [] then added0
    else
      var n := |processed| - 1;
      var t := processed[n];
      AddedAfter(e, added0, processed[..n]) +
        if Associated(e, t).None? then LiteralVariables(LiteralReason(e.trail, t, e.litStarts, e.litBuffer)) else {}
  }

  /**
   * The output once `processed` was processed: each entry contributes the
   * negation of its associated literal, or else the literals of its stored
   * reason whose variable is not yet marked.
   */
  ghost function MergedOutput(e: TrailView, output0: seq<Literal>, added0: set<nat>, processed: seq<int>): seq<Literal>
    requires ViewOk(e) && AllQueued(e, processed)
  {
    if processed == [] then output0
    else
      var n := |processed| - 1;
      var t := processed[n];
      var init := MergedOutput(e, output0, added0, processed[..n]);
      match Associated(e, t)
      case Some(l) => init + [l.Negated()]
      case None => init + FreshLiterals(LiteralReason(e.trail, t, e.litStarts, e.litBuffer), AddedAfter(e, added0, processed[..n]))
  }

  /** The latest of the processed entries of `v`, or -1. */
  ghost function Latest(trail: seq<TrailEntry>, processed: seq<int>, v: int): (r: int)
    ensures r == -1 || (r in processed && 0 <= r < |trail| && trail[r].variable == v)
  {
    if processed == [] then -1
    else
      var n := |processed| - 1;
      var l := Latest(trail, processed[..n], v);
      var t := processed[n];
      if 0 <= t < |trail| && trail[t].variable == v && t > l then t else l
  }

  /** The last processed entry, or a value above every trail index before the first. */
  function Last(processed: seq<int>): int
  {
    if processed == [] then kint32max else processed[|processed| - 1]
  }

  ghost predicate Decreasing(s: seq<int>)
  {
    forall i, j :: 0 <= i < j < |s| ==> s[j] < s[i]
  }

  // ---------------------------------------------------------------------
  // The scratch state and its invariant

  /**
   * The state of the expansion: the queue of entries, for each variable
   * the entry of it to process (0 for none, `kint32max` once the variable
   * is settled), the settled variables, the marked Boolean variables and
   * the output.
   */
  datatype Scratch = Scratch(queue: seq<int>, tmpVar: seq<int>, toClear: seq<int>, added: set<nat>, output: seq<Literal>)

  /** The entry recorded for `v` is none, or `v` is settled by a processed entry, or a queued entry of `v` not yet reached. */
  ghost predicate ScratchAt(e: TrailView, s: Scratch, processed: seq<int>, v: int)
    requires 0 <= v < |s.tmpVar|
  {
    s.tmpVar[v] == 0 ||
    (s.tmpVar[v] == kint32max && v in s.toClear && Latest(e.trail, processed, v) >= 0) ||
    (|e.vars| <= s.tmpVar[v] < Last(processed) && s.tmpVar[v] < |e.trail| &&
     e.trail[s.tmpVar[v]].variable == v && s.tmpVar[v] in s.queue)
  }

  ghost predicate ScratchOk(e: TrailView, s: Scratch, processed: seq<int>)
  {
    |s.tmpVar| == |e.vars| && AllQueued(e, s.queue) &&
    (forall v :: 0 <= v < |s.tmpVar| ==> ScratchAt(e, s, processed, v)) &&
    (forall k :: 0 <= k < |s.toClear| ==> 0 <= s.toClear[k] < |e.vars|)
  }

  /** The bound of entry `o` is implied by a processed entry of its variable, or by the one still to process. */
  ghost predicate CoveredAt(e: TrailView, s: Scratch, processed: seq<int>, o: int)
  {
    Queued(e, o) &&
    var v := e.trail[o].variable;
    Latest(e.trail, processed, v) >= o ||
    (v < |s.tmpVar| && s.tmpVar[v] != kint32max && s.tmpVar[v] >= o)
  }

  ghost predicate Covers(e: TrailView, s: Scratch, processed: seq<int>, obligations: seq<int>)
  {
    forall k :: 0 <= k < |obligations| ==> CoveredAt(e, s, processed, obligations[k])
  }

  /** The loop invariant of the expansion. */
  ghost predicate MergeInv(e: TrailView, queue0: seq<int>, output0: seq<Literal>, added0: set<nat>, s: Scratch, processed: seq<int>)
    requires ViewOk(e)
  {
    ScratchOk(e, s, processed) && AllQueued(e, processed) && Decreasing(processed) &&
    s.output == MergedOutput(e, output0, added0, processed) &&
    s.added == AddedAfter(e, added0, processed) &&
    Covers(e, s, processed, queue0 + DependenciesAlong(e, processed))
  }

  // ---------------------------------------------------------------------
  // The queue: a multiset from which the largest entry is popped

  /** The largest element, or -1. */
  function Top(q: seq<int>): (m: int)
    ensures forall k :: 0 <= k < |q| ==> q[k] <= m
    ensures q == [] ==> m == -1
    ensures q != [] ==> m in q
  {
    if q == [] then -1
    else
      var m := Top(q[..|q| - 1]);
      if |q| == 1 || q[|q| - 1] > m then q[|q| - 1] else m
  }

  /** Removes a largest element of a non-empty queue. */
  method PopMax(q: seq<int>) returns (t: int, rest: seq<int>)
    requires q != []
    ensures t in q && multiset(rest) + multiset{t} == multiset(q)
    ensures forall k :: 0 <= k < |q| ==> q[k] <= t
  {
    var best := 0;
    var i := 1;
    while i < |q|
      invariant 0 <= best < |q| && 1 <= i <= |q|
      invariant forall k :: 0 <= k < i ==> q[k] <= q[best]
    {
      if q[i] > q[best] {
        best := i;
      }
      i := i + 1;
    }
    t := q[best];
    rest := q[..best] + q[best + 1..];
    assert q == q[..best] + [t] + q[best + 1..];
  }

  /** Popping the largest entry and pushing only smaller ones lowers the top, or the number of copies of it. */
  lemma MeasureDrops(q: seq<int>, rest: seq<int>, t: int, q': seq<int>)
    requires t in q && multiset(rest) + multiset{t} == multiset(q)
    requires forall k :: 0 <= k < |q| ==> 0 <= q[k] <= t
    requires |rest| <= |q'| && q'[..|rest|] == rest
    requires forall k :: |rest| <= k < |q'| ==> 0 <= q'[k] < t
    ensures Top(q') < Top(q) || (Top(q') == Top(q) && multiset(q')[Top(q')] < multiset(q)[Top(q)])
  {
    assert Top(q) == t;
    assert q' == rest + q'[|rest|..];
    assert multiset(q')[t] == multiset(rest)[t];
    forall k | 0 <= k < |q'|
      ensures q'[k] <= t
    {
      if k < |rest| {
        assert q'[k] in multiset(rest);
        assert q'[k] in multiset(q);
      }
    }
    if multiset(rest)[t] == 0 {
      assert t !in q';
    }
  }

  // ---------------------------------------------------------------------
  // Facts about the specification functions

  lemma LatestStep(trail: seq<TrailEntry>, processed: seq<int>, t: int, v: int)
    ensures Latest(trail, processed + [t], v) ==
      if 0 <= t < |trail| && trail[t].variable == v && t > Latest(trail, processed, v) then t else Latest(trail, processed, v)
  {
    assert (processed + [t])[..|processed|] == processed;
  }

  /** In a decreasing sequence every element is at least the last one. */
  lemma LatestAtLeastLast(trail: seq<TrailEntry>, processed: seq<int>, v: int)
    requires Decreasing(processed) && Latest(trail, processed, v) >= 0
    ensures Latest(trail, processed, v) >= Last(processed)
  {
    var r := Latest(trail, processed, v);
    var k :| 0 <= k < |processed| && processed[k] == r;
    if k < |processed| - 1 {
      assert processed[|processed| - 1] < processed[k];
    }
  }

  lemma AlongStep(e: TrailView, output0: seq<Literal>, added0: set<nat>, processed: seq<int>, t: int)
    requires ViewOk(e) && AllQueued(e, processed) && Queued(e, t)
    ensures AllQueued(e, processed + [t])
    ensures DependenciesAlong(e, processed + [t]) ==
      DependenciesAlong(e, processed) + if Associated(e, t).None? then DepsOf(e, t) else []
    ensures AddedAfter(e, added0, processed + [t]) ==
      AddedAfter(e, added0, processed) +
        if Associated(e, t).None? then LiteralVariables(LiteralReason(e.trail, t, e.litStarts, e.litBuffer)) else {}
    ensures MergedOutput(e, output0, added0, processed + [t]) ==
      MergedOutput(e, output0, added0, processed) +
        match Associated(e, t)
        case Some(l) => [l.Negated()]
        case None => FreshLiterals(LiteralReason(e.trail, t, e.litStarts, e.litBuffer), AddedAfter(e, added0, processed))
  {
    var p := processed + [t];
    assert p[..|processed|] == processed;
    assert AllQueued(e, p) by {
      forall k | 0 <= k < |p| ensures Queued(e, p[k]) {
        if k < |processed| {
          assert p[k] == processed[k];
        }
      }
    }
  }

  /** The expansion only appends to the output it is given. */
  lemma {:induction false} MergedOutputExtends(e: TrailView, output0: seq<Literal>, added0: set<nat>, processed: seq<int>)
    requires ViewOk(e) && AllQueued(e, processed)
    ensures |output0| <= |MergedOutput(e, output0, added0, processed)|
    ensures MergedOutput(e, output0, added0, processed)[..|output0|] == output0
    decreases |processed|
  {
    if processed != [] {
      var n := |processed| - 1;
      assert AllQueued(e, processed[..n]) by {
        forall k | 0 <= k < n ensures Queued(e, processed[..n][k]) {
          assert processed[..n][k] == processed[k];
        }
      }
      MergedOutputExtends(e, output0, added0, processed[..n]);
    }
  }

  /** Once the queue is empty, nothing is pending: every variable is clear or settled, every obligation is met. */
  lemma NothingPending(e: TrailView, s: Scratch, processed: seq<int>, obligations: seq<int>)
    requires ScratchOk(e, s, processed) && Covers(e, s, processed, obligations) && s.queue == []
    ensures forall v :: 0 <= v < |s.tmpVar| ==> s.tmpVar[v] == 0 || (s.tmpVar[v] == kint32max && v in s.toClear)
    ensures forall k :: 0 <= k < |obligations| ==>
      Queued(e, obligations[k]) && Latest(e.trail, processed, e.trail[obligations[k]].variable) >= obligations[k]
  {
    forall v | 0 <= v < |s.tmpVar|
      ensures s.tmpVar[v] == 0 || (s.tmpVar[v] == kint32max && v in s.toClear)
    {
      assert ScratchAt(e, s, processed, v);
    }
    forall k | 0 <= k < |obligations|
      ensures Queued(e, obligations[k]) && Latest(e.trail, processed, e.trail[obligations[k]].variable) >= obligations[k]
    {
      var o := obligations[k];
      assert CoveredAt(e, s, processed, o);
      var v := e.trail[o].variable;
      assert ScratchAt(e, s, processed, v);
    }
  }

  /** A processed entry of the variable of `o` at least as late as `o` has a bound at least that of `o`. */
  lemma ImpliedBound(e: TrailView, processed: seq<int>, o: int)
    requires ViewOk(e) && Queued(e, o) && Latest(e.trail, processed, e.trail[o].variable) >= o
    ensures e.trail[Latest(e.trail, processed, e.trail[o].variable)].bound >= e.trail[o].bound
  {
    var r := Latest(e.trail, processed, e.trail[o].variable);
    if r > o {
      ChainBoundsIncrease(|e.vars|, e.trail, o, r);
    }
  }

  // ---------------------------------------------------------------------
  // The expansion

  /**
   * Sets up the expansion of the entries `queue0` into `output`: the
   * per-variable vector is resized to the number of variables (it holds
   * zeros only), each variable records its latest queued entry, and the
   * variables of `output` are marked.
   */
  method Seed(e: TrailView, tmpVar0: seq<int>, queue0: seq<int>, output: seq<Literal>) returns (s: Scratch)
    requires ViewOk(e) && AllZero(tmpVar0) && AllQueued(e, queue0)
    ensures s.queue == queue0 && s.output == output && s.toClear == []
    ensures MergeInv(e, queue0, output, LiteralVariables(output), s, [])
  {
    var n := |e.vars|;
    var tmpVar := if |tmpVar0| <= n then tmpVar0 + seq(n - |tmpVar0|, _ => 0) else tmpVar0[..n];
    var i := 0;
    while i < |queue0|
      invariant 0 <= i <= |queue0| && |tmpVar| == n
      invariant forall v :: 0 <= v < n ==>
        tmpVar[v] == 0 || (n <= tmpVar[v] < |e.trail| && e.trail[tmpVar[v]].variable == v && tmpVar[v] in queue0)
      invariant forall k :: 0 <= k < i ==> tmpVar[e.trail[queue0[k]].variable] >= queue0[k]
    {
      var t := queue0[i];
      assert Queued(e, t);
      var v := e.trail[t].variable;
      tmpVar := tmpVar[v := if tmpVar[v] < t then t else tmpVar[v]];
      i := i + 1;
    }
    s := Scratch(queue0, tmpVar, [], LiteralVariables(output), output);
    forall v | 0 <= v < n
      ensures ScratchAt(e, s, [], v)
    {
    }
    forall k | 0 <= k < |queue0|
      ensures CoveredAt(e, s, [], queue0[k])
    {
      assert Queued(e, queue0[k]);
    }
    assert queue0 + DependenciesAlong(e, []) == queue0;
  }

  /**
   * Pushes the dependencies `deps` of the entry just processed: each one
   * whose variable records a smaller entry becomes the entry to process
   * for its variable.
   */
  method PushDependencies(e: TrailView, s: Scratch, ghost processed: seq<int>, ghost obligations: seq<int>, deps: seq<int>)
    returns (s': Scratch)
    requires ViewOk(e) && ScratchOk(e, s, processed) && AllQueued(e, processed) && Decreasing(processed)
    requires Covers(e, s, processed, obligations)
    requires forall k :: 0 <= k < |deps| ==> Queued(e, deps[k]) && deps[k] < Last(processed)
    ensures s' == s.(tmpVar := s'.tmpVar, queue := s'.queue)
    ensures ScratchOk(e, s', processed) && Covers(e, s', processed, obligations + deps)
    ensures |s.queue| <= |s'.queue| && s'.queue[..|s.queue|] == s.queue
    ensures forall k :: |s.queue| <= k < |s'.queue| ==> s'.queue[k] < Last(processed)
    ensures deps == [] ==> s' == s
  {
    s' := s;
    var i := 0;
    while i < |deps|
      invariant 0 <= i <= |deps| && (i == 0 ==> s' == s)
      invariant s' == s.(tmpVar := s'.tmpVar, queue := s'.queue)
      invariant ScratchOk(e, s', processed) && Covers(e, s', processed, obligations + deps[..i])
      invariant |s.queue| <= |s'.queue| && s'.queue[..|s.queue|] == s.queue
      invariant forall k :: |s.queue| <= k < |s'.queue| ==> s'.queue[k] < Last(processed)
    {
      var d := deps[i];
      assert Queued(e, d);
      var w := e.trail[d].variable;
      PushKeeps(e, s', processed, obligations + deps[..i], d);
      if d > s'.tmpVar[w] {
        s' := s'.(tmpVar := s'.tmpVar[w := d], queue := s'.queue + [d]);
      }
      assert obligations + deps[..i + 1] == (obligations + deps[..i]) + [d];
      i := i + 1;
    }
    assert deps[..i] == deps;
  }

  /** Pushing dependency `d`, or skipping it, keeps the scratch state and covers `d`. */
  lemma PushKeeps(e: TrailView, s: Scratch, processed: seq<int>, obligations: seq<int>, d: int)
    requires ViewOk(e) && ScratchOk(e, s, processed) && AllQueued(e, processed) && Decreasing(processed)
    requires Covers(e, s, processed, obligations) && Queued(e, d) && d < Last(processed)
    ensures var w := e.trail[d].variable;
      var s' := if d > s.tmpVar[w] then s.(tmpVar := s.tmpVar[w := d], queue := s.queue + [d]) else s;
      ScratchOk(e, s', processed) && Covers(e, s', processed, obligations + [d])
  {
    var w := e.trail[d].variable;
    assert ScratchAt(e, s, processed, w);
    if d > s.tmpVar[w] {
      var s' := s.(tmpVar := s.tmpVar[w := d], queue := s.queue + [d]);
      forall v | 0 <= v < |s'.tmpVar|
        ensures ScratchAt(e, s', processed, v)
      {
        assert ScratchAt(e, s, processed, v);
        if s.tmpVar[v] != 0 && v != w {
          assert s.tmpVar[v] in s.queue ==> s.tmpVar[v] in s'.queue;
        }
      }
      forall k | 0 <= k < |obligations + [d]|
        ensures CoveredAt(e, s', processed, (obligations + [d])[k])
      {
        if k < |obligations| {
          assert CoveredAt(e, s, processed, obligations[k]);
        }
      }
    } else {
      if s.tmpVar[w] == kint32max {
        LatestAtLeastLast(e.trail, processed, w);
      }
      forall k | 0 <= k < |obligations + [d]|
        ensures CoveredAt(e, s, processed, (obligations + [d])[k])
      {
        if k < |obligations| {
          assert CoveredAt(e, s, processed, obligations[k]);
        }
      }
    }
  }

  /** An element of the queue other than the popped one is still in the rest. */
  lemma StillQueued(q: seq<int>, rest: seq<int>, t: int, x: int)
    requires multiset(rest) + multiset{t} == multiset(q) && x in q && x != t
    ensures x in rest
  {
    assert x in multiset(q);
  }

  /**
   * After popping `t`, the variables other than that of `t` keep their
   * state, with `t` as the last processed entry when it is processed.
   */
  lemma PopKeeps(e: TrailView, s: Scratch, processed: seq<int>, q: seq<int>, t: int, processed': seq<int>)
    requires ViewOk(e) && ScratchOk(e, s.(queue := q), processed) && Decreasing(processed)
    requires t in q && multiset(s.queue) + multiset{t} == multiset(q) && (forall k :: 0 <= k < |q| ==> q[k] <= t)
    requires Queued(e, t) && (processed' == processed || (processed' == processed + [t] && s.tmpVar[e.trail[t].variable] == t))
    ensures AllQueued(e, s.queue)
    ensures forall w :: 0 <= w < |s.tmpVar| && s.tmpVar[w] != t ==> ScratchAt(e, s, processed', w)
  {
    forall k | 0 <= k < |s.queue|
      ensures Queued(e, s.queue[k])
    {
      assert s.queue[k] in multiset(s.queue);
      assert s.queue[k] in multiset(q);
    }
    forall w | 0 <= w < |s.tmpVar| && s.tmpVar[w] != t
      ensures ScratchAt(e, s, processed', w)
    {
      assert ScratchAt(e, s.(queue := q), processed, w);
      if s.tmpVar[w] == kint32max {
        LatestStep(e.trail, processed, t, w);
      } else if s.tmpVar[w] != 0 {
        StillQueued(q, s.queue, t, s.tmpVar[w]);
        var k :| 0 <= k < |q| && q[k] == s.tmpVar[w];
      }
    }
  }

  /** A stale entry is dropped from the queue and nothing else changes. */
  lemma StaleKeeps(e: TrailView, queue0: seq<int>, output0: seq<Literal>, added0: set<nat>, s: Scratch, processed: seq<int>,
                   q: seq<int>, t: int)
    requires ViewOk(e) && MergeInv(e, queue0, output0, added0, s.(queue := q), processed)
    requires t in q && multiset(s.queue) + multiset{t} == multiset(q) && (forall k :: 0 <= k < |q| ==> q[k] <= t)
    requires Queued(e, t) && s.tmpVar[e.trail[t].variable] != t
    ensures MergeInv(e, queue0, output0, added0, s, processed)
  {
    PopKeeps(e, s, processed, q, t, processed);
    forall w | 0 <= w < |s.tmpVar|
      ensures ScratchAt(e, s, processed, w)
    {
      assert ScratchAt(e, s.(queue := q), processed, w);
    }
    var obligations := queue0 + DependenciesAlong(e, processed);
    forall k | 0 <= k < |obligations|
      ensures CoveredAt(e, s, processed, obligations[k])
    {
      assert CoveredAt(e, s.(queue := q), processed, obligations[k]);
    }
  }

  /** The popped entry `t` is below every processed entry. */
  lemma PoppedIsNext(e: TrailView, s: Scratch, processed: seq<int>, t: int)
    requires ViewOk(e) && ScratchOk(e, s, processed) && Decreasing(processed)
    requires Queued(e, t) && s.tmpVar[e.trail[t].variable] == t
    ensures t < Last(processed) && Decreasing(processed + [t])
  {
    assert ScratchAt(e, s, processed, e.trail[t].variable);
    var p := processed + [t];
    forall i, j | 0 <= i < j < |p|
      ensures p[j] < p[i]
    {
      if j == |processed| && i < |processed| - 1 {
        assert processed[|processed| - 1] < processed[i];
      }
    }
  }

  /** The output and marks after expanding `t` are those the specification functions give for `t` processed. */
  lemma ExpandOutput(e: TrailView, output0: seq<Literal>, added0: set<nat>, output: seq<Literal>, added: set<nat>,
                     processed: seq<int>, t: int, output': seq<Literal>, added': set<nat>)
    requires ViewOk(e) && AllQueued(e, processed) && Queued(e, t) && Associated(e, t).None?
    requires output == MergedOutput(e, output0, added0, processed) && added == AddedAfter(e, added0, processed)
    requires output' == output + FreshLiterals(LiteralReason(e.trail, t, e.litStarts, e.litBuffer), added)
    requires added' == added + LiteralVariables(LiteralReason(e.trail, t, e.litStarts, e.litBuffer))
    ensures AllQueued(e, processed + [t])
    ensures output' == MergedOutput(e, output0, added0, processed + [t]) && added' == AddedAfter(e, added0, processed + [t])
    ensures DependenciesAlong(e, processed + [t]) == DependenciesAlong(e, processed) + DepsOf(e, t)
  {
    AlongStep(e, output0, added0, processed, t);
  }

  /**
   * Processing the popped entry `t`, recording `x` (none, or settled) for
   * its variable, keeps the scratch state and the coverage of every
   * obligation, with `t` as the last processed entry.
   */
  lemma AdvanceKeeps(e: TrailView, s: Scratch, processed: seq<int>, obligations: seq<int>, q: seq<int>, t: int,
                     x: int, toClear: seq<int>, output: seq<Literal>, added: set<nat>)
    requires ViewOk(e) && ScratchOk(e, s.(queue := q), processed) && AllQueued(e, processed) && Decreasing(processed)
    requires Covers(e, s.(queue := q), processed, obligations)
    requires t in q && multiset(s.queue) + multiset{t} == multiset(q) && (forall k :: 0 <= k < |q| ==> q[k] <= t)
    requires Queued(e, t) && s.tmpVar[e.trail[t].variable] == t
    requires (x == 0 && toClear == s.toClear) || (x == kint32max && toClear == s.toClear + [e.trail[t].variable])
    ensures var s' := s.(output := output, added := added, toClear := toClear, tmpVar := s.tmpVar[e.trail[t].variable := x]);
      var p := processed + [t];
      ScratchOk(e, s', p) && Covers(e, s', p, obligations) && AllQueued(e, p) && Decreasing(p) && Last(p) == t
  {
    var v := e.trail[t].variable;
    var s' := s.(output := output, added := added, toClear := toClear, tmpVar := s.tmpVar[v := x]);
    var p := processed + [t];
    PoppedIsNext(e, s.(queue := q), processed, t);
    PopKeeps(e, s, processed, q, t, p);
    assert AllQueued(e, p) by {
      forall k | 0 <= k < |p| ensures Queued(e, p[k]) {
        if k < |processed| {
          assert p[k] == processed[k];
        }
      }
    }
    forall w | 0 <= w < |s'.tmpVar|
      ensures ScratchAt(e, s', p, w)
    {
      LatestStep(e.trail, processed, t, w);
      if w != v {
        assert ScratchAt(e, s.(queue := q), processed, w);
        assert ScratchAt(e, s, p, w);
      }
    }
    forall k | 0 <= k < |obligations|
      ensures CoveredAt(e, s', p, obligations[k])
    {
      assert CoveredAt(e, s.(queue := q), processed, obligations[k]);
      LatestStep(e.trail, processed, t, e.trail[obligations[k]].variable);
    }
  }

  /** Settling a cleared variable whose entry had no dependency keeps the invariant. */
  lemma LeafKeeps(e: TrailView, s: Scratch, processed: seq<int>, obligations: seq<int>, v: int)
    requires ViewOk(e) && ScratchOk(e, s, processed) && Covers(e, s, processed, obligations)
    requires 0 <= v < |s.tmpVar| && s.tmpVar[v] == 0 && Latest(e.trail, processed, v) >= 0
    ensures var s' := s.(toClear := s.toClear + [v], tmpVar := s.tmpVar[v := kint32max]);
      ScratchOk(e, s', processed) && Covers(e, s', processed, obligations)
  {
    var s' := s.(toClear := s.toClear + [v], tmpVar := s.tmpVar[v := kint32max]);
    forall w | 0 <= w < |s'.tmpVar|
      ensures ScratchAt(e, s', processed, w)
    {
      assert ScratchAt(e, s, processed, w);
    }
    forall k | 0 <= k < |obligations|
      ensures CoveredAt(e, s', processed, obligations[k])
    {
      assert CoveredAt(e, s, processed, obligations[k]);
    }
  }

  /**
   * Processes the popped entry `t`, the one recorded for its variable: its
   * associated literal, negated, goes to the output and settles the
   * variable; otherwise the entry is expanded.
   */
  method Process(e: TrailView, ghost queue0: seq<int>, ghost output0: seq<Literal>, ghost added0: set<nat>,
                 s: Scratch, ghost processed: seq<int>, ghost q: seq<int>, t: int)
    returns (s': Scratch, ghost processed': seq<int>)
    requires ViewOk(e) && MergeInv(e, queue0, output0, added0, s.(queue := q), processed)
    requires t in q && multiset(s.queue) + multiset{t} == multiset(q) && (forall k :: 0 <= k < |q| ==> q[k] <= t)
    requires Queued(e, t) && s.tmpVar[e.trail[t].variable] == t
    ensures processed' == processed + [t] && MergeInv(e, queue0, output0, added0, s', processed')
    ensures |s.queue| <= |s'.queue| && s'.queue[..|s.queue|] == s.queue
    ensures forall k :: |s.queue| <= k < |s'.queue| ==> s'.queue[k] < t
  {
    var v := e.trail[t].variable;
    var associated := Find(VariableEncoding(e.encoding, v), e.trail[t].bound);
    if associated.Some? {
      s', processed' := TakeAssociated(e, queue0, output0, added0, s, processed, q, t, associated.value);
    } else {
      s', processed' := Expand(e, queue0, output0, added0, s, processed, q, t);
    }
  }

  /** Processes the popped entry `t`, whose bound has the associated literal `l`: its negation is output and the variable settled. */
  method TakeAssociated(e: TrailView, ghost queue0: seq<int>, ghost output0: seq<Literal>, ghost added0: set<nat>,
                        s: Scratch, ghost processed: seq<int>, ghost q: seq<int>, t: int, l: Literal)
    returns (s': Scratch, ghost processed': seq<int>)
    requires ViewOk(e) && MergeInv(e, queue0, output0, added0, s.(queue := q), processed)
    requires t in q && multiset(s.queue) + multiset{t} == multiset(q) && (forall k :: 0 <= k < |q| ==> q[k] <= t)
    requires Queued(e, t) && s.tmpVar[e.trail[t].variable] == t && Associated(e, t) == Some(l)
    ensures processed' == processed + [t] && MergeInv(e, queue0, output0, added0, s', processed')
    ensures s'.queue == s.queue && s'.queue[..|s.queue|] == s.queue
  {
    var v := e.trail[t].variable;
    processed' := processed + [t];
    ghost var obligations := queue0 + DependenciesAlong(e, processed);
    AlongStep(e, output0, added0, processed, t);
    var output := s.output + [l.Negated()];
    AdvanceKeeps(e, s, processed, obligations, q, t, kint32max, s.toClear + [v], output, s.added);
    s' := s.(output := output, added := s.added, toClear := s.toClear + [v], tmpVar := s.tmpVar[v := kint32max]);
    assert obligations == queue0 + DependenciesAlong(e, processed');
  }

  /**
   * Expands the popped entry `t`, which has no associated literal: the
   * literals of its stored reason go to the output and its dependencies
   * are pushed, the variable being settled when the entry has none.
   */
  method Expand(e: TrailView, ghost queue0: seq<int>, ghost output0: seq<Literal>, ghost added0: set<nat>,
                s: Scratch, ghost processed: seq<int>, ghost q: seq<int>, t: int)
    returns (s': Scratch, ghost processed': seq<int>)
    requires ViewOk(e) && MergeInv(e, queue0, output0, added0, s.(queue := q), processed)
    requires t in q && multiset(s.queue) + multiset{t} == multiset(q) && (forall k :: 0 <= k < |q| ==> q[k] <= t)
    requires Queued(e, t) && s.tmpVar[e.trail[t].variable] == t && Associated(e, t).None?
    ensures processed' == processed + [t] && MergeInv(e, queue0, output0, added0, s', processed')
    ensures |s.queue| <= |s'.queue| && s'.queue[..|s.queue|] == s.queue
    ensures forall k :: |s.queue| <= k < |s'.queue| ==> s'.queue[k] < t
  {
    processed' := processed + [t];
    ghost var obligations := queue0 + DependenciesAlong(e, processed);
    var cleared := TakeLiteralReason(e, queue0, output0, added0, s, processed, q, t);
    s' := PushDependenciesOf(e, queue0, output0, added0, cleared, processed', obligations, t);
  }

  /**
   * The second half of expanding `t`, the last processed entry: its
   * dependencies are pushed, and its variable settled when it has none.
   */
  method PushDependenciesOf(e: TrailView, ghost queue0: seq<int>, ghost output0: seq<Literal>, ghost added0: set<nat>,
                            cleared: Scratch, ghost processed: seq<int>, ghost obligations: seq<int>, t: int)
    returns (s': Scratch)
    requires ViewOk(e) && ScratchOk(e, cleared, processed) && Covers(e, cleared, processed, obligations)
    requires AllQueued(e, processed) && Decreasing(processed) && processed != [] && Last(processed) == t
    requires cleared.output == MergedOutput(e, output0, added0, processed) && cleared.added == AddedAfter(e, added0, processed)
    requires Queued(e, t) && cleared.tmpVar[e.trail[t].variable] == 0
    requires obligations + DepsOf(e, t) == queue0 + DependenciesAlong(e, processed)
    ensures MergeInv(e, queue0, output0, added0, s', processed)
    ensures |cleared.queue| <= |s'.queue| && s'.queue[..|cleared.queue|] == cleared.queue
    ensures forall k :: |cleared.queue| <= k < |s'.queue| ==> s'.queue[k] < t
  {
    assert ReasonHeld(|e.vars|, e.trail, t, e.boundsStarts, e.boundsBuffer);
    var deps := Dependencies(e.vars, e.trail, e.boundsStarts, e.boundsBuffer, t);
    s' := PushDependencies(e, cleared, processed, obligations, deps);
    s' := SettleIfLeaf(e, s', processed, obligations + deps, deps, t);
    InvFrom(e, queue0, output0, added0, s', processed);
  }

  /**
   * The first half of expanding `t`: the literals of its stored reason go
   * to the output and its variable is no longer queued.
   */
  method TakeLiteralReason(e: TrailView, ghost queue0: seq<int>, ghost output0: seq<Literal>, ghost added0: set<nat>,
                           s: Scratch, ghost processed: seq<int>, ghost q: seq<int>, t: int)
    returns (cleared: Scratch)
    requires ViewOk(e) && MergeInv(e, queue0, output0, added0, s.(queue := q), processed)
    requires t in q && multiset(s.queue) + multiset{t} == multiset(q) && (forall k :: 0 <= k < |q| ==> q[k] <= t)
    requires Queued(e, t) && s.tmpVar[e.trail[t].variable] == t && Associated(e, t).None?
    ensures var p := processed + [t];
      cleared == s.(output := cleared.output, added := cleared.added, tmpVar := s.tmpVar[e.trail[t].variable := 0]) &&
      ScratchOk(e, cleared, p) && Covers(e, cleared, p, queue0 + DependenciesAlong(e, processed)) &&
      AllQueued(e, p) && Decreasing(p) && Last(p) == t &&
      cleared.output == MergedOutput(e, output0, added0, p) && cleared.added == AddedAfter(e, added0, p) &&
      DependenciesAlong(e, p) == DependenciesAlong(e, processed) + DepsOf(e, t)
  {
    var v := e.trail[t].variable;
    var output, added := AppendLiteralsReason(e.trail, t, e.litStarts, e.litBuffer, s.added, s.output);
    ExpandOutput(e, output0, added0, s.output, s.added, processed, t, output, added);
    AdvanceKeeps(e, s, processed, queue0 + DependenciesAlong(e, processed), q, t, 0, s.toClear, output, added);
    cleared := s.(output := output, added := added, toClear := s.toClear, tmpVar := s.tmpVar[v := 0]);
  }

  lemma InvFrom(e: TrailView, queue0: seq<int>, output0: seq<Literal>, added0: set<nat>, s: Scratch, processed: seq<int>)
    requires ViewOk(e) && ScratchOk(e, s, processed) && AllQueued(e, processed) && Decreasing(processed)
    requires s.output == MergedOutput(e, output0, added0, processed) && s.added == AddedAfter(e, added0, processed)
    requires Covers(e, s, processed, queue0 + DependenciesAlong(e, processed))
    ensures MergeInv(e, queue0, output0, added0, s, processed)
  {
  }

  /**
   * Settles the variable of the expanded entry `t` when its stored reason
   * gave no dependency; an entry of that reason past the dependencies whose
   * variable is 0 counts as one.
   */
  method SettleIfLeaf(e: TrailView, s: Scratch, ghost processed: seq<int>, ghost obligations: seq<int>, deps: seq<int>, t: int)
    returns (s': Scratch)
    requires ViewOk(e) && ScratchOk(e, s, processed) && Covers(e, s, processed, obligations)
    requires Queued(e, t) && processed != [] && Last(processed) == t
    requires deps == [] ==> s.tmpVar[e.trail[t].variable] == 0
    ensures s' == s.(toClear := s'.toClear, tmpVar := s'.tmpVar)
    ensures ScratchOk(e, s', processed) && Covers(e, s', processed, obligations)
  {
    s' := s;
    var v := e.trail[t].variable;
    var ri := e.trail[t].reasonIndex;
    var start := e.boundsStarts[ri];
    var end := ReasonEnd(e.boundsStarts, |e.boundsBuffer|, ri);
    var hasDependency := |deps| > 0 || (start + |deps| < end && e.boundsBuffer[start + |deps|].variable == 0);
    if !hasDependency {
      LatestStep(e.trail, processed[..|processed| - 1], t, v);
      assert processed == processed[..|processed| - 1] + [t];
      LeafKeeps(e, s, processed, obligations, v);
      s' := s.(toClear := s.toClear + [v], tmpVar := s.tmpVar[v := kint32max]);
    }
  }

  /**
   * Expands the entries `queue0` into Boolean literals appended to
   * `output`. The entries are processed from the latest down, each at most
   * once; every queued entry and every dependency of an expanded entry is
   * implied by a processed entry of its variable at least as late; and the
   * per-variable vector is all zeros again at the end.
   */
  method MergeReasonIntoInternal(e: TrailView, tmpVar0: seq<int>, queue0: seq<int>, output: seq<Literal>)
    returns (out: seq<Literal>, tmpVar: seq<int>, ghost processed: seq<int>)
    requires ViewOk(e) && AllZero(tmpVar0) && AllQueued(e, queue0)
    ensures |tmpVar| == |e.vars| && AllZero(tmpVar)
    ensures AllQueued(e, processed) && Decreasing(processed)
    ensures out == MergedOutput(e, output, LiteralVariables(output), processed)
    ensures forall k :: 0 <= k < |queue0 + DependenciesAlong(e, processed)| ==>
      var o := (queue0 + DependenciesAlong(e, processed))[k];
      Queued(e, o) && Latest(e.trail, processed, e.trail[o].variable) >= o
  {
    ghost var added0 := LiteralVariables(output);
    var s := Seed(e, tmpVar0, queue0, output);
    s, processed := Drain(e, queue0, output, added0, s, []);
    NothingPending(e, s, processed, queue0 + DependenciesAlong(e, processed));
    out := s.output;
    tmpVar := ClearSettled(s.tmpVar, s.toClear);
  }

  /**
   * Expands `queue`, which holds for each of `literals` not true at level
   * zero the entry that first made it true, appending to `output`; for each
   * such literal an expanded entry of its variable implies it.
   */
  method MergeQueued(e: TrailView, tmpVar0: seq<int>, queue: seq<int>, literals: seq<IntegerLiteral>, output: seq<Literal>)
    returns (out: seq<Literal>, tmpVar: seq<int>, ghost processed: seq<int>)
    requires ViewOk(e) && AllZero(tmpVar0) && AllQueued(e, queue)
    requires forall k :: 0 <= k < |literals| ==> 0 <= literals[k].variable < |e.vars|
    requires forall k :: 0 <= k < |literals| && literals[k].bound > e.trail[literals[k].variable].bound ==>
      exists j :: 0 <= j < |queue| && IsLowestExplaining(e.trail, literals[k].variable, literals[k].bound, queue[j])
    ensures |tmpVar| == |e.vars| && AllZero(tmpVar)
    ensures AllQueued(e, processed) && Decreasing(processed)
    ensures out == MergedOutput(e, output, LiteralVariables(output), processed)
    ensures forall k :: 0 <= k < |literals| && literals[k].bound > e.trail[literals[k].variable].bound ==>
      var l := Latest(e.trail, processed, literals[k].variable);
      |e.vars| <= l < |e.trail| && e.trail[l].bound >= literals[k].bound
  {
    out, tmpVar, processed := MergeReasonIntoInternal(e, tmpVar0, queue, output);
    forall k | 0 <= k < |literals| && literals[k].bound > e.trail[literals[k].variable].bound
      ensures var l := Latest(e.trail, processed, literals[k].variable);
        |e.vars| <= l < |e.trail| && e.trail[l].bound >= literals[k].bound
    {
      var j :| 0 <= j < |queue| && IsLowestExplaining(e.trail, literals[k].variable, literals[k].bound, queue[j]);
      assert (queue + DependenciesAlong(e, processed))[j] == queue[j];
      ImpliedBound(e, processed, queue[j]);
    }
  }

  /**
   * `reason` is what expanding the entries of `processed` appends to the
   * fresh literals of the literal reason of `t`; those entries are those the
   * expansion pops, and for every entry the integer reason of `t` depends
   * on, an expanded entry of the same variable implies its bound.
   */
  ghost predicate ExplainsEntry(e: TrailView, t: int, reason: seq<Literal>, processed: seq<int>)
    requires ViewOk(e) && |e.vars| <= t < |e.trail|
  {
    var lits := FreshLiterals(LiteralReason(e.trail, t, e.litStarts, e.litBuffer), {});
    AllQueued(e, processed) && Decreasing(processed) &&
    reason == MergedOutput(e, lits, LiteralVariables(lits), processed) &&
    var bounds := IntegerReason(e.trail, t, e.boundsStarts, e.boundsBuffer);
    HeldBefore(|e.vars|, e.trail, t, bounds) &&
    var deps := DependenciesOf(|e.vars|, e.trail, bounds);
    forall k :: 0 <= k < |deps| ==>
      Queued(e, deps[k]) && deps[k] < t &&
      var l := Latest(e.trail, processed, e.trail[deps[k]].variable);
      deps[k] <= l < |e.trail| && e.trail[l].bound >= e.trail[deps[k]].bound
  }

  /**
   * The reason of the Boolean literal whose reason entry `t` holds: the
   * literal reason of `t`, then the expansion of the entries explaining its
   * integer reason. The scratch array is left all zero.
   */
  method ReasonOfEntry(e: TrailView, tmpVar0: seq<int>, t: int)
    returns (reason: seq<Literal>, tmpVar: seq<int>, ghost processed: seq<int>)
    requires ViewOk(e) && AllZero(tmpVar0) && |e.vars| <= t < |e.trail|
    ensures |tmpVar| == |e.vars| && AllZero(tmpVar)
    ensures ExplainsEntry(e, t, reason, processed)
  {
    var lits, added := AppendLiteralsReason(e.trail, t, e.litStarts, e.litBuffer, {}, []);
    assert ReasonHeld(|e.vars|, e.trail, t, e.boundsStarts, e.boundsBuffer);
    var deps := Dependencies(e.vars, e.trail, e.boundsStarts, e.boundsBuffer, t);
    assert [] + FreshLiterals(LiteralReason(e.trail, t, e.litStarts, e.litBuffer), {}) ==
      FreshLiterals(LiteralReason(e.trail, t, e.litStarts, e.litBuffer), {});
    assert LiteralVariables(lits) == added by {
      FreshLiteralsAreNew(LiteralReason(e.trail, t, e.litStarts, e.litBuffer), {});
    }
    reason, tmpVar, processed := MergeReasonIntoInternal(e, tmpVar0, deps, lits);
    IntegerReasonHeld(|e.vars|, e.trail, t, e.boundsStarts, e.boundsBuffer);
    forall k | 0 <= k < |deps|
      ensures var l := Latest(e.trail, processed, e.trail[deps[k]].variable);
        deps[k] <= l < |e.trail| && e.trail[l].bound >= e.trail[deps[k]].bound
    {
      assert (deps + DependenciesAlong(e, processed))[k] == deps[k];
      ImpliedBound(e, processed, deps[k]);
    }
  }

  /** Processes the queue until it is empty, the latest entry first. */
  method Drain(e: TrailView, ghost queue0: seq<int>, ghost output0: seq<Literal>, ghost added0: set<nat>,
               s: Scratch, ghost processed: seq<int>)
    returns (s': Scratch, ghost processed': seq<int>)
    requires ViewOk(e) && MergeInv(e, queue0, output0, added0, s, processed)
    ensures MergeInv(e, queue0, output0, added0, s', processed') && s'.queue == []
  {
    s', processed' := s, processed;
    while s'.queue != []
      invariant MergeInv(e, queue0, output0, added0, s', processed')
      decreases Top(s'.queue) + 1, multiset(s'.queue)[Top(s'.queue)]
    {
      var q := s'.queue;
      var t, rest := PopMax(q);
      assert Queued(e, t);
      var v := e.trail[t].variable;
      if s'.tmpVar[v] != t {
        s' := s'.(queue := rest);
        StaleKeeps(e, queue0, output0, added0, s', processed', q, t);
        MeasureDrops(q, rest, t, rest);
      } else {
        s', processed' := Process(e, queue0, output0, added0, s'.(queue := rest), processed', q, t);
        MeasureDrops(q, rest, t, s'.queue);
      }
    }
  }

  /** Resets the settled variables to 0. */
  method ClearSettled(tmpVar: seq<int>, toClear: seq<int>) returns (r: seq<int>)
    requires forall k :: 0 <= k < |toClear| ==> 0 <= toClear[k] < |tmpVar|
    requires forall v :: 0 <= v < |tmpVar| ==> tmpVar[v] == 0 || v in toClear
    ensures |r| == |tmpVar| && AllZero(r)
  {
    r := tmpVar;
    var i := 0;
    while i < |toClear|
      invariant 0 <= i <= |toClear| && |r| == |tmpVar|
      invariant forall v :: 0 <= v < |r| ==> r[v] == 0 || v in toClear[i..]
    {
      r := r[toClear[i] := 0];
      i := i + 1;
    }
  }

  /**
   * `out` is `output` followed by what expanding the entries of
   * `processed` appends to it; for every one of `literals` not true at
   * level zero, an expanded entry of its variable implies it.
   */
  ghost predicate ExplainsLiterals(e: TrailView, literals: seq<IntegerLiteral>, output: seq<Literal>, out: seq<Literal>, processed: seq<int>)
    requires ViewOk(e)
  {
    AllQueued(e, processed) && Decreasing(processed) &&
    out == MergedOutput(e, output, LiteralVariables(output), processed) &&
    forall k :: 0 <= k < |literals| && literals[k].variable < |e.vars| && literals[k].bound > e.trail[literals[k].variable].bound ==>
      var l := Latest(e.trail, processed, literals[k].variable);
      |e.vars| <= l < |e.trail| && e.trail[l].bound >= literals[k].bound
  }
}
