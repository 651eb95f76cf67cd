/**
 * The generic literal watcher: the scheduler that calls the integer
 * propagators. A propagator is woken when a literal it watches is pushed on
 * the Boolean trail or when the lower bound of an integer variable it
 * watches is raised; woken propagators wait in one FIFO queue per priority
 * and are called lowest priority first until every queue is empty.
 *
 * The propagators themselves are not modelled: each call is described by a
 * `PropagatorCall` value saying what the call did, and `Propagate` consumes
 * such values in order.
 */
module Watcher {
  import opened Sat
  import opened WatcherQueues

  /**
   * What one call of a propagator did, as the watcher observes it: whether
   * it succeeded, the literals it pushed on the Boolean trail, the integer
   * variables it marked as modified (in the order the integer trail marked
   * them) and how many bounds it enqueued on the integer trail.
   */
  datatype PropagatorCall = PropagatorCall(result: bool, literals: seq<Literal>, raised: seq<nat>, enqueues: nat)

  /** The integer trail marks a variable as modified only when it enqueues a bound. */
  predicate Consistent(c: PropagatorCall)
  {
    c.raised != [] ==> c.enqueues > 0
  }

  /** The literals a sequence of calls pushed, call after call. */
  function PushedLiterals(calls: seq<PropagatorCall>): seq<Literal>
  {
    if calls == [] then [] else PushedLiterals(calls[..|calls| - 1]) + calls[|calls| - 1].literals
  }

  /** Marks the variables in a sparse bit set that lists its members in the order they were first set. */
  function MarkAll(marked: seq<nat>, vars: seq<nat>): seq<nat>
  {
    if vars == [] then marked
    else
      var m := MarkAll(marked, vars[..|vars| - 1]);
      if vars[|vars| - 1] in m then m else m + [vars[|vars| - 1]]
  }

  /** The first `used` calls all succeeded and pushed, together, what `trail` became. */
  predicate Succeeded(trail: seq<Literal>, calls: seq<PropagatorCall>, used: nat, newTrail: seq<Literal>)
  {
    used <= |calls| && newTrail == trail + PushedLiterals(calls[..used]) &&
    forall j :: 0 <= j < used ==> calls[j].result
  }

  /**
   * How a propagation round that stopped early ended after `used` calls:
   * every call before the last succeeded, the round failed exactly when the
   * last call failed, and a successful early stop comes from a pushed literal
   * or from running out of calls.
   */
  predicate Stopped(calls: seq<PropagatorCall>, used: nat, ok: bool)
  {
    used <= |calls| &&
    (forall j :: 0 <= j < used - 1 ==> calls[j].result) &&
    (!ok <==> used > 0 && !calls[used - 1].result) &&
    (ok ==> used == |calls| || (used > 0 && calls[used - 1].literals != []))
  }

  lemma SucceededStep(trail: seq<Literal>, calls: seq<PropagatorCall>, used: nat, newTrail: seq<Literal>)
    requires Succeeded(trail, calls, used, newTrail) && used < |calls|
    ensures newTrail + calls[used].literals == trail + PushedLiterals(calls[..used + 1])
    ensures calls[used].result ==> Succeeded(trail, calls, used + 1, newTrail + calls[used].literals)
  {
    assert calls[..used + 1][..used] == calls[..used];
  }

  predicate AllEmpty(q: seq<seq<nat>>)
  {
    forall p :: 0 <= p < |q| ==> q[p] == []
  }

  /** The queues of priority below `k` are empty. */
  predicate EmptyBelow(q: seq<seq<nat>>, k: int)
  {
    forall p :: 0 <= p < k && p < |q| ==> q[p] == []
  }

  lemma EmptyBelowKept(q: seq<seq<nat>>, k: nat, s: seq<nat>)
    requires EmptyBelow(q, k) && k < |q|
    ensures EmptyBelow(q[k := s], k)
  {
  }

  lemma EmptyBelowNext(q: seq<seq<nat>>, k: nat)
    requires EmptyBelow(q, k) && k < |q| && q[k] == []
    ensures EmptyBelow(q, k + 1)
  {
  }

  /** The running propagator `id` is done: its flag is cleared and its watch indices dropped. */
  function Done(s: Schedule, id: nat): (r: Schedule)
    requires id < |s.inQueue| && id < |s.watchIndices|
    ensures r.queues == s.queues && |r.inQueue| == |s.inQueue| && |r.watchIndices| == |s.watchIndices|
  {
    s.(inQueue := s.inQueue[id := false], watchIndices := s.watchIndices[id := []])
  }

  /** Each level is lowered to `level` when above it. */
  function CapAt(levels: seq<int>, level: int): (r: seq<int>)
    ensures |r| == |levels|
    ensures forall i :: 0 <= i < |r| ==> r[i] <= levels[i] && r[i] <= level && (r[i] == levels[i] || r[i] == level)
  {
    seq(|levels|, i requires 0 <= i < |levels| => if levels[i] < level then levels[i] else level)
  }

  /**
   * One call of a propagation round as the scheduler made it: the schedule
   * (queues, flags and watch indices) just before the call, the priority of
   * the queue it was taken from, the propagator called, whether an earlier
   * call of the same pass over that queue had enqueued a bound (a restart
   * from priority 0 is pending), and the schedule the call left.
   */
  datatype CallTrace = CallTrace(state: Schedule, priority: nat, id: nat, pending: bool, after: Schedule)

  /**
   * The calls of a round follow the schedule: each called propagator is the
   * front of the queue of its priority, and that queue is the lowest
   * non-empty one unless a restart is pending, which only a bound enqueued
   * by an earlier call at the same priority makes.
   */
  predicate Scheduled(calls: seq<PropagatorCall>, traces: seq<CallTrace>)
  {
    |traces| <= |calls| &&
    forall j :: 0 <= j < |traces| ==> ScheduledAt(calls, traces, j)
  }

  predicate ScheduledAt(calls: seq<PropagatorCall>, traces: seq<CallTrace>, j: nat)
    requires j < |traces| <= |calls|
  {
    var t := traces[j];
    var q := t.state.queues;
    t.priority < |q| && q[t.priority] != [] && t.id == q[t.priority][0] &&
    (!t.pending ==> EmptyBelow(q, t.priority)) &&
    (t.pending ==> j > 0 && traces[j - 1].priority == t.priority && (calls[j - 1].enqueues > 0 || traces[j - 1].pending))
  }

  /**
   * What a wake-up reads besides the schedule: the priority and idempotence
   * of each propagator, and the watch tables of literals and of variables.
   */
  datatype Wiring = Wiring(priority: seq<nat>, idempotent: seq<bool>, literalTable: seq<seq<WatchEntry>>, varTable: seq<seq<WatchEntry>>)

  /** The tables of a wiring fit its propagators. */
  ghost predicate WiringFits(w: Wiring)
  {
    |w.idempotent| == |w.priority| && TableFits(w.literalTable, |w.priority|) && TableFits(w.varTable, |w.priority|)
  }

  /** The watch entries a call wakes: those of the literals it pushed, then those of the variables it modified. */
  ghost function CallEntries(w: Wiring, c: PropagatorCall): (r: seq<WatchEntry>)
    ensures WiringFits(w) ==> EntriesFit(r, |w.priority|)
  {
    var vars := MarkAll([], c.raised);
    if WiringFits(w) then
      LiteralEntriesFit(w.literalTable, c.literals, |w.priority|);
      VariableEntriesFit(w.varTable, vars, |w.priority|);
      LiteralEntries(w.literalTable, c.literals) + VariableEntries(w.varTable, vars)
    else
      LiteralEntries(w.literalTable, c.literals) + VariableEntries(w.varTable, vars)
  }

  /** The front of queue `p` of `s` can be called. */
  ghost predicate CanCall(w: Wiring, s: Schedule, p: nat)
  {
    WiringFits(w) && Fits(s, w.priority) && p < |s.queues| && s.queues[p] != [] && s.queues[p][0] < |w.priority|
  }

  /**
   * The schedule after the running propagator `id`, already off its queue,
   * made call `c`: a failed call only clears its flag and watch indices; a
   * successful one also wakes the call's entries, while the flag of `id` is
   * still set when it is idempotent (so its own changes do not queue it
   * again) and already cleared otherwise.
   */
  ghost function AfterRun(w: Wiring, s: Schedule, id: nat, c: PropagatorCall): Schedule
    requires WiringFits(w) && Fits(s, w.priority) && id < |w.priority|
  {
    if !c.result then Done(s, id)
    else if w.idempotent[id] then Done(WakeAll(s, w.priority, CallEntries(w, c)), id)
    else WakeAll(Done(s, id), w.priority, CallEntries(w, c))
  }

  /** The schedule after the front propagator of queue `p` left it and made call `c`. */
  ghost function AfterCall(w: Wiring, s: Schedule, p: nat, c: PropagatorCall): Schedule
    requires CanCall(w, s, p)
  {
    AfterRun(w, s.(queues := s.queues[p := s.queues[p][1..]]), s.queues[p][0], c)
  }

  /** Call `j` of a round took the front of its queue and left the schedule its outcome gives. */
  ghost predicate StepAt(w: Wiring, calls: seq<PropagatorCall>, traces: seq<CallTrace>, j: nat)
    requires j < |traces| <= |calls|
  {
    var t := traces[j];
    CanCall(w, t.state, t.priority) && t.after == AfterCall(w, t.state, t.priority, calls[j])
  }

  /**
   * The schedules of a round, replayed from `s0`, the schedule after the
   * first wake-up: every call made its step, the first call saw `s0`, each
   * later call saw what the call before it left, and the round left `s`
   * (which is `s0` when no call was made).
   */
  ghost predicate Replayed(w: Wiring, s0: Schedule, calls: seq<PropagatorCall>, traces: seq<CallTrace>, s: Schedule)
  {
    |traces| <= |calls| &&
    (forall j :: 0 <= j < |traces| ==> StepAt(w, calls, traces, j)) &&
    (if traces == [] then s == s0 else traces[0].state == s0 && s == traces[|traces| - 1].after) &&
    (forall j :: 0 <= j < |traces| - 1 ==> traces[j + 1].state == traces[j].after)
  }

  /**
   * The replay, call by call: the first call sees `s0`, each later call
   * sees the schedule its predecessor's outcome gives, and the round leaves
   * the schedule the last call's outcome gives.
   */
  lemma ReplayedCalls(w: Wiring, s0: Schedule, calls: seq<PropagatorCall>, traces: seq<CallTrace>, s: Schedule)
    requires Replayed(w, s0, calls, traces, s)
    ensures forall j :: 0 <= j < |traces| ==> CanCall(w, traces[j].state, traces[j].priority)
    ensures traces == [] ==> s == s0
    ensures traces != [] ==> traces[0].state == s0
    ensures traces != [] ==> s == AfterCall(w, traces[|traces| - 1].state, traces[|traces| - 1].priority, calls[|traces| - 1])
    ensures forall j :: 0 <= j < |traces| - 1 ==> traces[j + 1].state == AfterCall(w, traces[j].state, traces[j].priority, calls[j])
  {
    forall j | 0 <= j < |traces|
      ensures CanCall(w, traces[j].state, traces[j].priority)
      ensures traces[j].after == AfterCall(w, traces[j].state, traces[j].priority, calls[j])
    {
      assert StepAt(w, calls, traces, j);
    }
  }

  /**
   * A call to the front of the lowest non-empty queue of the current
   * schedule, or of the same queue after a call that enqueued a bound,
   * extends both the schedule and the replay of the round.
   */
  lemma ScheduledStep(w: Wiring, s0: Schedule, calls: seq<PropagatorCall>, traces: seq<CallTrace>, t: CallTrace)
    requires Scheduled(calls, traces) && Replayed(w, s0, calls, traces, t.state) && |traces| < |calls|
    requires CanCall(w, t.state, t.priority) && t.id == t.state.queues[t.priority][0]
    requires !t.pending ==> EmptyBelow(t.state.queues, t.priority)
    requires t.pending ==>
      (|traces| > 0 && traces[|traces| - 1].priority == t.priority &&
       (calls[|traces| - 1].enqueues > 0 || traces[|traces| - 1].pending))
    requires t.after == AfterCall(w, t.state, t.priority, calls[|traces|])
    ensures Scheduled(calls, traces + [t]) && Replayed(w, s0, calls, traces + [t], t.after)
  {
    var ts := traces + [t];
    assert ScheduledAt(calls, ts, |traces|);
    assert StepAt(w, calls, ts, |traces|);
    forall j | 0 <= j < |traces|
      ensures ScheduledAt(calls, ts, j) && StepAt(w, calls, ts, j)
    {
      assert ScheduledAt(calls, traces, j) && StepAt(w, calls, traces, j);
      assert ts[j] == traces[j];
      if j > 0 {
        assert ts[j - 1] == traces[j - 1];
      }
    }
    forall j | 0 <= j < |ts| - 1
      ensures ts[j + 1].state == ts[j].after
    {
      if j + 1 < |traces| {
        assert ts[j + 1] == traces[j + 1] && ts[j] == traces[j];
      }
    }
  }

  class GenericLiteralWatcher {
    var numWatchers: nat
    var queueByPriority: seq<seq<nat>>
    var inQueue: seq<bool>
    var idToPriority: seq<nat>
    var idToIdempotence: seq<bool>
    var idToWatchIndices: seq<seq<int>>
    var idToLevelAtLastCall: seq<int>
    var idToGreatestCommonLevelSinceLastCall: seq<int>
    var literalToWatcher: seq<seq<WatchEntry>>
    var varToWatcher: seq<seq<WatchEntry>>
    var propagationTrailIndex: nat
    var modifiedVars: seq<nat>

    ghost function Queues(): Schedule
      reads this`queueByPriority, this`inQueue, this`idToWatchIndices
    {
      Schedule(queueByPriority, inQueue, idToWatchIndices)
    }

    /**
     * One slot per registered propagator in every per-propagator table, at
     * least the two queues the default priority needs, priorities naming
     * existing queues, watch entries naming registered propagators, and the
     * greatest common level since the last call never above the level of
     * that call.
     */
    ghost predicate Shaped()
      reads this
    {
      |inQueue| == |idToPriority| == |idToIdempotence| == |idToWatchIndices| == numWatchers &&
      |idToLevelAtLastCall| == |idToGreatestCommonLevelSinceLastCall| == numWatchers &&
      |queueByPriority| >= 2 &&
      Fits(Queues(), idToPriority) && WatchedQueued(Queues()) &&
      TableFits(literalToWatcher, numWatchers) && TableFits(varToWatcher, numWatchers) &&
      forall id :: 0 <= id < numWatchers ==> idToGreatestCommonLevelSinceLastCall[id] <= idToLevelAtLastCall[id]
    }

    /** Between calls: each propagator is queued exactly once when its flag is set and not at all otherwise. */
    ghost predicate Valid()
      reads this
    {
      Shaped() && QueuedExactly(queueByPriority, inQueue, -1)
    }

    /** The watch entries the next wake-up round processes: those of the new literals, then those of the modified variables. */
    ghost function PendingEntries(trail: seq<Literal>): (r: seq<WatchEntry>)
      reads this`propagationTrailIndex, this`modifiedVars, this`literalToWatcher, this`varToWatcher, this`numWatchers
      ensures TableFits(literalToWatcher, numWatchers) && TableFits(varToWatcher, numWatchers) ==> EntriesFit(r, numWatchers)
    {
      var pushed := if propagationTrailIndex < |trail| then trail[propagationTrailIndex..] else [];
      if TableFits(literalToWatcher, numWatchers) && TableFits(varToWatcher, numWatchers) then
        LiteralEntriesFit(literalToWatcher, pushed, numWatchers);
        VariableEntriesFit(varToWatcher, modifiedVars, numWatchers);
        LiteralEntries(literalToWatcher, pushed) + VariableEntries(varToWatcher, modifiedVars)
      else
        LiteralEntries(literalToWatcher, pushed) + VariableEntries(varToWatcher, modifiedVars)
    }

    /** What a wake-up reads besides the schedule. */
    ghost function Wires(): Wiring
      reads this`idToPriority, this`idToIdempotence, this`literalToWatcher, this`varToWatcher
    {
      Wiring(idToPriority, idToIdempotence, literalToWatcher, varToWatcher)
    }

    /** A watcher with no propagator and the two queues of the default priority. */
    constructor ()
      ensures Valid() && numWatchers == 0 && queueByPriority == [[], []]
      ensures literalToWatcher == [] && varToWatcher == [] && propagationTrailIndex == 0 && modifiedVars == []
    {
      numWatchers := 0;
      queueByPriority := [[], []];
      inQueue := [];
      idToPriority := [];
      idToIdempotence := [];
      idToWatchIndices := [];
      idToLevelAtLastCall := [];
      idToGreatestCommonLevelSinceLastCall := [];
      literalToWatcher := [];
      varToWatcher := [];
      propagationTrailIndex := 0;
      modifiedVars := [];
      new;
    }

    /**
     * Registers a propagator: it gets the next id, the default priority 1,
     * is assumed idempotent and is queued once at priority 1 so that the
     * next round calls it.
     */
    method Register() returns (id: nat)
      requires Valid()
      modifies this
      ensures Valid()
      ensures id == old(numWatchers) && numWatchers == id + 1
      ensures inQueue == old(inQueue) + [true] && Queued(queueByPriority, id) == 1
      ensures queueByPriority == old(queueByPriority)[1 := old(queueByPriority[1]) + [id]]
      ensures idToPriority == old(idToPriority) + [1] && idToIdempotence == old(idToIdempotence) + [true]
      ensures idToWatchIndices == old(idToWatchIndices) + [[]]
      ensures idToLevelAtLastCall == old(idToLevelAtLastCall) + [0]
      ensures idToGreatestCommonLevelSinceLastCall == old(idToGreatestCommonLevelSinceLastCall) + [0]
      ensures literalToWatcher == old(literalToWatcher) && varToWatcher == old(varToWatcher)
      ensures propagationTrailIndex == old(propagationTrailIndex) && modifiedVars == old(modifiedVars)
    {
      id := numWatchers;
      var unflagged := inQueue + [false];
      QueuedBeyond(queueByPriority, id);
      assert QueuedExactly(queueByPriority, unflagged, -1);
      PushKeeps(queueByPriority, unflagged, -1, 1, id);
      assert unflagged[id := true] == inQueue + [true];
      TableFitsGrow(literalToWatcher, numWatchers);
      TableFitsGrow(varToWatcher, numWatchers);
      AddSlot();
      inQueue := inQueue + [true];
      queueByPriority := queueByPriority[1 := queueByPriority[1] + [id]];
    }

    /** Gives a new propagator its default slot in the per-propagator tables. */
    method AddSlot()
      modifies this`numWatchers, this`idToLevelAtLastCall, this`idToGreatestCommonLevelSinceLastCall
      modifies this`idToWatchIndices, this`idToPriority, this`idToIdempotence
      ensures numWatchers == old(numWatchers) + 1
      ensures idToPriority == old(idToPriority) + [1] && idToIdempotence == old(idToIdempotence) + [true]
      ensures idToWatchIndices == old(idToWatchIndices) + [[]]
      ensures idToLevelAtLastCall == old(idToLevelAtLastCall) + [0]
      ensures idToGreatestCommonLevelSinceLastCall == old(idToGreatestCommonLevelSinceLastCall) + [0]
    {
      numWatchers := numWatchers + 1;
      idToLevelAtLastCall := idToLevelAtLastCall + [0];
      idToGreatestCommonLevelSinceLastCall := idToGreatestCommonLevelSinceLastCall + [0];
      idToWatchIndices := idToWatchIndices + [[]];
      idToPriority := idToPriority + [1];
      idToIdempotence := idToIdempotence + [true];
    }

    /**
     * Sets the priority of a propagator, adding empty queues when the
     * priority is beyond the last one. A propagator already queued stays in
     * the queue it is in.
     */
    method SetPropagatorPriority(id: nat, priority: nat)
      requires Valid() && id < numWatchers
      modifies this`idToPriority, this`queueByPriority
      ensures Valid()
      ensures idToPriority == old(idToPriority)[id := priority]
      ensures |queueByPriority| == if priority < old(|queueByPriority|) then old(|queueByPriority|) else priority + 1
      ensures queueByPriority[..old(|queueByPriority|)] == old(queueByPriority)
      ensures forall p :: old(|queueByPriority|) <= p < |queueByPriority| ==> queueByPriority[p] == []
    {
      idToPriority := idToPriority[id := priority];
      if priority >= |queueByPriority| {
        var extra := priority + 1 - |queueByPriority|;
        forall x {
          AppendEmptyQueues(queueByPriority, extra, x);
        }
        queueByPriority := queueByPriority + NoQueues(extra);
      }
    }

    /** Marks a propagator as possibly needing several calls to reach its fixed point. */
    method NotifyThatPropagatorMayNotReachFixedPointInOnePass(id: nat)
      requires Valid() && id < numWatchers
      modifies this`idToIdempotence
      ensures Valid() && idToIdempotence == old(idToIdempotence)[id := false]
    {
      idToIdempotence := idToIdempotence[id := false];
    }

    /** Wakes a propagator whenever `l` is pushed on the trail, telling it `watchIndex` when non-negative. */
    method WatchLiteral(l: Literal, id: nat, watchIndex: int)
      requires Valid() && id < numWatchers
      modifies this`literalToWatcher
      ensures Valid()
      ensures |literalToWatcher| >= LiteralIndex(l) + 1
      ensures literalToWatcher[LiteralIndex(l)] == old(if LiteralIndex(l) < |literalToWatcher| then literalToWatcher[LiteralIndex(l)] else []) + [WatchEntry(id, watchIndex)]
      ensures forall i :: 0 <= i < |literalToWatcher| && i != LiteralIndex(l) ==>
        literalToWatcher[i] == if i < old(|literalToWatcher|) then old(literalToWatcher[i]) else []
    {
      literalToWatcher := AddWatch(literalToWatcher, LiteralIndex(l), WatchEntry(id, watchIndex));
    }

    /** Wakes a propagator whenever the lower bound of `v` is raised, telling it `watchIndex` when non-negative. */
    method WatchLowerBound(v: nat, id: nat, watchIndex: int)
      requires Valid() && id < numWatchers
      modifies this`varToWatcher
      ensures Valid()
      ensures |varToWatcher| >= v + 1
      ensures varToWatcher[v] == old(if v < |varToWatcher| then varToWatcher[v] else []) + [WatchEntry(id, watchIndex)]
      ensures forall i :: 0 <= i < |varToWatcher| && i != v ==>
        varToWatcher[i] == if i < old(|varToWatcher|) then old(varToWatcher[i]) else []
    {
      varToWatcher := AddWatch(varToWatcher, v, WatchEntry(id, watchIndex));
    }

    /**
     * Wakes the propagators that watch the literals pushed since the last
     * round and the variables modified since then, then forgets the modified
     * variables. `running` is the propagator being called, if any (negative
     * otherwise); its flag is still set, so it is not queued again.
     */
    method UpdateCallingNeeds(trail: seq<Literal>, ghost running: int)
      requires Shaped() && QueuedExactly(queueByPriority, inQueue, running)
      modifies this`queueByPriority, this`inQueue, this`idToWatchIndices, this`propagationTrailIndex, this`modifiedVars
      ensures Shaped() && QueuedExactly(queueByPriority, inQueue, running)
      ensures Queues() == WakeAll(old(Queues()), idToPriority, old(PendingEntries(trail)))
      ensures propagationTrailIndex == if old(propagationTrailIndex) < |trail| then |trail| else old(propagationTrailIndex)
      ensures modifiedVars == []
    {
      ghost var s0 := Queues();
      var pushed := if propagationTrailIndex < |trail| then trail[propagationTrailIndex..] else [];
      ghost var lits := LiteralEntries(literalToWatcher, pushed);
      WakeForLiterals(pushed);
      propagationTrailIndex := propagationTrailIndex + |pushed|;
      ghost var vars := VariableEntries(varToWatcher, modifiedVars);
      WakeForVariables();
      WakeAllAppend(s0, idToPriority, lits, vars);
      WakeAllKeeps(s0, idToPriority, lits + vars, running);
      modifiedVars := [];
    }

    /** Wakes the propagators watching the literals pushed since the last round, literal after literal. */
    method WakeForLiterals(literals: seq<Literal>)
      requires Fits(Queues(), idToPriority) && TableFits(literalToWatcher, |idToPriority|)
      modifies this`queueByPriority, this`inQueue, this`idToWatchIndices
      ensures EntriesFit(LiteralEntries(literalToWatcher, literals), |idToPriority|)
      ensures Queues() == WakeAll(old(Queues()), idToPriority, LiteralEntries(literalToWatcher, literals))
    {
      LiteralEntriesFit(literalToWatcher, literals, |idToPriority|);
      ghost var s0 := Queues();
      var table := literalToWatcher;
      var k := 0;
      while k < |literals|
        invariant k <= |literals|
        invariant Fits(Queues(), idToPriority)
        invariant EntriesFit(LiteralEntries(table, literals[..k]), |idToPriority|)
        invariant Queues() == WakeAll(s0, idToPriority, LiteralEntries(table, literals[..k]))
      {
        var l := literals[k];
        var slot := LiteralSlot(table, l);
        WakeLiteralStep(s0, idToPriority, table, literals, k);
        WakeEntries(slot);
        k := k + 1;
      }
      assert literals[..k] == literals;
    }

    /** Wakes the propagators watching the variables modified since the last round, variable after variable. */
    method WakeForVariables()
      requires Fits(Queues(), idToPriority) && TableFits(varToWatcher, |idToPriority|)
      modifies this`queueByPriority, this`inQueue, this`idToWatchIndices
      ensures EntriesFit(VariableEntries(varToWatcher, modifiedVars), |idToPriority|)
      ensures Queues() == WakeAll(old(Queues()), idToPriority, VariableEntries(varToWatcher, modifiedVars))
    {
      VariableEntriesFit(varToWatcher, modifiedVars, |idToPriority|);
      ghost var s0 := Queues();
      var table, vars := varToWatcher, modifiedVars;
      var k := 0;
      while k < |vars|
        invariant k <= |vars|
        invariant Fits(Queues(), idToPriority)
        invariant EntriesFit(VariableEntries(table, vars[..k]), |idToPriority|)
        invariant Queues() == WakeAll(s0, idToPriority, VariableEntries(table, vars[..k]))
      {
        var v := vars[k];
        var slot := if v < |table| then table[v] else [];
        WakeVariableStep(s0, idToPriority, table, vars, k);
        WakeEntries(slot);
        k := k + 1;
      }
      assert vars[..k] == vars;
    }

    /**
     * Backtracks the watcher to Boolean trail index `trailIndex`, reached at
     * decision level `level`. When the watcher has not propagated beyond that
     * index (a conflict came before its round) nothing changes. Otherwise
     * every queue is emptied, the watch indices of the propagators in them are
     * dropped, every flag is cleared, the modified variables are forgotten and
     * every greatest common level is capped at `level`.
     */
    method Untrail(trailIndex: nat, level: int)
      requires Valid() && trailIndex <= propagationTrailIndex
      modifies this`queueByPriority, this`inQueue, this`idToWatchIndices, this`propagationTrailIndex
      modifies this`modifiedVars, this`idToGreatestCommonLevelSinceLastCall
      ensures Valid()
      ensures old(propagationTrailIndex) == trailIndex ==> unchanged(this)
      ensures old(propagationTrailIndex) > trailIndex ==>
        |queueByPriority| == old(|queueByPriority|) && AllEmpty(queueByPriority) &&
        inQueue == seq(numWatchers, _ => false) &&
        (forall id :: 0 <= id < numWatchers ==> idToWatchIndices[id] == []) &&
        propagationTrailIndex == trailIndex && modifiedVars == [] &&
        idToGreatestCommonLevelSinceLastCall == CapAt(old(idToGreatestCommonLevelSinceLastCall), level)
    {
      if propagationTrailIndex <= trailIndex {
        return;
      }
      ClearQueues();
      propagationTrailIndex := trailIndex;
      modifiedVars := [];
      inQueue := seq(numWatchers, _ => false);
      idToGreatestCommonLevelSinceLastCall := CapAt(idToGreatestCommonLevelSinceLastCall, level);
      forall x {
        AllEmptyQueued(queueByPriority, x);
      }
    }

    /** Empties every queue, dropping the watch indices of the propagators in them. */
    method ClearQueues()
      requires Valid()
      modifies this`queueByPriority, this`idToWatchIndices
      ensures |queueByPriority| == old(|queueByPriority|) && AllEmpty(queueByPriority)
      ensures |idToWatchIndices| == old(|idToWatchIndices|)
      ensures forall id :: 0 <= id < |idToWatchIndices| ==> idToWatchIndices[id] == []
    {
      var p := 0;
      while p < |queueByPriority|
        invariant p <= |queueByPriority| == old(|queueByPriority|)
        invariant |idToWatchIndices| == numWatchers
        invariant EmptyBelow(queueByPriority, p)
        invariant forall x, i :: 0 <= x < |queueByPriority| && 0 <= i < |queueByPriority[x]| ==> queueByPriority[x][i] < numWatchers
        invariant forall id :: 0 <= id < numWatchers && idToWatchIndices[id] != [] ==> Queued(queueByPriority, id) > 0
      {
        var queue := queueByPriority[p];
        ghost var queues := queueByPriority;
        var j := 0;
        while j < |queue|
          invariant j <= |queue| && |idToWatchIndices| == numWatchers && queueByPriority == queues
          invariant forall id :: 0 <= id < numWatchers && idToWatchIndices[id] != [] ==>
            Queued(queueByPriority, id) > 0 && id !in queue[..j]
        {
          assert queue[..j + 1] == queue[..j] + [queue[j]];
          idToWatchIndices := idToWatchIndices[queue[j] := []];
          j := j + 1;
        }
        assert queue[..j] == queue;
        forall id | 0 <= id < numWatchers && idToWatchIndices[id] != []
          ensures Queued(queueByPriority[p := []], id) > 0
        {
          ReplaceQueue(queueByPriority, p, [], id);
          OccAbsent(queue, id);
        }
        queueByPriority := queueByPriority[p := []];
        p := p + 1;
      }
      forall id | 0 <= id < numWatchers
        ensures idToWatchIndices[id] == []
      {
        AllEmptyQueued(queueByPriority, id);
      }
    }

    /**
     * One round of propagation at decision level `level`: wakes the
     * propagators that need it, then repeatedly calls the front propagator of
     * the lowest non-empty queue, the i-th call behaving as `calls[i]`. A
     * failing call stops the round with `false`; a call that pushed a literal
     * stops it with `true` so the Boolean propagators run first; a call that
     * enqueued a bound restarts from priority 0 once the current queue is
     * drained. Otherwise the round ends with every queue empty. `used` is the
     * number of calls made; when `calls` runs out the round stops there.
     */
    method Propagate(trail: seq<Literal>, level: int, calls: seq<PropagatorCall>)
      returns (ok: bool, newTrail: seq<Literal>, used: nat, ghost traces: seq<CallTrace>)
      requires Valid() && propagationTrailIndex <= |trail|
      requires forall j :: 0 <= j < |calls| ==> Consistent(calls[j])
      modifies this`queueByPriority, this`inQueue, this`idToWatchIndices, this`propagationTrailIndex, this`modifiedVars
      modifies this`idToLevelAtLastCall, this`idToGreatestCommonLevelSinceLastCall
      ensures Valid() && |queueByPriority| == old(|queueByPriority|)
      ensures used <= |calls| && newTrail == trail + PushedLiterals(calls[..used])
      ensures forall j :: 0 <= j < used - 1 ==> calls[j].result
      ensures !ok <==> used > 0 && !calls[used - 1].result
      ensures ok ==> propagationTrailIndex == |newTrail| && modifiedVars == []
      ensures ok ==> used == |calls| || (used > 0 && calls[used - 1].literals != []) || AllEmpty(queueByPriority)
      ensures |traces| == used && Scheduled(calls, traces)
      ensures Replayed(Wires(), WakeAll(old(Queues()), idToPriority, old(PendingEntries(trail))), calls, traces, Queues())
    {
      ghost var w := Wires();
      ghost var s0 := WakeAll(Queues(), idToPriority, PendingEntries(trail));
      UpdateCallingNeeds(trail, -1);
      newTrail, used, traces := trail, 0, [];
      var priority := 0;
      while priority < |queueByPriority|
        invariant Valid() && |queueByPriority| == old(|queueByPriority|)
        invariant 0 <= priority <= |queueByPriority|
        invariant Succeeded(trail, calls, used, newTrail)
        invariant propagationTrailIndex == |newTrail| && modifiedVars == []
        invariant EmptyBelow(queueByPriority, priority)
        invariant |traces| == used && Scheduled(calls, traces) && Replayed(w, s0, calls, traces, Queues())
        decreases |calls| - used, |queueByPriority| - priority
      {
        var stopped, restart;
        stopped, ok, newTrail, used, restart, traces := DrainQueue(priority, level, trail, calls, used, newTrail, w, s0, traces);
        if stopped {
          return;
        }
        priority := if restart then 0 else priority + 1;
      }
      ok := true;
    }

    /**
     * Calls the propagators of queue `p` until it is empty, as the inner loop
     * of a propagation round. `stopped` says the round must end now with
     * `ok`: a call failed, a call pushed a literal, or `calls` ran out.
     * Otherwise `restart` says some call enqueued a bound.
     */
    method DrainQueue(p: nat, level: int, trail: seq<Literal>, calls: seq<PropagatorCall>, used0: nat, trail0: seq<Literal>,
                      ghost w: Wiring, ghost s0: Schedule, ghost traces0: seq<CallTrace>)
      returns (stopped: bool, ok: bool, newTrail: seq<Literal>, used: nat, restart: bool, ghost traces: seq<CallTrace>)
      requires Valid() && p < |queueByPriority| && EmptyBelow(queueByPriority, p) && w == Wires()
      requires Succeeded(trail, calls, used0, trail0) && propagationTrailIndex == |trail0| && modifiedVars == []
      requires forall j :: 0 <= j < |calls| ==> Consistent(calls[j])
      requires |traces0| == used0 && Scheduled(calls, traces0) && Replayed(w, s0, calls, traces0, Queues())
      modifies this`queueByPriority, this`inQueue, this`idToWatchIndices, this`propagationTrailIndex, this`modifiedVars
      modifies this`idToLevelAtLastCall, this`idToGreatestCommonLevelSinceLastCall
      ensures Valid() && |queueByPriority| == old(|queueByPriority|)
      ensures |traces| == used && Scheduled(calls, traces) && Replayed(w, s0, calls, traces, Queues())
      ensures used0 <= used <= |calls| && newTrail == trail + PushedLiterals(calls[..used])
      ensures stopped ==> Stopped(calls, used, ok) && (ok ==> propagationTrailIndex == |newTrail| && modifiedVars == [])
      ensures !stopped ==> ok && Succeeded(trail, calls, used, newTrail) && propagationTrailIndex == |newTrail| && modifiedVars == []
      ensures !stopped && restart ==> used > used0
      ensures !stopped && !restart ==> EmptyBelow(queueByPriority, p + 1)
    {
      newTrail, used, restart, ok, traces := trail0, used0, false, true, traces0;
      while queueByPriority[p] != []
        invariant Valid() && |queueByPriority| == old(|queueByPriority|)
        invariant used0 <= used && Succeeded(trail, calls, used, newTrail)
        invariant |traces| == used && Scheduled(calls, traces) && Replayed(w, s0, calls, traces, Queues())
        invariant used > used0 ==> traces[used - 1].priority == p
        invariant restart ==> used > used0 && (calls[used - 1].enqueues > 0 || traces[used - 1].pending)
        invariant propagationTrailIndex == |newTrail| && modifiedVars == []
        invariant restart ==> used > used0
        invariant !restart ==> EmptyBelow(queueByPriority, p)
        decreases |calls| - used
      {
        if used == |calls| {
          return true, true, newTrail, used, restart, traces;
        }
        var call := calls[used];
        ghost var before := queueByPriority;
        ok, traces := CallNext(p, level, newTrail, calls, used, w, s0, traces, restart);
        SucceededStep(trail, calls, used, newTrail);
        newTrail, used := newTrail + call.literals, used + 1;
        if !ok {
          return true, false, newTrail, used, restart, traces;
        }
        assert Succeeded(trail, calls, used, newTrail);
        if call.literals != [] {
          return true, true, newTrail, used, restart, traces;
        }
        if call.enqueues > 0 {
          restart := true;
        } else if !restart {
          EmptyBelowKept(before, p, before[p][1..]);
        }
      }
      stopped := false;
      if !restart {
        EmptyBelowNext(queueByPriority, p);
      }
    }

    /**
     * Call number `used` of a round, made by the front propagator of queue
     * `p`: the trace of the round grows by that call, made with `pending`
     * telling whether a restart is pending.
     */
    method CallNext(p: nat, level: int, trail: seq<Literal>, calls: seq<PropagatorCall>, used: nat,
                    ghost w: Wiring, ghost s0: Schedule, ghost traces: seq<CallTrace>, ghost pending: bool)
      returns (ok: bool, ghost traces': seq<CallTrace>)
      requires Valid() && p < |queueByPriority| && queueByPriority[p] != [] && w == Wires()
      requires used < |calls| && propagationTrailIndex == |trail| && modifiedVars == [] && Consistent(calls[used])
      requires |traces| == used && Scheduled(calls, traces) && Replayed(w, s0, calls, traces, Queues())
      requires !pending ==> EmptyBelow(queueByPriority, p)
      requires pending ==> used > 0 && traces[used - 1].priority == p && (calls[used - 1].enqueues > 0 || traces[used - 1].pending)
      modifies this`queueByPriority, this`inQueue, this`idToWatchIndices, this`propagationTrailIndex, this`modifiedVars
      modifies this`idToLevelAtLastCall, this`idToGreatestCommonLevelSinceLastCall
      ensures Valid() && |queueByPriority| == old(|queueByPriority|)
      ensures ok == calls[used].result
      ensures ok ==> propagationTrailIndex == |trail| + |calls[used].literals| && modifiedVars == []
      ensures ok && calls[used].literals == [] && calls[used].enqueues == 0 ==>
        queueByPriority == old(queueByPriority)[p := old(queueByPriority[p])[1..]]
      ensures |traces'| == used + 1 && traces'[used].priority == p && traces'[used].pending == pending
      ensures Scheduled(calls, traces') && Replayed(w, s0, calls, traces', Queues())
    {
      ghost var state := Queues();
      ghost var id;
      ok, id := CallFront(p, level, calls[used], trail);
      ghost var t := CallTrace(state, p, id, pending, Queues());
      ScheduledStep(w, s0, calls, traces, t);
      traces' := traces + [t];
    }

    /**
     * Takes the front propagator off queue `p`, brings its reversible state
     * to `level`, makes the call `call` (whose pushed literals extend
     * `trail`) and updates the queues: an idempotent propagator is not
     * queued again by its own changes, the others may be.
     */
    method CallFront(p: nat, level: int, call: PropagatorCall, trail: seq<Literal>) returns (ok: bool, id: nat)
      requires Valid() && p < |queueByPriority| && queueByPriority[p] != []
      requires propagationTrailIndex == |trail| && modifiedVars == [] && Consistent(call)
      modifies this`queueByPriority, this`inQueue, this`idToWatchIndices, this`propagationTrailIndex, this`modifiedVars
      modifies this`idToLevelAtLastCall, this`idToGreatestCommonLevelSinceLastCall
      ensures Valid() && |queueByPriority| == old(|queueByPriority|)
      ensures ok == call.result && id == old(queueByPriority[p][0])
      ensures ok ==> propagationTrailIndex == |trail| + |call.literals| && modifiedVars == []
      ensures ok && call.literals == [] && call.enqueues == 0 ==>
        queueByPriority == old(queueByPriority)[p := old(queueByPriority[p])[1..]]
      ensures CanCall(Wires(), old(Queues()), p) && Queues() == AfterCall(Wires(), old(Queues()), p, call)
    {
      id := PopFront(p);
      SyncLevels(id, level);
      ok := RunCall(id, call, trail);
    }

    /**
     * Makes the call `call` of the running propagator `id` and updates the
     * queues after it.
     */
    method RunCall(id: nat, call: PropagatorCall, trail: seq<Literal>) returns (ok: bool)
      requires Shaped() && QueuedExactly(queueByPriority, inQueue, id)
      requires propagationTrailIndex == |trail| && modifiedVars == [] && Consistent(call)
      modifies this`queueByPriority, this`inQueue, this`idToWatchIndices, this`propagationTrailIndex, this`modifiedVars
      ensures Valid() && |queueByPriority| == old(|queueByPriority|)
      ensures ok == call.result
      ensures ok ==> propagationTrailIndex == |trail| + |call.literals| && modifiedVars == []
      ensures ok && call.literals == [] && call.enqueues == 0 ==> queueByPriority == old(queueByPriority)
      ensures WiringFits(Wires()) && id < |idToPriority| && Fits(old(Queues()), idToPriority)
      ensures Queues() == AfterRun(Wires(), old(Queues()), id, call)
    {
      var pushed := trail + call.literals;
      modifiedVars := MarkAll(modifiedVars, call.raised);
      if !call.result {
        Finish(id);
        return false;
      }
      assert pushed[propagationTrailIndex..] == call.literals;
      if idToIdempotence[id] {
        Requeue(pushed, call, id);
        Finish(id);
      } else {
        Finish(id);
        Requeue(pushed, call, -1);
      }
      ok := true;
    }

    /**
     * `UpdateCallingNeeds` right after call `c`, whose literals end the trail
     * and whose modified variables are the marked ones: it wakes exactly the
     * entries of the call.
     */
    method Requeue(trail: seq<Literal>, ghost c: PropagatorCall, ghost running: int)
      requires Shaped() && QueuedExactly(queueByPriority, inQueue, running)
      requires propagationTrailIndex + |c.literals| == |trail| && trail[propagationTrailIndex..] == c.literals
      requires modifiedVars == MarkAll([], c.raised)
      modifies this`queueByPriority, this`inQueue, this`idToWatchIndices, this`propagationTrailIndex, this`modifiedVars
      ensures Shaped() && QueuedExactly(queueByPriority, inQueue, running)
      ensures propagationTrailIndex == |trail| && modifiedVars == [] && |queueByPriority| == old(|queueByPriority|)
      ensures WiringFits(Wires()) && Queues() == WakeAll(old(Queues()), idToPriority, CallEntries(Wires(), c))
    {
      UpdateCallingNeeds(trail, running);
    }

    /** Takes the front propagator off queue `p`; it becomes the running one. */
    method PopFront(p: nat) returns (id: nat)
      requires Valid() && p < |queueByPriority| && queueByPriority[p] != []
      modifies this`queueByPriority
      ensures id == old(queueByPriority[p][0]) && queueByPriority == old(queueByPriority)[p := old(queueByPriority[p])[1..]]
      ensures Shaped() && QueuedExactly(queueByPriority, inQueue, id)
    {
      id := queueByPriority[p][0];
      PopKeeps(queueByPriority, inQueue, p);
      queueByPriority := queueByPriority[p := queueByPriority[p][1..]];
    }

    /** Ends the call of the running propagator: its watch indices are dropped and its flag cleared. */
    method Finish(id: nat)
      requires Shaped() && QueuedExactly(queueByPriority, inQueue, id)
      modifies this`idToWatchIndices, this`inQueue
      ensures Valid()
      ensures idToWatchIndices == old(idToWatchIndices)[id := []] && inQueue == old(inQueue)[id := false]
    {
      FinishKeeps(queueByPriority, inQueue, id);
      idToWatchIndices := idToWatchIndices[id := []];
      inQueue := inQueue[id := false];
    }

    /**
     * Brings the reversible state of a propagator up to date before it is
     * called at `level`: unless the level of its last call, the greatest
     * common level since then and `level` are all equal, both levels become
     * `level`.
     */
    method SyncLevels(id: nat, level: int)
      requires Shaped() && id < numWatchers
      modifies this`idToLevelAtLastCall, this`idToGreatestCommonLevelSinceLastCall
      ensures Shaped()
      ensures var low, high := old(idToGreatestCommonLevelSinceLastCall[id]), old(idToLevelAtLastCall[id]);
        if low == high == level || (low == high && level < low) then
          idToLevelAtLastCall == old(idToLevelAtLastCall) &&
          idToGreatestCommonLevelSinceLastCall == old(idToGreatestCommonLevelSinceLastCall)
        else
          idToLevelAtLastCall == old(idToLevelAtLastCall)[id := level] &&
          idToGreatestCommonLevelSinceLastCall == old(idToGreatestCommonLevelSinceLastCall)[id := level]
    {
      var low := idToGreatestCommonLevelSinceLastCall[id];
      var high := idToLevelAtLastCall[id];
      if low < high || level > low {
        idToLevelAtLastCall := idToLevelAtLastCall[id := level];
        idToGreatestCommonLevelSinceLastCall := idToGreatestCommonLevelSinceLastCall[id := level];
      }
    }

    /** Wakes the propagators of the entries, in order. */
    method WakeEntries(entries: seq<WatchEntry>)
      requires Fits(Queues(), idToPriority) && EntriesFit(entries, |idToPriority|)
      modifies this`queueByPriority, this`inQueue, this`idToWatchIndices
      ensures Queues() == WakeAll(old(Queues()), idToPriority, entries)
    {
      var j := 0;
      while j < |entries|
        invariant j <= |entries|
        invariant EntriesFit(entries[..j], |idToPriority|)
        invariant Queues() == WakeAll(old(Queues()), idToPriority, entries[..j])
      {
        var e := entries[j];
        if !inQueue[e.id] {
          inQueue := inQueue[e.id := true];
          queueByPriority := queueByPriority[idToPriority[e.id] := queueByPriority[idToPriority[e.id]] + [e.id]];
        }
        if e.watchIndex >= 0 {
          idToWatchIndices := idToWatchIndices[e.id := idToWatchIndices[e.id] + [e.watchIndex]];
        }
        assert entries[..j + 1][..j] == entries[..j];
        j := j + 1;
      }
      assert entries[..j] == entries;
    }
  }

  lemma TableFitsGrow(table: seq<seq<WatchEntry>>, n: nat)
    requires TableFits(table, n)
    ensures TableFits(table, n + 1)
  {
  }

  /** Appends an entry to slot `i` of a watch table, growing the table with empty slots when needed. */
  function AddWatch(table: seq<seq<WatchEntry>>, i: nat, e: WatchEntry): (r: seq<seq<WatchEntry>>)
    ensures |r| == if i < |table| then |table| else i + 1
    ensures r[i] == (if i < |table| then table[i] else []) + [e]
    ensures forall j :: 0 <= j < |r| && j != i ==> r[j] == if j < |table| then table[j] else []
  {
    var grown := if i < |table| then table else table + seq(i + 1 - |table|, _ => []);
    grown[i := grown[i] + [e]]
  }
}
