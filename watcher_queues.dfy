/**
 * The scheduling state of the generic literal watcher as a value: one FIFO
 * queue of propagator ids per priority, the `in_queue` flag of every
 * propagator and the watch indices collected for its next incremental call.
 * Waking a propagator is a function on this value; the watcher class applies
 * it entry by entry.
 */
module WatcherQueues {
  import opened Sat

  /** One watch: the propagator to wake and, when non-negative, the index it is told about. */
  datatype WatchEntry = WatchEntry(id: nat, watchIndex: int)

  datatype Schedule = Schedule(queues: seq<seq<nat>>, inQueue: seq<bool>, watchIndices: seq<seq<int>>)

  /** Position of a literal in per-literal tables: `2v` for `v`, `2v + 1` for its negation. */
  function LiteralIndex(l: Literal): (i: nat)
    ensures i / 2 == l.variable && (i % 2 == 0 <==> l.positive)
  {
    if l.positive then 2 * l.variable else 2 * l.variable + 1
  }

  /** The watch entries of literal `l` in `table`; none when the table has no slot for it. */
  function LiteralSlot(table: seq<seq<WatchEntry>>, l: Literal): seq<WatchEntry>
  {
    if LiteralIndex(l) < |table| then table[LiteralIndex(l)] else []
  }

  /** How many times `x` occurs in `s`. */
  function Occ(s: seq<nat>, x: nat): nat
  {
    if s == [] then 0 else Occ(s[..|s| - 1], x) + (if s[|s| - 1] == x then 1 else 0)
  }

  /** How many times `x` is queued, over all the queues. */
  function Queued(q: seq<seq<nat>>, x: nat): nat
  {
    if q == [] then 0 else Queued(q[..|q| - 1], x) + Occ(q[|q| - 1], x)
  }

  lemma {:induction false} OccAppend(s: seq<nat>, t: seq<nat>, x: nat)
    ensures Occ(s + t, x) == Occ(s, x) + Occ(t, x)
    decreases |t|
  {
    if t != [] {
      assert (s + t)[..|s + t| - 1] == s + t[..|t| - 1];
      OccAppend(s, t[..|t| - 1], x);
    } else {
      assert s + t == s;
    }
  }

  /** The occurrences of `x` in a queue are those at its front and those behind it. */
  lemma OccFront(s: seq<nat>, x: nat)
    requires s != []
    ensures Occ(s, x) == (if s[0] == x then 1 else 0) + Occ(s[1..], x)
  {
    OccAppend([s[0]], s[1..], x);
    assert [s[0]] + s[1..] == s;
    assert [s[0]][..0] == [];
  }

  lemma {:induction false} OccAbsent(s: seq<nat>, x: nat)
    requires x !in s
    ensures Occ(s, x) == 0
    decreases |s|
  {
    if s != [] {
      assert forall y :: y in s[..|s| - 1] ==> y in s;
      OccAbsent(s[..|s| - 1], x);
    }
  }

  lemma {:induction false} OccPresent(s: seq<nat>, i: nat, x: nat)
    requires i < |s| && s[i] == x
    ensures Occ(s, x) > 0
    decreases |s|
  {
    if i < |s| - 1 {
      OccPresent(s[..|s| - 1], i, x);
    }
  }

  /** Replacing one queue replaces its occurrences in the count over all queues. */
  lemma {:induction false} ReplaceQueue(q: seq<seq<nat>>, p: nat, s: seq<nat>, x: nat)
    requires p < |q|
    ensures Queued(q[p := s], x) + Occ(q[p], x) == Queued(q, x) + Occ(s, x)
    decreases |q|
  {
    var r := q[p := s];
    if p == |q| - 1 {
      assert r[..|r| - 1] == q[..|q| - 1];
    } else {
      assert r[..|r| - 1] == q[..|q| - 1][p := s];
      ReplaceQueue(q[..|q| - 1], p, s, x);
    }
  }

  /** An id beyond every queued one is not queued. */
  lemma {:induction false} QueuedBeyond(q: seq<seq<nat>>, n: nat)
    requires forall p, i :: 0 <= p < |q| && 0 <= i < |q[p]| ==> q[p][i] < n
    ensures Queued(q, n) == 0
    decreases |q|
  {
    if q != [] {
      var last := q[|q| - 1];
      assert forall i :: 0 <= i < |last| ==> last[i] < n;
      OccAbsent(last, n);
      QueuedBeyond(q[..|q| - 1], n);
    }
  }

  /** `n` empty queues. */
  function NoQueues(n: nat): (q: seq<seq<nat>>)
    ensures |q| == n && forall p :: 0 <= p < n ==> q[p] == []
  {
    seq(n, _ => [])
  }

  /** Appending empty queues leaves the counts alone. */
  lemma {:induction false} AppendEmptyQueues(q: seq<seq<nat>>, extra: nat, x: nat)
    ensures Queued(q + NoQueues(extra), x) == Queued(q, x)
    decreases extra
  {
    if extra > 0 {
      var r := q + NoQueues(extra);
      assert r[..|r| - 1] == q + NoQueues(extra - 1);
      AppendEmptyQueues(q, extra - 1, x);
    } else {
      assert q + NoQueues(extra) == q;
    }
  }

  /** Queues that are all empty hold nothing. */
  lemma {:induction false} AllEmptyQueued(q: seq<seq<nat>>, x: nat)
    requires forall p :: 0 <= p < |q| ==> q[p] == []
    ensures Queued(q, x) == 0
    decreases |q|
  {
    if q != [] {
      AllEmptyQueued(q[..|q| - 1], x);
    }
  }

  /**
   * Every queued id names a registered propagator, and each propagator sits
   * in the queues exactly once when its flag is set and not at all otherwise.
   * The exception is `running` (or none when negative): the propagator being
   * called has been taken off its queue and still has its flag set.
   */
  ghost predicate QueuedExactly(q: seq<seq<nat>>, inQueue: seq<bool>, running: int)
  {
    (forall p, i :: 0 <= p < |q| && 0 <= i < |q[p]| ==> q[p][i] < |inQueue|) &&
    (running >= 0 ==> running < |inQueue| && inQueue[running]) &&
    forall id :: 0 <= id < |inQueue| ==>
      Queued(q, id) == if inQueue[id] && id != running then 1 else 0
  }

  /** Watch indices are only collected for a propagator whose flag is set. */
  ghost predicate WatchedQueued(s: Schedule)
  {
    |s.watchIndices| == |s.inQueue| &&
    forall id :: 0 <= id < |s.inQueue| && s.watchIndices[id] != [] ==> s.inQueue[id]
  }

  /** The tables of a schedule agree in size and every priority names an existing queue. */
  ghost predicate Fits(s: Schedule, priority: seq<nat>)
  {
    |s.inQueue| == |s.watchIndices| == |priority| &&
    forall id :: 0 <= id < |priority| ==> priority[id] < |s.queues|
  }

  ghost predicate EntriesFit(entries: seq<WatchEntry>, n: nat)
  {
    forall e :: e in entries ==> e.id < n
  }

  /** Every entry of a watch table names one of the first `n` propagators. */
  ghost predicate TableFits(table: seq<seq<WatchEntry>>, n: nat)
  {
    forall i :: 0 <= i < |table| ==> EntriesFit(table[i], n)
  }

  /**
   * Wakes the propagator of one watch entry: if its flag is clear it is set
   * and the id joins the back of the queue of its priority; a non-negative
   * watch index is recorded in any case.
   */
  function Wake(s: Schedule, priority: seq<nat>, e: WatchEntry): (r: Schedule)
    requires Fits(s, priority) && e.id < |priority|
    ensures Fits(r, priority) && |r.queues| == |s.queues|
  {
    var p := priority[e.id];
    var s1 :=
      if s.inQueue[e.id] then s
      else s.(inQueue := s.inQueue[e.id := true], queues := s.queues[p := s.queues[p] + [e.id]]);
    if e.watchIndex >= 0 then s1.(watchIndices := s1.watchIndices[e.id := s1.watchIndices[e.id] + [e.watchIndex]])
    else s1
  }

  /** Wakes the entries in order. */
  function WakeAll(s: Schedule, priority: seq<nat>, entries: seq<WatchEntry>): (r: Schedule)
    requires Fits(s, priority) && EntriesFit(entries, |priority|)
    ensures Fits(r, priority) && |r.queues| == |s.queues|
    decreases |entries|
  {
    if entries == [] then s
    else Wake(WakeAll(s, priority, entries[..|entries| - 1]), priority, entries[|entries| - 1])
  }

  /** The ids the entries name. */
  function Ids(entries: seq<WatchEntry>): set<nat>
  {
    set e | e in entries :: e.id
  }

  /** The watch indices the entries record for `id`, in order. */
  function IndicesFor(entries: seq<WatchEntry>, id: nat): seq<int>
  {
    if entries == [] then []
    else
      var e := entries[|entries| - 1];
      IndicesFor(entries[..|entries| - 1], id) + (if e.id == id && e.watchIndex >= 0 then [e.watchIndex] else [])
  }

  /** The entries of the table slot of each literal, literal after literal; missing slots hold nothing. */
  function LiteralEntries(table: seq<seq<WatchEntry>>, literals: seq<Literal>): seq<WatchEntry>
  {
    if literals == [] then []
    else
      var l := literals[|literals| - 1];
      LiteralEntries(table, literals[..|literals| - 1]) + LiteralSlot(table, l)
  }

  /** The entries of the table slot of each variable, variable after variable; missing slots hold nothing. */
  function VariableEntries(table: seq<seq<WatchEntry>>, vars: seq<nat>): seq<WatchEntry>
  {
    if vars == [] then []
    else
      var v := vars[|vars| - 1];
      VariableEntries(table, vars[..|vars| - 1]) + (if v < |table| then table[v] else [])
  }

  lemma LiteralEntriesSnoc(table: seq<seq<WatchEntry>>, literals: seq<Literal>, l: Literal)
    ensures LiteralEntries(table, literals + [l]) ==
      LiteralEntries(table, literals) + LiteralSlot(table, l)
  {
    assert (literals + [l])[..|literals|] == literals;
  }

  lemma VariableEntriesSnoc(table: seq<seq<WatchEntry>>, vars: seq<nat>, v: nat)
    ensures VariableEntries(table, vars + [v]) == VariableEntries(table, vars) + (if v < |table| then table[v] else [])
  {
    assert (vars + [v])[..|vars|] == vars;
  }

  lemma {:induction false} LiteralEntriesFit(table: seq<seq<WatchEntry>>, literals: seq<Literal>, n: nat)
    requires TableFits(table, n)
    ensures EntriesFit(LiteralEntries(table, literals), n)
    decreases |literals|
  {
    if literals != [] {
      LiteralEntriesFit(table, literals[..|literals| - 1], n);
    }
  }

  lemma {:induction false} VariableEntriesFit(table: seq<seq<WatchEntry>>, vars: seq<nat>, n: nat)
    requires TableFits(table, n)
    ensures EntriesFit(VariableEntries(table, vars), n)
    decreases |vars|
  {
    if vars != [] {
      VariableEntriesFit(table, vars[..|vars| - 1], n);
    }
  }

  /** Waking for one more literal is waking the slot of that literal after the earlier ones. */
  lemma WakeLiteralStep(s0: Schedule, priority: seq<nat>, table: seq<seq<WatchEntry>>, literals: seq<Literal>, k: nat)
    requires Fits(s0, priority) && TableFits(table, |priority|) && k < |literals|
    ensures EntriesFit(LiteralEntries(table, literals[..k]), |priority|)
    ensures EntriesFit(LiteralEntries(table, literals[..k + 1]), |priority|)
    ensures var l := literals[k];
      var slot := LiteralSlot(table, l);
      EntriesFit(slot, |priority|) &&
      WakeAll(s0, priority, LiteralEntries(table, literals[..k + 1])) ==
      WakeAll(WakeAll(s0, priority, LiteralEntries(table, literals[..k])), priority, slot)
  {
    var l := literals[k];
    var slot := LiteralSlot(table, l);
    LiteralEntriesFit(table, literals[..k], |priority|);
    assert literals[..k + 1] == literals[..k] + [l];
    LiteralEntriesSnoc(table, literals[..k], l);
    WakeAllAppend(s0, priority, LiteralEntries(table, literals[..k]), slot);
  }

  /** Waking for one more variable is waking the slot of that variable after the earlier ones. */
  lemma WakeVariableStep(s0: Schedule, priority: seq<nat>, table: seq<seq<WatchEntry>>, vars: seq<nat>, k: nat)
    requires Fits(s0, priority) && TableFits(table, |priority|) && k < |vars|
    ensures EntriesFit(VariableEntries(table, vars[..k]), |priority|)
    ensures EntriesFit(VariableEntries(table, vars[..k + 1]), |priority|)
    ensures var v := vars[k];
      var slot := if v < |table| then table[v] else [];
      EntriesFit(slot, |priority|) &&
      WakeAll(s0, priority, VariableEntries(table, vars[..k + 1])) ==
      WakeAll(WakeAll(s0, priority, VariableEntries(table, vars[..k])), priority, slot)
  {
    var v := vars[k];
    var slot := if v < |table| then table[v] else [];
    VariableEntriesFit(table, vars[..k], |priority|);
    assert vars[..k + 1] == vars[..k] + [v];
    VariableEntriesSnoc(table, vars[..k], v);
    WakeAllAppend(s0, priority, VariableEntries(table, vars[..k]), slot);
  }

  /** Waking two lists of entries one after the other is waking their concatenation. */
  lemma {:induction false} WakeAllAppend(s: Schedule, priority: seq<nat>, a: seq<WatchEntry>, b: seq<WatchEntry>)
    requires Fits(s, priority) && EntriesFit(a, |priority|) && EntriesFit(b, |priority|)
    ensures EntriesFit(a + b, |priority|)
    ensures WakeAll(s, priority, a + b) == WakeAll(WakeAll(s, priority, a), priority, b)
    decreases |b|
  {
    if b == [] {
      assert a + b == a;
    } else {
      var ab := a + b;
      assert ab[..|ab| - 1] == a + b[..|b| - 1];
      assert ab[|ab| - 1] == b[|b| - 1];
      WakeAllAppend(s, priority, a, b[..|b| - 1]);
    }
  }

  /** Pushing a propagator whose flag is clear and setting its flag keeps the queue invariant. */
  lemma PushKeeps(q: seq<seq<nat>>, inQueue: seq<bool>, running: int, p: nat, id: nat)
    requires QueuedExactly(q, inQueue, running) && p < |q| && id < |inQueue| && !inQueue[id]
    ensures QueuedExactly(q[p := q[p] + [id]], inQueue[id := true], running)
  {
    var q' := q[p := q[p] + [id]];
    forall x | 0 <= x < |inQueue|
      ensures Queued(q', x) == Queued(q, x) + (if x == id then 1 else 0)
    {
      ReplaceQueue(q, p, q[p] + [id], x);
      OccAppend(q[p], [id], x);
      assert [id][..0] == [];
    }
  }

  /**
   * Taking the front propagator off a queue leaves it as the running one:
   * off every queue with its flag still set.
   */
  lemma PopKeeps(q: seq<seq<nat>>, inQueue: seq<bool>, p: nat)
    requires QueuedExactly(q, inQueue, -1) && p < |q| && q[p] != []
    ensures q[p][0] < |inQueue| && inQueue[q[p][0]]
    ensures QueuedExactly(q[p := q[p][1..]], inQueue, q[p][0])
  {
    var id := q[p][0];
    var q' := q[p := q[p][1..]];
    forall x | 0 <= x < |inQueue|
      ensures Queued(q', x) + (if x == id then 1 else 0) == Queued(q, x)
    {
      ReplaceQueue(q, p, q[p][1..], x);
      OccFront(q[p], x);
    }
    assert Queued(q, id) > 0;
  }

  /** Clearing the flag of the running propagator ends its call. */
  lemma FinishKeeps(q: seq<seq<nat>>, inQueue: seq<bool>, id: nat)
    requires QueuedExactly(q, inQueue, id)
    ensures QueuedExactly(q, inQueue[id := false], -1)
  {
  }

  /**
   * One wake-up keeps each propagator queued at most once, exactly when its
   * flag is set, and pushes an id only when its flag was clear.
   */
  lemma WakeKeeps(s: Schedule, priority: seq<nat>, e: WatchEntry, running: int)
    requires Fits(s, priority) && e.id < |priority|
    requires QueuedExactly(s.queues, s.inQueue, running) && WatchedQueued(s)
    ensures var r := Wake(s, priority, e);
      QueuedExactly(r.queues, r.inQueue, running) && WatchedQueued(r) &&
      r.inQueue == s.inQueue[e.id := true] &&
      (s.inQueue[e.id] ==> r.queues == s.queues) &&
      (!s.inQueue[e.id] ==> r.queues == s.queues[priority[e.id] := s.queues[priority[e.id]] + [e.id]])
  {
    if !s.inQueue[e.id] {
      PushKeeps(s.queues, s.inQueue, running, priority[e.id], e.id);
    }
  }

  /** The watch indices of one wake-up. */
  lemma WakeIndices(s: Schedule, priority: seq<nat>, e: WatchEntry)
    requires Fits(s, priority) && e.id < |priority|
    ensures forall id :: 0 <= id < |priority| ==>
      Wake(s, priority, e).watchIndices[id] == s.watchIndices[id] + (if e.id == id && e.watchIndex >= 0 then [e.watchIndex] else [])
  {
  }

  /**
   * Waking a list of entries keeps each propagator queued at most once,
   * exactly when its flag is set, and only collects watch indices of
   * propagators whose flag is set.
   */
  lemma {:induction false} WakeAllKeeps(s: Schedule, priority: seq<nat>, entries: seq<WatchEntry>, running: int)
    requires Fits(s, priority) && EntriesFit(entries, |priority|)
    requires QueuedExactly(s.queues, s.inQueue, running) && WatchedQueued(s)
    ensures var r := WakeAll(s, priority, entries);
      QueuedExactly(r.queues, r.inQueue, running) && WatchedQueued(r)
    decreases |entries|
  {
    if entries != [] {
      var front := entries[..|entries| - 1];
      assert forall x :: x in front ==> x in entries;
      WakeAllKeeps(s, priority, front, running);
      WakeKeeps(WakeAll(s, priority, front), priority, entries[|entries| - 1], running);
    }
  }

  /**
   * After waking a list of entries a flag is set exactly when it was set
   * before or some entry names the propagator, and every queue has only
   * grown at its back.
   */
  lemma {:induction false} WakeAllFlags(s: Schedule, priority: seq<nat>, entries: seq<WatchEntry>)
    requires Fits(s, priority) && EntriesFit(entries, |priority|)
    ensures var r := WakeAll(s, priority, entries);
      (forall id :: 0 <= id < |priority| ==> (r.inQueue[id] <==> s.inQueue[id] || id in Ids(entries))) &&
      (forall p :: 0 <= p < |s.queues| ==> s.queues[p] <= r.queues[p])
    decreases |entries|
  {
    if entries != [] {
      var front := entries[..|entries| - 1];
      var e := entries[|entries| - 1];
      assert forall x :: x in front ==> x in entries;
      WakeAllFlags(s, priority, front);
      var m := WakeAll(s, priority, front);
      var r := Wake(m, priority, e);
      assert Ids(entries) == Ids(front) + {e.id} by {
        assert entries == front + [e];
      }
      forall p | 0 <= p < |s.queues|
        ensures s.queues[p] <= r.queues[p]
      {
        assert s.queues[p] <= m.queues[p];
      }
    }
  }

  /** A propagator whose flag was already set is never queued again by a wake-up. */
  lemma NeverRequeued(s: Schedule, priority: seq<nat>, entries: seq<WatchEntry>, running: int, id: nat)
    requires Fits(s, priority) && EntriesFit(entries, |priority|)
    requires QueuedExactly(s.queues, s.inQueue, running) && WatchedQueued(s)
    requires id < |priority| && s.inQueue[id]
    ensures Queued(WakeAll(s, priority, entries).queues, id) == Queued(s.queues, id)
  {
    WakeAllKeeps(s, priority, entries, running);
    WakeAllFlags(s, priority, entries);
  }

  /** Each propagator gains exactly the watch indices its entries carry, in order. */
  lemma {:induction false} WakeAllIndices(s: Schedule, priority: seq<nat>, entries: seq<WatchEntry>)
    requires Fits(s, priority) && EntriesFit(entries, |priority|)
    ensures forall id :: 0 <= id < |priority| ==>
      WakeAll(s, priority, entries).watchIndices[id] == s.watchIndices[id] + IndicesFor(entries, id)
    decreases |entries|
  {
    if entries != [] {
      var front := entries[..|entries| - 1];
      assert forall x :: x in front ==> x in entries;
      WakeAllIndices(s, priority, front);
      WakeIndices(WakeAll(s, priority, front), priority, entries[|entries| - 1]);
    }
  }
}
