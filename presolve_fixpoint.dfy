/**
 * The worklist of the presolve fix-point loop: a queue of constraint
 * indices with an `in_queue` flag per constraint, so that a constraint
 * waits in the queue at most once. The loop pops constraints, appends the
 * constraints a call creates, and at the end of each round re-queues the
 * constraints whose variable is used nowhere else (each such variable and
 * constraint pair once) and the constraints touching a modified variable,
 * those in increasing order.
 */
module PresolveFixPoint {

  import opened Refs
  import opened PresolveContext

  // ---------------------------------------------------------------------
  // Sorted lists of constraint indices

  predicate StrictlyIncreasing(s: seq<int>)
  {
    forall i, j :: 0 <= i < j < |s| ==> s[i] < s[j]
  }

  /** `x` put in its place in the increasing list `s`. */
  function Insert(s: seq<int>, x: int): (r: seq<int>)
    requires StrictlyIncreasing(s) && x !in s
    ensures StrictlyIncreasing(r) && |r| == |s| + 1
    ensures forall y :: y in r <==> y in s || y == x
  {
    if |s| == 0 then [x]
    else if x < s[0] then [x] + s
    else
      var t := Insert(s[1..], x);
      assert forall y :: y in s[1..] ==> s[0] < y;
      assert x != s[0];
      assert forall y :: y in t ==> s[0] < y;
      assert forall y :: y in s <==> y == s[0] || y in s[1..];
      assert forall k :: 0 <= k < |t| ==> s[0] < t[k] by {
        forall k | 0 <= k < |t| ensures s[0] < t[k] { assert t[k] in t; }
      }
      [s[0]] + t
  }

  /** The elements of `s` in increasing order, as the `std::sort` of the newly queued part does. */
  method SortedOf(s: set<int>) returns (r: seq<int>)
    ensures StrictlyIncreasing(r) && forall y :: y in r <==> y in s
  {
    r := [];
    var rest := s;
    while rest != {}
      invariant StrictlyIncreasing(r) && rest <= s
      invariant forall y :: y in r <==> y in s && y !in rest
      decreases rest
    {
      HasElement(rest);
      var x :| x in rest;
      r := Insert(r, x);
      rest := rest - {x};
    }
  }

  // ---------------------------------------------------------------------
  // The worklist

  /** The constraints that touch a variable of `vars`, according to the usage graph. */
  function Touched(varToConstraints: seq<set<int>>, vars: set<nat>): set<int>
    requires forall v :: v in vars ==> v < |varToConstraints|
  {
    set v, c | v in vars && c in varToConstraints[v] && c >= 0 :: c
  }

  /** The (variable, constraint) pairs of the variables below `n` used by exactly one constraint. */
  function UniquePairs(varToConstraints: seq<set<int>>, n: nat): set<(int, int)>
    requires n <= |varToConstraints|
  {
    set v, c | 0 <= v < n && c in varToConstraints[v] && varToConstraints[v] == {c} && c >= 0 :: (v, c)
  }

  class Worklist {
    var queue: seq<int>
    var inQueue: seq<bool>
    /** The (variable, constraint) pairs already re-queued for their unique variable. */
    var alreadyCalled: set<(int, int)>

    /** `inQueue[c]` says exactly whether `c` waits in the queue, where it appears once. */
    ghost predicate Valid()
      reads this
    {
      (forall c :: c in queue <==> 0 <= c < |inQueue| && inQueue[c]) &&
      forall i, j :: 0 <= i < j < |queue| ==> queue[i] != queue[j]
    }

    /** Every constraint, in order, waits in the queue. */
    constructor (numConstraints: nat)
      ensures Valid() && |inQueue| == numConstraints && alreadyCalled == {}
      ensures queue == seq(numConstraints, c => c)
    {
      queue := seq(numConstraints, c => c);
      inQueue := seq(numConstraints, _ => true);
      alreadyCalled := {};
      new;
      forall c | 0 <= c < numConstraints
        ensures c in queue
      {
        assert queue[c] == c;
      }
    }

    /** Takes the front constraint, which no longer waits. */
    method PopFront() returns (c: int)
      requires Valid() && queue != []
      modifies this`queue, this`inQueue
      ensures Valid() && c == old(queue[0]) && queue == old(queue[1..])
      ensures 0 <= c < |old(inQueue)| && inQueue == old(inQueue)[c := false]
    {
      c := queue[0];
      assert c in queue;
      ghost var q0, in0 := queue, inQueue;
      inQueue := inQueue[c := false];
      queue := queue[1..];
      forall d
        ensures d in queue <==> 0 <= d < |inQueue| && inQueue[d]
      {
        if d in queue {
          var j :| 0 <= j < |queue| && queue[j] == d;
          assert q0[0] != q0[j + 1];
          assert d in q0;
        }
      }
    }

    /** The constraints a call created, `oldNum .. newNum - 1`, join the back of the queue. */
    method AddNewConstraints(oldNum: nat, newNum: nat)
      requires Valid() && oldNum == |inQueue| <= newNum
      modifies this`queue, this`inQueue
      ensures Valid() && |inQueue| == newNum
      ensures queue == old(queue) + seq(newNum - oldNum, i => oldNum + i)
      ensures inQueue == old(inQueue) + seq(newNum - oldNum, _ => true)
    {
      ghost var q0, in0 := queue, inQueue;
      var created := seq(newNum - oldNum, i => oldNum + i);
      inQueue := inQueue + seq(newNum - oldNum, _ => true);
      queue := queue + created;
      forall d
        ensures d in queue <==> 0 <= d < |inQueue| && inQueue[d]
      {
        if oldNum <= d < newNum {
          assert created[d - oldNum] == d;
          assert queue[|q0| + d - oldNum] == d;
        } else if d in queue {
          var j :| 0 <= j < |queue| && queue[j] == d;
          assert j < |q0|;
          assert d in q0;
        }
      }
      forall i, j | 0 <= i < j < |queue|
        ensures queue[i] != queue[j]
      {
        if j >= |q0| && i < |q0| {
          assert q0[i] in q0;
        }
      }
    }

    /** `c` joins the back of the queue unless it already waits. */
    method Push(c: int)
      requires Valid() && 0 <= c < |inQueue|
      modifies this`queue, this`inQueue
      ensures Valid() && |inQueue| == |old(inQueue)| && inQueue == old(inQueue)[c := true]
      ensures queue == if old(inQueue[c]) then old(queue) else old(queue) + [c]
    {
      if !inQueue[c] {
        inQueue := inQueue[c := true];
        queue := queue + [c];
      }
    }

    /**
     * The re-queue of the constraints whose variable appears in no other
     * constraint: each new (variable, constraint) pair is recorded, and its
     * constraint joins the queue unless it waits already.
     */
    method RequeueUniqueVariables(varToConstraints: seq<set<int>>) returns (ghost added: seq<int>)
      requires Valid() && forall v, c :: 0 <= v < |varToConstraints| && c in varToConstraints[v] && c >= 0 ==> c < |inQueue|
      modifies this
      ensures Valid() && |inQueue| == |old(inQueue)| && queue == old(queue) + added
      ensures alreadyCalled == old(alreadyCalled) + UniquePairs(varToConstraints, |varToConstraints|)
      ensures forall c :: c in added <==> (0 <= c < |inQueue| && !old(inQueue)[c] &&
        exists v :: (v, c) in UniquePairs(varToConstraints, |varToConstraints|) && (v, c) !in old(alreadyCalled))
    {
      ghost var queue0, inQueue0, called0 := queue, inQueue, alreadyCalled;
      added := [];
      for v := 0 to |varToConstraints|
        invariant Valid() && |inQueue| == |inQueue0| && queue == queue0 + added
        invariant alreadyCalled == called0 + UniquePairs(varToConstraints, v)
        invariant forall c :: 0 <= c < |inQueue| ==> (inQueue[c] <==> inQueue0[c] || c in added)
        invariant forall c :: c in added <==> (0 <= c < |inQueue| && !inQueue0[c] &&
          exists u :: (u, c) in UniquePairs(varToConstraints, v) && (u, c) !in called0)
      {
        var constraints := varToConstraints[v];
        if |constraints| != 1 {
          continue;
        }
        var c := TheElement(constraints);
        if c < 0 || (v, c) in alreadyCalled {
          continue;
        }
        alreadyCalled := alreadyCalled + {(v, c)};
        if !inQueue[c] {
          added := added + [c];
        }
        Push(c);
      }
    }

    /**
     * The re-queue of the constraints touching a variable whose domain
     * changed: a constraint that does not wait joins the queue, and the part
     * of the queue added this way is put in increasing order. A modified
     * variable with an empty domain makes the model infeasible and stops the
     * scan. The set of modified variables is cleared in every case.
     */
    method RequeueModified(ctx: Context) returns (tail: seq<int>)
      requires Valid() && ctx.Valid()
      requires forall v :: v in ctx.modifiedDomains ==> v < |ctx.domains|
      requires forall v, c :: 0 <= v < |ctx.varToConstraints| && c in ctx.varToConstraints[v] && c >= 0 ==> c < |inQueue|
      modifies this`queue, this`inQueue, ctx`isUnsat, ctx`modifiedDomains
      ensures Valid() && |inQueue| == |old(inQueue)| && queue == old(queue) + tail && StrictlyIncreasing(tail)
      ensures forall c :: 0 <= c < |inQueue| ==> (inQueue[c] <==> old(inQueue)[c] || c in tail)
      ensures ctx.modifiedDomains == {}
      ensures ctx.isUnsat <==> old(ctx.isUnsat) || exists v :: v in old(ctx.modifiedDomains) && ctx.domains[v] == []
      ensures forall c :: c in tail ==>
        c in Touched(ctx.varToConstraints, old(ctx.modifiedDomains)) && 0 <= c < |old(inQueue)| && !old(inQueue)[c]
      ensures !ctx.isUnsat ==> forall c :: (c in Touched(ctx.varToConstraints, old(ctx.modifiedDomains)) &&
        0 <= c < |old(inQueue)| && !old(inQueue)[c]) ==> c in tail
    {
      ghost var in0, queue0, modified0 := inQueue, queue, ctx.modifiedDomains;
      var pushed: set<int> := {};
      var rest := ctx.modifiedDomains;
      ghost var done: set<nat> := {};
      while rest != {}
        invariant rest + done == modified0 && rest !! done
        invariant ctx.isUnsat == old(ctx.isUnsat)
        invariant forall v :: v in done ==> ctx.domains[v] != []
        invariant |inQueue| == |in0| && queue == queue0
        invariant forall c :: c in pushed <==> c in Touched(ctx.varToConstraints, done) && 0 <= c < |in0| && !in0[c]
        invariant forall c :: 0 <= c < |inQueue| ==> (inQueue[c] <==> in0[c] || c in pushed)
        decreases rest
      {
        HasVariable(rest);
        var v :| v in rest;
        if ctx.DomainIsEmpty(v) {
          ctx.isUnsat := true;
          break;
        }
        var users := ctx.varToConstraints[v];
        ghost var seen: set<int> := {};
        while users != {}
          invariant users + seen == ctx.varToConstraints[v] && users !! seen
          invariant |inQueue| == |in0|
          invariant forall c :: c in pushed <==>
            (c in Touched(ctx.varToConstraints, done) || (c in seen && c >= 0)) && 0 <= c < |in0| && !in0[c]
          invariant forall c :: 0 <= c < |inQueue| ==> (inQueue[c] <==> in0[c] || c in pushed)
          modifies this`inQueue
          decreases users
        {
          HasElement(users);
          var c :| c in users;
          if c >= 0 && !inQueue[c] {
            inQueue := inQueue[c := true];
            pushed := pushed + {c};
          }
          users := users - {c};
          seen := seen + {c};
        }
        TouchedAdd(ctx.varToConstraints, done, v);
        done := done + {v};
        rest := rest - {v};
      }
      tail := SortedOf(pushed);
      forall i, j | 0 <= i < j < |queue + tail|
        ensures (queue + tail)[i] != (queue + tail)[j]
      {
        if i < |queue| <= j {
          assert tail[j - |queue|] in tail;
          assert queue[i] in queue;
        }
      }
      queue := queue + tail;
      ctx.modifiedDomains := {};
    }
  }

  /** The constraints touching `done` and `v` are those touching `done` and those using `v`. */
  lemma TouchedAdd(varToConstraints: seq<set<int>>, done: set<nat>, v: nat)
    requires v < |varToConstraints| && forall u :: u in done ==> u < |varToConstraints|
    ensures forall c :: c in Touched(varToConstraints, done + {v}) <==>
      c in Touched(varToConstraints, done) || (c in varToConstraints[v] && c >= 0)
  {
  }

  /** A set that is not empty has an element. */
  lemma HasElement(s: set<int>)
    requires s != {}
    ensures exists y :: y in s
  {
    if forall y :: y !in s {
      assert false;
    }
  }

  /** A set of variables that is not empty has an element. */
  lemma HasVariable(s: set<nat>)
    requires s != {}
    ensures exists y :: y in s
  {
    if forall y :: y !in s {
      assert false;
    }
  }

  /** The one element of a set of size one. */
  function TheElement(s: set<int>): (c: int)
    requires |s| == 1
    ensures s == {c}
  {
    HasElement(s);
    var c :| c in s;
    assert s == {c} by {
      var rest := s - {c};
      assert s == rest + {c};
      assert |rest| == 0;
    }
    c
  }
}
