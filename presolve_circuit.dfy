/**
 * The presolve rule of the `circuit` constraint: arc `i` goes from node
 * `tails[i]` to node `heads[i]` and is used when `literals[i]` is true.
 * The rule fixes the arcs a node's in- or out-list forces, drops the arcs
 * fixed to false, detects infeasibility (two used arcs leaving one node, a
 * node left without arcs), and removes the constraint once the used arcs
 * already close a sub-circuit or are all self-loops.
 */
module CircuitPresolve {

  import opened Refs
  import opened CpModel
  import opened PresolveContext
  import Domains
  import PresolveBool

  // ---------------------------------------------------------------------
  // Fixed literals on a snapshot of the domains

  /** The only value left in `d` is `value`. */
  predicate FixedTo(d: Domains.Domain, value: int)
  {
    |d| > 0 && Domains.Min(d) == value && Domains.Max(d) == value
  }

  /** The domains fix `lit` to true. */
  predicate TrueIn(domains: seq<Domains.Domain>, lit: int)
  {
    PositiveRef(lit) < |domains| && FixedTo(domains[PositiveRef(lit)], 1 - FalseValue(lit))
  }

  /** The domains fix `lit` to false. */
  predicate FalseIn(domains: seq<Domains.Domain>, lit: int)
  {
    PositiveRef(lit) < |domains| && FixedTo(domains[PositiveRef(lit)], FalseValue(lit))
  }

  /** Every literal of `lits` is a 0/1 variable of the domains, or its negation. */
  predicate BooleanLits(domains: seq<Domains.Domain>, lits: seq<int>)
  {
    forall i :: 0 <= i < |lits| ==> PositiveRef(lits[i]) < |domains| && BooleanDomain(domains[PositiveRef(lits[i])])
  }

  /** The context's queries read the snapshot predicates. */
  lemma LiteralQueries(ctx: Context, lit: int)
    requires ctx.HasValues(lit)
    ensures ctx.LiteralIsTrue(lit) == TrueIn(ctx.domains, lit)
    ensures ctx.LiteralIsFalse(lit) == FalseIn(ctx.domains, lit)
  {
  }

  /** A literal fixed before the domains shrink stays fixed the same way while its domain keeps a value. */
  lemma FixedStays(before: seq<Domains.Domain>, after: seq<Domains.Domain>, lit: int)
    requires Shrinks(before, after) && PositiveRef(lit) < |before| && Domains.Valid(before[PositiveRef(lit)])
    requires Domains.Valid(after[PositiveRef(lit)]) && |after[PositiveRef(lit)]| > 0
    ensures TrueIn(before, lit) ==> TrueIn(after, lit)
    ensures FalseIn(before, lit) ==> FalseIn(after, lit)
  {
    var v := PositiveRef(lit);
    var d, e := before[v], after[v];
    Domains.MinMaxAreExtremeValues(e);
    if |d| > 0 && Domains.Min(d) == Domains.Max(d) {
      assert Domains.Contains(d, Domains.Min(e)) && Domains.Contains(d, Domains.Max(e));
      Domains.MinMaxAreExtremeValues(d);
    }
  }

  /** `FixedStays` for every literal of a list of Boolean literals. */
  lemma FixedLitsStay(before: seq<Domains.Domain>, after: seq<Domains.Domain>, lits: seq<int>)
    requires Shrinks(before, after) && BooleanLits(before, lits) && BooleanLits(after, lits)
    ensures forall i :: 0 <= i < |lits| ==> (TrueIn(before, lits[i]) ==> TrueIn(after, lits[i]))
    ensures forall i :: 0 <= i < |lits| ==> (FalseIn(before, lits[i]) ==> FalseIn(after, lits[i]))
  {
    forall i | 0 <= i < |lits|
      ensures (TrueIn(before, lits[i]) ==> TrueIn(after, lits[i])) && (FalseIn(before, lits[i]) ==> FalseIn(after, lits[i]))
    {
      FixedStays(before, after, lits[i]);
    }
  }

  /** The context's Boolean literals are Boolean literals of its domains. */
  lemma AllBooleanLits(ctx: Context, lits: seq<int>)
    requires ctx.AllBoolean(lits)
    ensures BooleanLits(ctx.domains, lits)
  {
    forall i | 0 <= i < |lits|
      ensures PositiveRef(lits[i]) < |ctx.domains| && BooleanDomain(ctx.domains[PositiveRef(lits[i])])
    {
      assert ctx.IsBooleanRef(lits[i]);
    }
  }

  /** Boolean literals stay Boolean while no Boolean domain stops being one. */
  lemma BooleanLitsKept(before: seq<Domains.Domain>, after: seq<Domains.Domain>, lits: seq<int>)
    requires BooleanLits(before, lits) && KeepsBoolean(before, after)
    ensures BooleanLits(after, lits)
  {
    forall i | 0 <= i < |lits|
      ensures PositiveRef(lits[i]) < |after| && BooleanDomain(after[PositiveRef(lits[i])])
    {
      assert BooleanDomain(before[PositiveRef(lits[i])]);
    }
  }

  // ---------------------------------------------------------------------
  // The graph

  /** Three parallel lists whose nodes are non-negative, as a validated model has them. */
  predicate WellFormed(arg: CircuitArgument)
  {
    |arg.tails| == |arg.literals| && |arg.heads| == |arg.literals| &&
    (forall i :: 0 <= i < |arg.tails| ==> arg.tails[i] >= 0) &&
    (forall i :: 0 <= i < |arg.heads| ==> arg.heads[i] >= 0)
  }

  function Max(a: int, b: int): int
  {
    if a >= b then a else b
  }

  /** One more than the largest node of the arcs: every node is below it, and it is reached. */
  function NodeCount(tails: seq<int>, heads: seq<int>): (n: nat)
    requires |tails| == |heads|
    ensures forall i :: 0 <= i < |tails| ==> tails[i] < n && heads[i] < n
    ensures n > 0 ==> exists i :: 0 <= i < |tails| && (tails[i] == n - 1 || heads[i] == n - 1)
  {
    if |tails| == 0 then 0
    else
      var k := |tails| - 1;
      var m := NodeCount(tails[..k], heads[..k]);
      var n := Max(m, Max(tails[k], heads[k]) + 1);
      assert n > 0 && n != m ==> tails[k] == n - 1 || heads[k] == n - 1;
      n
  }

  /** The literals of the arcs whose end (head or tail, as `ends` gives it) is `node`, in arc order. */
  function ArcsAt(ends: seq<int>, lits: seq<int>, node: int): seq<int>
    requires |ends| == |lits|
  {
    if |ends| == 0 then []
    else
      var k := |ends| - 1;
      ArcsAt(ends[..k], lits[..k], node) + (if ends[k] == node then [lits[k]] else [])
  }

  /** The list of a node holds exactly the literals of the arcs ending at that node. */
  lemma {:induction false} ArcsAtMembers(ends: seq<int>, lits: seq<int>, node: int)
    requires |ends| == |lits|
    ensures forall l :: l in ArcsAt(ends, lits, node) <==> exists i :: 0 <= i < |ends| && ends[i] == node && lits[i] == l
    decreases |ends|
  {
    if |ends| > 0 {
      var k := |ends| - 1;
      ArcsAtMembers(ends[..k], lits[..k], node);
      forall l | l in ArcsAt(ends, lits, node)
        ensures exists i :: 0 <= i < |ends| && ends[i] == node && lits[i] == l
      {
        if l in ArcsAt(ends[..k], lits[..k], node) {
          var i :| 0 <= i < k && ends[..k][i] == node && lits[..k][i] == l;
          assert ends[i] == node && lits[i] == l;
        } else {
          assert ends[k] == node && lits[k] == l;
        }
      }
      forall l, i | 0 <= i < |ends| && ends[i] == node && lits[i] == l
        ensures l in ArcsAt(ends, lits, node)
      {
        if i < k {
          assert ends[..k][i] == node && lits[..k][i] == l;
        }
      }
    }
  }

  /** A node no arc ends at has an empty list. */
  lemma {:induction false} ArcsAtAbsent(ends: seq<int>, lits: seq<int>, node: int)
    requires |ends| == |lits| && forall i :: 0 <= i < |ends| ==> ends[i] < node
    ensures ArcsAt(ends, lits, node) == []
    decreases |ends|
  {
    if |ends| > 0 {
      ArcsAtAbsent(ends[..|ends| - 1], lits[..|ends| - 1], node);
    }
  }

  /** `lists[n]` is the list of node `n` for the arcs given so far. */
  predicate Lists(lists: seq<seq<int>>, ends: seq<int>, lits: seq<int>)
    requires |ends| == |lits|
  {
    forall n {:trigger lists[n]} :: 0 <= n < |lists| ==> lists[n] == ArcsAt(ends, lits, n)
  }

  /** One arc joins the list of its end, which is first created, with the empty lists before it, when it is new. */
  method PushArc(lists: seq<seq<int>>, ghost ends: seq<int>, ghost lits: seq<int>, size: nat, end: int, lit: int) returns (r: seq<seq<int>>)
    requires |ends| == |lits| && Lists(lists, ends, lits) && 0 <= end < size
    requires forall i :: 0 <= i < |ends| ==> ends[i] < |lists|
    ensures |r| == Max(|lists|, size) && Lists(r, ends + [end], lits + [lit])
  {
    r := lists;
    if |r| < size {
      forall n | |lists| <= n < size
        ensures ArcsAt(ends, lits, n) == []
      {
        ArcsAtAbsent(ends, lits, n);
      }
      r := r + seq(size - |r|, _ => []);
    }
    r := r[end := r[end] + [lit]];
    assert (ends + [end])[..|ends|] == ends && (lits + [lit])[..|lits|] == lits;
  }

  /** The lists and node count the graph loop has built from the arcs given so far. */
  predicate Graph(incoming: seq<seq<int>>, outgoing: seq<seq<int>>, numNodes: int, tails: seq<int>, heads: seq<int>, lits: seq<int>)
    requires |tails| == |lits| && |heads| == |lits|
  {
    numNodes == NodeCount(tails, heads) == |incoming| == |outgoing| &&
    Lists(incoming, heads, lits) && Lists(outgoing, tails, lits)
  }

  /** One turn of the graph loop: the arc joins the incoming list of its head and the outgoing list of its tail. */
  method AddArc(incoming: seq<seq<int>>, outgoing: seq<seq<int>>, numNodes: int, ghost tails: seq<int>, ghost heads: seq<int>, ghost lits: seq<int>,
                tail: int, head: int, ref: int)
    returns (incoming': seq<seq<int>>, outgoing': seq<seq<int>>, numNodes': int)
    requires |tails| == |lits| && |heads| == |lits| && Graph(incoming, outgoing, numNodes, tails, heads, lits)
    requires tail >= 0 && head >= 0
    ensures Graph(incoming', outgoing', numNodes', tails + [tail], heads + [head], lits + [ref])
  {
    assert (tails + [tail])[..|tails|] == tails && (heads + [head])[..|heads|] == heads;
    numNodes' := Max(numNodes, Max(tail, head) + 1);
    incoming' := PushArc(incoming, heads, lits, Max(tail, head) + 1, head, ref);
    outgoing' := PushArc(outgoing, tails, lits, Max(tail, head) + 1, tail, ref);
  }

  /** The per-node lists of incoming and outgoing arc literals, sized to the node count. */
  method BuildGraph(arg: CircuitArgument) returns (incoming: seq<seq<int>>, outgoing: seq<seq<int>>)
    requires WellFormed(arg)
    ensures |incoming| == NodeCount(arg.tails, arg.heads) && |outgoing| == |incoming|
    ensures forall n :: 0 <= n < |incoming| ==> incoming[n] == ArcsAt(arg.heads, arg.literals, n)
    ensures forall n :: 0 <= n < |outgoing| ==> outgoing[n] == ArcsAt(arg.tails, arg.literals, n)
  {
    incoming, outgoing := [], [];
    var numNodes := 0;
    for i := 0 to |arg.literals|
      invariant Graph(incoming, outgoing, numNodes, arg.tails[..i], arg.heads[..i], arg.literals[..i])
    {
      assert arg.tails[..i + 1] == arg.tails[..i] + [arg.tails[i]] && arg.heads[..i + 1] == arg.heads[..i] + [arg.heads[i]];
      assert arg.literals[..i + 1] == arg.literals[..i] + [arg.literals[i]];
      incoming, outgoing, numNodes := AddArc(incoming, outgoing, numNodes, arg.tails[..i], arg.heads[..i], arg.literals[..i],
                                             arg.tails[i], arg.heads[i], arg.literals[i]);
    }
    assert arg.tails[..|arg.literals|] == arg.tails && arg.heads[..|arg.literals|] == arg.heads;
    assert arg.literals[..|arg.literals|] == arg.literals;
  }

  /** Every list of a node holds literals of the arcs, so they are Boolean when the arc literals are. */
  lemma ListIsBoolean(domains: seq<Domains.Domain>, ends: seq<int>, lits: seq<int>, node: int)
    requires |ends| == |lits| && BooleanLits(domains, lits)
    ensures BooleanLits(domains, ArcsAt(ends, lits, node))
  {
    var list := ArcsAt(ends, lits, node);
    ArcsAtMembers(ends, lits, node);
    forall j | 0 <= j < |list|
      ensures PositiveRef(list[j]) < |domains| && BooleanDomain(domains[PositiveRef(list[j])])
    {
      var l := list[j];
      assert l in list;
      assert exists i :: 0 <= i < |ends| && ends[i] == node && lits[i] == l;
      var i :| 0 <= i < |ends| && ends[i] == node && lits[i] == l;
    }
  }

  // ---------------------------------------------------------------------
  // Arcs a node's list forces

  /** Makes false every literal of `refs` that differs from `keep`. */
  method SetFalseExcept(ctx: Context, refs: seq<int>, keep: int)
    requires ctx.Valid() && BooleanLits(ctx.domains, refs)
    modifies ctx`domains, ctx`modifiedDomains, ctx`isUnsat
    ensures ctx.Valid() && KeepsBoolean(old(ctx.domains), ctx.domains) && Shrinks(old(ctx.domains), ctx.domains)
    ensures old(ctx.isUnsat) ==> ctx.isUnsat
    ensures !ctx.isUnsat ==> forall j :: 0 <= j < |refs| && refs[j] != keep ==> FalseIn(ctx.domains, refs[j])
  {
    ghost var start := ctx.domains;
    for i := 0 to |refs|
      invariant ctx.Valid() && KeepsBoolean(start, ctx.domains) && Shrinks(start, ctx.domains)
      invariant old(ctx.isUnsat) ==> ctx.isUnsat
      invariant BooleanLits(ctx.domains, refs)
      invariant !ctx.isUnsat ==> forall j :: 0 <= j < i && refs[j] != keep ==> FalseIn(ctx.domains, refs[j])
    {
      if refs[i] != keep {
        ghost var before := ctx.domains;
        ctx.SetLiteralToFalse(refs[i]);
        BooleanLitsKept(before, ctx.domains, refs);
        FixedLitsStay(before, ctx.domains, refs);
        PresolveBool.ShrinksTransitive(start, before, ctx.domains);
        PresolveBool.KeepsBooleanTransitive(start, before, ctx.domains);
      }
    }
  }

  /**
   * The first loop on the list of one node: its only arc must be used;
   * with more arcs, the first one already used makes every arc with
   * another literal unused (`t` is its position, or the length when none
   * is used).
   */
  method FixArcList(ctx: Context, refs: seq<int>) returns (ghost t: nat)
    requires ctx.Valid() && BooleanLits(ctx.domains, refs)
    modifies ctx`domains, ctx`modifiedDomains, ctx`isUnsat
    ensures ctx.Valid() && KeepsBoolean(old(ctx.domains), ctx.domains) && Shrinks(old(ctx.domains), ctx.domains)
    ensures old(ctx.isUnsat) ==> ctx.isUnsat
    ensures |refs| == 1 ==> ctx.isUnsat || TrueIn(ctx.domains, refs[0])
    ensures |refs| != 1 ==> t <= |refs| && forall j :: 0 <= j < t ==> !TrueIn(old(ctx.domains), refs[j])
    ensures |refs| != 1 && t == |refs| ==> ctx.domains == old(ctx.domains) && ctx.isUnsat == old(ctx.isUnsat)
    ensures |refs| != 1 && t < |refs| ==> TrueIn(old(ctx.domains), refs[t])
    ensures |refs| != 1 && t < |refs| && !ctx.isUnsat ==>
      forall j :: 0 <= j < |refs| && refs[j] != refs[t] ==> FalseIn(ctx.domains, refs[j])
  {
    if |refs| == 1 {
      t := 0;
      if !ctx.LiteralIsTrue(refs[0]) {
        ctx.SetLiteralToTrue(refs[0]);
      }
      return;
    }
    var i := 0;
    while i < |refs| && !ctx.LiteralIsTrue(refs[i])
      invariant i <= |refs| && forall j :: 0 <= j < i ==> !TrueIn(ctx.domains, refs[j])
    {
      i := i + 1;
    }
    t := i;
    if i < |refs| {
      SetFalseExcept(ctx, refs, refs[i]);
    }
  }

  /** The first loop over a family of lists (all incoming lists, or all outgoing ones): every single arc ends up used. */
  method FixArcLists(ctx: Context, lists: seq<seq<int>>)
    requires ctx.Valid() && forall k :: 0 <= k < |lists| ==> BooleanLits(ctx.domains, lists[k])
    modifies ctx`domains, ctx`modifiedDomains, ctx`isUnsat
    ensures ctx.Valid() && KeepsBoolean(old(ctx.domains), ctx.domains) && Shrinks(old(ctx.domains), ctx.domains)
    ensures old(ctx.isUnsat) ==> ctx.isUnsat
    ensures !ctx.isUnsat ==> forall k :: 0 <= k < |lists| && |lists[k]| == 1 ==> TrueIn(ctx.domains, lists[k][0])
  {
    ghost var start := ctx.domains;
    for i := 0 to |lists|
      invariant ctx.Valid() && KeepsBoolean(start, ctx.domains) && Shrinks(start, ctx.domains)
      invariant old(ctx.isUnsat) ==> ctx.isUnsat
      invariant forall k :: 0 <= k < |lists| ==> BooleanLits(ctx.domains, lists[k])
      invariant !ctx.isUnsat ==> forall k :: 0 <= k < i && |lists[k]| == 1 ==> TrueIn(ctx.domains, lists[k][0])
    {
      ghost var before := ctx.domains;
      ghost var t := FixArcList(ctx, lists[i]);
      forall k | 0 <= k < |lists|
        ensures BooleanLits(ctx.domains, lists[k])
      {
        BooleanLitsKept(before, ctx.domains, lists[k]);
      }
      forall k | 0 <= k < i && |lists[k]| == 1
        ensures TrueIn(before, lists[k][0]) ==> TrueIn(ctx.domains, lists[k][0])
      {
        FixedStays(before, ctx.domains, lists[k][0]);
      }
      PresolveBool.ShrinksTransitive(start, before, ctx.domains);
      PresolveBool.KeepsBooleanTransitive(start, before, ctx.domains);
    }
  }

  // ---------------------------------------------------------------------
  // Removing the false arcs
  //
  // The functions below describe the arc loop on the arcs `tails`, `heads`,
  // `lits` given so far; each is defined on the last arc and the others.

  /** Parallel arc lists whose nodes are `0 .. numNodes - 1`. */
  predicate Arcs(tails: seq<int>, heads: seq<int>, lits: seq<int>, numNodes: int)
  {
    |tails| == |lits| && |heads| == |lits| &&
    forall i :: 0 <= i < |lits| ==> 0 <= tails[i] < numNodes && 0 <= heads[i] < numNodes
  }

  /** The arcs whose literal is not fixed to false, in order. */
  function Kept(domains: seq<Domains.Domain>, tails: seq<int>, heads: seq<int>, lits: seq<int>): (r: CircuitArgument)
    requires |tails| == |lits| && |heads| == |lits|
    ensures |r.tails| == |r.literals| && |r.heads| == |r.literals| && |r.literals| <= |lits|
  {
    if |lits| == 0 then CircuitArgument([], [], [])
    else
      var k := |lits| - 1;
      var r := Kept(domains, tails[..k], heads[..k], lits[..k]);
      if FalseIn(domains, lits[k]) then r
      else CircuitArgument(r.tails + [tails[k]], r.heads + [heads[k]], r.literals + [lits[k]])
  }

  /** The `next` entries are -1 or nodes. */
  predicate NextOk(next: seq<int>)
  {
    forall v :: 0 <= v < |next| ==> -1 <= next[v] < |next|
  }

  /** For each node, the head of the last used arc leaving it, or -1. */
  function Next(domains: seq<Domains.Domain>, tails: seq<int>, heads: seq<int>, lits: seq<int>, numNodes: nat): (next: seq<int>)
    requires Arcs(tails, heads, lits, numNodes)
    ensures |next| == numNodes && NextOk(next)
  {
    if |lits| == 0 then seq(numNodes, _ => -1)
    else
      var k := |lits| - 1;
      var next := Next(domains, tails[..k], heads[..k], lits[..k], numNodes);
      if TrueIn(domains, lits[k]) then next[tails[k] := heads[k]] else next
  }

  /** How many arcs are used. */
  function NumTrue(domains: seq<Domains.Domain>, lits: seq<int>): nat
  {
    if |lits| == 0 then 0
    else NumTrue(domains, lits[..|lits| - 1]) + (if TrueIn(domains, lits[|lits| - 1]) then 1 else 0)
  }

  /** The tail of the last used arc that is not a self-loop, or -1. */
  function CircuitStart(domains: seq<Domains.Domain>, tails: seq<int>, heads: seq<int>, lits: seq<int>): int
    requires |tails| == |lits| && |heads| == |lits|
  {
    if |lits| == 0 then -1
    else
      var k := |lits| - 1;
      if TrueIn(domains, lits[k]) && tails[k] != heads[k] then tails[k]
      else CircuitStart(domains, tails[..k], heads[..k], lits[..k])
  }

  /** No two used arcs leave the same node. */
  predicate TrueTailsDistinct(domains: seq<Domains.Domain>, tails: seq<int>, lits: seq<int>)
    requires |tails| == |lits|
  {
    forall i, j :: 0 <= i < j < |lits| && TrueIn(domains, lits[i]) && TrueIn(domains, lits[j]) ==> tails[i] != tails[j]
  }

  /** With no two used arcs leaving one node, `next` maps the tail of every used arc to its head, and only those. */
  lemma {:induction false} NextMeaning(domains: seq<Domains.Domain>, tails: seq<int>, heads: seq<int>, lits: seq<int>, numNodes: nat)
    requires Arcs(tails, heads, lits, numNodes) && TrueTailsDistinct(domains, tails, lits)
    ensures forall i :: 0 <= i < |lits| && TrueIn(domains, lits[i]) ==> Next(domains, tails, heads, lits, numNodes)[tails[i]] == heads[i]
    ensures forall v :: 0 <= v < numNodes && Next(domains, tails, heads, lits, numNodes)[v] != -1 ==>
      exists i :: 0 <= i < |lits| && TrueIn(domains, lits[i]) && tails[i] == v && heads[i] == Next(domains, tails, heads, lits, numNodes)[v]
    decreases |lits|
  {
    if |lits| > 0 {
      var k := |lits| - 1;
      var t, h, l := tails[..k], heads[..k], lits[..k];
      var s, r := Next(domains, t, h, l, numNodes), Next(domains, tails, heads, lits, numNodes);
      NextMeaning(domains, t, h, l, numNodes);
      forall i | 0 <= i < |lits| && TrueIn(domains, lits[i])
        ensures r[tails[i]] == heads[i]
      {
        if i < k {
          assert l[i] == lits[i] && t[i] == tails[i] && h[i] == heads[i];
        }
      }
      forall v | 0 <= v < numNodes && r[v] != -1
        ensures exists i :: 0 <= i < |lits| && TrueIn(domains, lits[i]) && tails[i] == v && heads[i] == r[v]
      {
        if !(TrueIn(domains, lits[k]) && v == tails[k]) {
          var i :| 0 <= i < k && TrueIn(domains, l[i]) && t[i] == v && h[i] == s[v];
          assert lits[i] == l[i] && tails[i] == t[i] && heads[i] == h[i];
        }
      }
    }
  }

  /** The start is -1 exactly when every used arc is a self-loop; otherwise it is the tail of a used arc that is not. */
  lemma {:induction false} CircuitStartMeaning(domains: seq<Domains.Domain>, tails: seq<int>, heads: seq<int>, lits: seq<int>, numNodes: nat)
    requires Arcs(tails, heads, lits, numNodes)
    ensures CircuitStart(domains, tails, heads, lits) == -1 ==>
      forall i :: 0 <= i < |lits| && TrueIn(domains, lits[i]) ==> tails[i] == heads[i]
    ensures CircuitStart(domains, tails, heads, lits) != -1 ==>
      exists i :: 0 <= i < |lits| && TrueIn(domains, lits[i]) && tails[i] != heads[i] && tails[i] == CircuitStart(domains, tails, heads, lits)
    decreases |lits|
  {
    if |lits| > 0 {
      var k := |lits| - 1;
      var t, h, l := tails[..k], heads[..k], lits[..k];
      CircuitStartMeaning(domains, t, h, l, numNodes);
      forall i | 0 <= i < k
        ensures l[i] == lits[i] && t[i] == tails[i] && h[i] == heads[i]
      {
      }
    }
  }

  /** The used arcs are among the kept ones; when they are all of them, every arc is fixed one way or the other. */
  lemma {:induction false} NumTrueMeaning(domains: seq<Domains.Domain>, tails: seq<int>, heads: seq<int>, lits: seq<int>)
    requires |tails| == |lits| && |heads| == |lits|
    ensures NumTrue(domains, lits) <= |Kept(domains, tails, heads, lits).literals|
    ensures NumTrue(domains, lits) == |Kept(domains, tails, heads, lits).literals| ==>
      forall i :: 0 <= i < |lits| ==> FalseIn(domains, lits[i]) || TrueIn(domains, lits[i])
    decreases |lits|
  {
    if |lits| > 0 {
      var k := |lits| - 1;
      var t, h, l := tails[..k], heads[..k], lits[..k];
      NumTrueMeaning(domains, t, h, l);
      forall i | 0 <= i < k
        ensures l[i] == lits[i]
      {
      }
    }
  }

  /** The kept arcs are the arcs not fixed to false: none of them is, and all are kept when no arc is. */
  lemma {:induction false} KeptMeaning(domains: seq<Domains.Domain>, tails: seq<int>, heads: seq<int>, lits: seq<int>)
    requires |tails| == |lits| && |heads| == |lits|
    ensures forall j :: 0 <= j < |Kept(domains, tails, heads, lits).literals| ==> !FalseIn(domains, Kept(domains, tails, heads, lits).literals[j])
    ensures |Kept(domains, tails, heads, lits).literals| == |lits| <==> forall i :: 0 <= i < |lits| ==> !FalseIn(domains, lits[i])
    decreases |lits|
  {
    if |lits| > 0 {
      var k := |lits| - 1;
      var t, h, l := tails[..k], heads[..k], lits[..k];
      KeptMeaning(domains, t, h, l);
      forall i | 0 <= i < k
        ensures l[i] == lits[i]
      {
      }
    }
  }

  /** Two used arcs leaving one node in a prefix are two such arcs of the whole list. */
  lemma ConflictInPrefix(domains: seq<Domains.Domain>, tails: seq<int>, lits: seq<int>, k: nat)
    requires |tails| == |lits| && k <= |lits| && !TrueTailsDistinct(domains, tails[..k], lits[..k])
    ensures !TrueTailsDistinct(domains, tails, lits)
  {
    var i, j :| 0 <= i < j < k && TrueIn(domains, lits[..k][i]) && TrueIn(domains, lits[..k][j]) && tails[..k][i] == tails[..k][j];
    assert lits[i] == lits[..k][i] && lits[j] == lits[..k][j];
  }

  /**
   * The local variables of the arc loop: the arcs kept so far (`new_size`
   * is their number), `next`, the degrees over the kept arcs, the number
   * of used arcs and the circuit start.
   */
  datatype ArcScan = ArcScan(kept: CircuitArgument, next: seq<int>, inDegree: seq<int>, outDegree: seq<int>, numTrue: nat, circuitStart: int)

  /** The loop's variables after the arcs `tails`, `heads`, `lits`, when no two used arcs left one node. */
  predicate Scanned(domains: seq<Domains.Domain>, tails: seq<int>, heads: seq<int>, lits: seq<int>, numNodes: nat, s: ArcScan)
    requires Arcs(tails, heads, lits, numNodes)
  {
    s.kept == Kept(domains, tails, heads, lits) && s.next == Next(domains, tails, heads, lits, numNodes) &&
    |s.inDegree| == numNodes && |s.outDegree| == numNodes &&
    (forall n :: 0 <= n < numNodes ==> s.inDegree[n] == multiset(s.kept.heads)[n]) &&
    (forall n :: 0 <= n < numNodes ==> s.outDegree[n] == multiset(s.kept.tails)[n]) &&
    s.numTrue == NumTrue(domains, lits) && s.circuitStart == CircuitStart(domains, tails, heads, lits) &&
    TrueTailsDistinct(domains, tails, lits)
  }

  /** Before the first arc. */
  function InitialScan(numNodes: nat): (s: ArcScan)
    ensures Scanned([], [], [], [], numNodes, s)
  {
    ArcScan(CircuitArgument([], [], []), seq(numNodes, _ => -1), seq(numNodes, _ => 0), seq(numNodes, _ => 0), 0, -1)
  }

  /** The loop's functions on one more arc, unfolded. */
  lemma ExtendArcs(domains: seq<Domains.Domain>, tails: seq<int>, heads: seq<int>, lits: seq<int>, numNodes: nat, tail: int, head: int, lit: int)
    requires Arcs(tails, heads, lits, numNodes) && Arcs(tails + [tail], heads + [head], lits + [lit], numNodes)
    ensures Kept(domains, tails + [tail], heads + [head], lits + [lit]) ==
      if FalseIn(domains, lit) then Kept(domains, tails, heads, lits)
      else CircuitArgument(Kept(domains, tails, heads, lits).tails + [tail], Kept(domains, tails, heads, lits).heads + [head],
                           Kept(domains, tails, heads, lits).literals + [lit])
    ensures Next(domains, tails + [tail], heads + [head], lits + [lit], numNodes) ==
      if TrueIn(domains, lit) then Next(domains, tails, heads, lits, numNodes)[tail := head] else Next(domains, tails, heads, lits, numNodes)
    ensures NumTrue(domains, lits + [lit]) == NumTrue(domains, lits) + if TrueIn(domains, lit) then 1 else 0
    ensures CircuitStart(domains, tails + [tail], heads + [head], lits + [lit]) ==
      if TrueIn(domains, lit) && tail != head then tail else CircuitStart(domains, tails, heads, lits)
  {
    var k := |lits|;
    assert (tails + [tail])[..k] == tails && (heads + [head])[..k] == heads && (lits + [lit])[..k] == lits;
  }

  /** A used arc leaving a node that already has one breaks the distinct tails; any other arc keeps them. */
  lemma ExtendDistinct(domains: seq<Domains.Domain>, tails: seq<int>, heads: seq<int>, lits: seq<int>, numNodes: nat, tail: int, head: int, lit: int)
    requires Arcs(tails, heads, lits, numNodes) && Arcs(tails + [tail], heads + [head], lits + [lit], numNodes)
    requires TrueTailsDistinct(domains, tails, lits) && 0 <= tail < numNodes
    ensures TrueTailsDistinct(domains, tails + [tail], lits + [lit]) <==>
      !TrueIn(domains, lit) || Next(domains, tails, heads, lits, numNodes)[tail] == -1
  {
    var k := |lits|;
    var next := Next(domains, tails, heads, lits, numNodes);
    NextMeaning(domains, tails, heads, lits, numNodes);
    assert (tails + [tail])[k] == tail && (lits + [lit])[k] == lit;
    if TrueIn(domains, lit) && next[tail] != -1 {
      var j :| 0 <= j < k && TrueIn(domains, lits[j]) && tails[j] == tail && heads[j] == next[tail];
      assert (tails + [tail])[j] == tails[j] && (lits + [lit])[j] == lits[j];
    } else {
      forall i, j | 0 <= i < j < k + 1 && TrueIn(domains, (lits + [lit])[i]) && TrueIn(domains, (lits + [lit])[j])
        ensures (tails + [tail])[i] != (tails + [tail])[j]
      {
        assert (tails + [tail])[i] == tails[i] && (lits + [lit])[i] == lits[i];
        if j < k {
          assert (tails + [tail])[j] == tails[j] && (lits + [lit])[j] == lits[j];
        }
      }
    }
  }

  /**
   * One turn of the arc loop: an arc fixed to false is skipped; a used arc
   * whose tail already has one is a conflict; otherwise the arc is kept.
   */
  method ScanArc(ctx: Context, s: ArcScan, ghost tails: seq<int>, ghost heads: seq<int>, ghost lits: seq<int>, numNodes: nat,
                 tail: int, head: int, lit: int)
    returns (s': ArcScan, conflict: bool)
    requires Arcs(tails, heads, lits, numNodes) && Arcs(tails + [tail], heads + [head], lits + [lit], numNodes)
    requires Scanned(ctx.domains, tails, heads, lits, numNodes, s) && ctx.HasValues(lit)
    ensures conflict <==> !TrueTailsDistinct(ctx.domains, tails + [tail], lits + [lit])
    ensures !conflict ==> Scanned(ctx.domains, tails + [tail], heads + [head], lits + [lit], numNodes, s')
  {
    ExtendArcs(ctx.domains, tails, heads, lits, numNodes, tail, head, lit);
    ExtendDistinct(ctx.domains, tails, heads, lits, numNodes, tail, head, lit);
    assert (tails + [tail])[|lits|] == tail && (heads + [head])[|lits|] == head;
    LiteralQueries(ctx, lit);
    s' := s;
    if ctx.LiteralIsFalse(lit) {
      return s', false;
    }
    var next, numTrue, circuitStart := s.next, s.numTrue, s.circuitStart;
    if ctx.LiteralIsTrue(lit) {
      if next[tail] != -1 {
        return s', true;
      }
      next := next[tail := head];
      if tail != head {
        circuitStart := tail;
      }
      numTrue := numTrue + 1;
    }
    s' := KeepArc(s.(next := next, numTrue := numTrue, circuitStart := circuitStart), tail, head, lit);
    conflict := false;
  }

  /** The end of a turn on a kept arc: the degrees of its ends grow and the arc is written at position `new_size`. */
  method KeepArc(s: ArcScan, tail: int, head: int, lit: int) returns (s': ArcScan)
    requires 0 <= tail < |s.outDegree| && 0 <= head < |s.inDegree|
    requires forall n :: 0 <= n < |s.inDegree| ==> s.inDegree[n] == multiset(s.kept.heads)[n]
    requires forall n :: 0 <= n < |s.outDegree| ==> s.outDegree[n] == multiset(s.kept.tails)[n]
    ensures s'.kept == CircuitArgument(s.kept.tails + [tail], s.kept.heads + [head], s.kept.literals + [lit])
    ensures s'.next == s.next && s'.numTrue == s.numTrue && s'.circuitStart == s.circuitStart
    ensures |s'.inDegree| == |s.inDegree| && |s'.outDegree| == |s.outDegree|
    ensures forall n :: 0 <= n < |s'.inDegree| ==> s'.inDegree[n] == multiset(s'.kept.heads)[n]
    ensures forall n :: 0 <= n < |s'.outDegree| ==> s'.outDegree[n] == multiset(s'.kept.tails)[n]
  {
    CountsGrow(s.outDegree, s.kept.tails, tail);
    CountsGrow(s.inDegree, s.kept.heads, head);
    var outDegree := s.outDegree[tail := s.outDegree[tail] + 1];
    var inDegree := s.inDegree[head := s.inDegree[head] + 1];
    var kept := CircuitArgument(s.kept.tails + [tail], s.kept.heads + [head], s.kept.literals + [lit]);
    s' := s.(kept := kept, inDegree := inDegree, outDegree := outDegree);
  }

  /** An entry of a count per node follows the node's count in a list when that list grows by one node. */
  lemma CountsGrow(counts: seq<int>, nodes: seq<int>, node: int)
    requires 0 <= node < |counts| && forall n :: 0 <= n < |counts| ==> counts[n] == multiset(nodes)[n]
    ensures forall n :: 0 <= n < |counts| ==> counts[node := counts[node] + 1][n] == multiset(nodes + [node])[n]
  {
    assert multiset(nodes + [node]) == multiset(nodes) + multiset{node};
  }

  /**
   * The arc loop: stops at the first used arc leaving a node that already
   * has one, which happens exactly when two used arcs leave one node;
   * otherwise it gathers the kept arcs and the loop's variables.
   */
  method RemoveFalseArcs(ctx: Context, arg: CircuitArgument, numNodes: nat) returns (s: ArcScan, conflict: bool)
    requires Arcs(arg.tails, arg.heads, arg.literals, numNodes) && BooleanLits(ctx.domains, arg.literals)
    ensures conflict <==> !TrueTailsDistinct(ctx.domains, arg.tails, arg.literals)
    ensures !conflict ==> Scanned(ctx.domains, arg.tails, arg.heads, arg.literals, numNodes, s)
  {
    s := InitialScan(numNodes);
    for i := 0 to |arg.literals|
      invariant Arcs(arg.tails[..i], arg.heads[..i], arg.literals[..i], numNodes)
      invariant Scanned(ctx.domains, arg.tails[..i], arg.heads[..i], arg.literals[..i], numNodes, s)
    {
      assert arg.tails[..i + 1] == arg.tails[..i] + [arg.tails[i]] && arg.heads[..i + 1] == arg.heads[..i] + [arg.heads[i]];
      assert arg.literals[..i + 1] == arg.literals[..i] + [arg.literals[i]];
      var conflict;
      s, conflict := ScanArc(ctx, s, arg.tails[..i], arg.heads[..i], arg.literals[..i], numNodes, arg.tails[i], arg.heads[i], arg.literals[i]);
      if conflict {
        ConflictInPrefix(ctx.domains, arg.tails, arg.literals, i + 1);
        return s, true;
      }
    }
    assert arg.tails[..|arg.literals|] == arg.tails && arg.heads[..|arg.literals|] == arg.heads;
    assert arg.literals[..|arg.literals|] == arg.literals;
    conflict := false;
  }

  // ---------------------------------------------------------------------
  // Nodes left without arcs

  /** The node of some arc whose every incoming arc, or every outgoing arc, is fixed to false. */
  ghost predicate Stranded(domains: seq<Domains.Domain>, arg: CircuitArgument, n: int)
    requires |arg.tails| == |arg.literals| && |arg.heads| == |arg.literals|
  {
    (n in arg.tails || n in arg.heads) &&
    ((forall i :: 0 <= i < |arg.literals| && arg.heads[i] == n ==> FalseIn(domains, arg.literals[i])) ||
     (forall i :: 0 <= i < |arg.literals| && arg.tails[i] == n ==> FalseIn(domains, arg.literals[i])))
  }

  /** The kept arcs enter (leave) a node exactly when an arc not fixed to false does. */
  lemma {:induction false} KeptNodes(domains: seq<Domains.Domain>, tails: seq<int>, heads: seq<int>, lits: seq<int>, n: int)
    requires |tails| == |lits| && |heads| == |lits|
    ensures n in Kept(domains, tails, heads, lits).heads <==> exists i :: 0 <= i < |lits| && heads[i] == n && !FalseIn(domains, lits[i])
    ensures n in Kept(domains, tails, heads, lits).tails <==> exists i :: 0 <= i < |lits| && tails[i] == n && !FalseIn(domains, lits[i])
    decreases |lits|
  {
    if |lits| > 0 {
      var k := |lits| - 1;
      var t, h, l := tails[..k], heads[..k], lits[..k];
      KeptNodes(domains, t, h, l, n);
      forall i | 0 <= i < k
        ensures l[i] == lits[i] && t[i] == tails[i] && h[i] == heads[i]
      {
      }
    }
  }

  /** A node's list is empty exactly when no arc ends at it. */
  lemma ListEmpty(ends: seq<int>, lits: seq<int>, n: int)
    requires |ends| == |lits|
    ensures ArcsAt(ends, lits, n) == [] <==> n !in ends
  {
    ArcsAtMembers(ends, lits, n);
    if ArcsAt(ends, lits, n) != [] {
      assert ArcsAt(ends, lits, n)[0] in ArcsAt(ends, lits, n);
    }
    if n in ends {
      var i :| 0 <= i < |ends| && ends[i] == n;
      assert exists j :: 0 <= j < |ends| && ends[j] == n && lits[j] == lits[i];
      assert lits[i] in ArcsAt(ends, lits, n);
    }
  }

  /** The node a degree loop turn looks at: it has arcs, and lost all its kept arcs on one side. */
  predicate DegreeLost(incoming: seq<seq<int>>, outgoing: seq<seq<int>>, inDegree: seq<int>, outDegree: seq<int>, n: int)
    requires 0 <= n < |incoming| == |outgoing| == |inDegree| == |outDegree|
  {
    (incoming[n] != [] || outgoing[n] != []) && (inDegree[n] == 0 || outDegree[n] == 0)
  }

  /** The degree loop: is there a node with arcs that lost all its kept arcs on one side? */
  method CheckDegrees(incoming: seq<seq<int>>, outgoing: seq<seq<int>>, inDegree: seq<int>, outDegree: seq<int>) returns (stranded: bool)
    requires |incoming| == |outgoing| == |inDegree| == |outDegree|
    ensures stranded <==> exists n :: 0 <= n < |incoming| && DegreeLost(incoming, outgoing, inDegree, outDegree, n)
  {
    for i := 0 to |incoming|
      invariant forall n :: 0 <= n < i ==> !DegreeLost(incoming, outgoing, inDegree, outDegree, n)
    {
      if incoming[i] == [] && outgoing[i] == [] {
        continue;
      }
      if inDegree[i] == 0 || outDegree[i] == 0 {
        assert DegreeLost(incoming, outgoing, inDegree, outDegree, i);
        return true;
      }
    }
    return false;
  }

  /** On the graph and the loop's variables, the degree loop's test is `Stranded`. */
  lemma DegreeLostMeaning(domains: seq<Domains.Domain>, arg: CircuitArgument, numNodes: nat,
                          incoming: seq<seq<int>>, outgoing: seq<seq<int>>, s: ArcScan, n: int)
    requires Arcs(arg.tails, arg.heads, arg.literals, numNodes) && Scanned(domains, arg.tails, arg.heads, arg.literals, numNodes, s)
    requires |incoming| == numNodes && |outgoing| == numNodes
    requires forall n :: 0 <= n < numNodes ==> incoming[n] == ArcsAt(arg.heads, arg.literals, n)
    requires forall n :: 0 <= n < numNodes ==> outgoing[n] == ArcsAt(arg.tails, arg.literals, n)
    requires 0 <= n < numNodes
    ensures DegreeLost(incoming, outgoing, s.inDegree, s.outDegree, n) <==> Stranded(domains, arg, n)
  {
    ListEmpty(arg.heads, arg.literals, n);
    ListEmpty(arg.tails, arg.literals, n);
    KeptNodes(domains, arg.tails, arg.heads, arg.literals, n);
    assert s.inDegree[n] == 0 <==> n !in s.kept.heads;
    assert s.outDegree[n] == 0 <==> n !in s.kept.tails;
  }

  // ---------------------------------------------------------------------
  // The sub-circuit walk

  /** The node `k` steps of `next` away from `v`, or -1 once the walk has left the nodes. */
  function Follow(next: seq<int>, v: int, k: nat): (u: int)
    requires NextOk(next) && -1 <= v < |next|
    ensures -1 <= u < |next|
  {
    if k == 0 then v
    else
      var w := Follow(next, v, k - 1);
      if w == -1 then -1 else next[w]
  }

  /** `start` comes back to itself after one step or more. */
  ghost predicate OnCycle(next: seq<int>, start: int)
    requires NextOk(next) && -1 <= start < |next|
  {
    exists k: nat :: k >= 1 && Follow(next, start, k) == start
  }

  /** Walking `a + m` steps is walking `a` steps, then `m`. */
  lemma {:induction false} FollowCompose(next: seq<int>, v: int, a: nat, m: nat)
    requires NextOk(next) && -1 <= v < |next|
    ensures Follow(next, v, a + m) == Follow(next, Follow(next, v, a), m)
    decreases m
  {
    if m > 0 {
      FollowCompose(next, v, a, m - 1);
    }
  }

  /** A walk that has left the nodes never comes back. */
  lemma {:induction false} FollowStaysOff(next: seq<int>, m: nat)
    requires NextOk(next)
    ensures Follow(next, -1, m) == -1
    decreases m
  {
    if m > 0 {
      FollowStaysOff(next, m - 1);
    }
  }

  /** After a walk meets again the node it reached after `j` steps, every later step is one of the steps `j .. len - 1`. */
  lemma {:induction false} FollowInLoop(next: seq<int>, start: int, j: nat, len: nat, k: nat)
    requires NextOk(next) && -1 <= start < |next| && j < len <= k
    requires Follow(next, start, len) == Follow(next, start, j)
    ensures exists i :: j <= i < len && Follow(next, start, i) == Follow(next, start, k)
    decreases k
  {
    var p := len - j;
    FollowCompose(next, start, len, k - len);
    FollowCompose(next, start, j, k - len);
    assert Follow(next, start, k) == Follow(next, start, k - p);
    if k - p >= len {
      FollowInLoop(next, start, j, len, k - p);
    } else {
      assert j <= k - p < len;
    }
  }

  /** `path` is the walk from `start`, step by step, stays on the nodes and visits no node twice. */
  predicate Walk(next: seq<int>, start: int, path: seq<int>)
    requires NextOk(next) && -1 <= start < |next|
  {
    (forall j :: 0 <= j < |path| ==> path[j] == Follow(next, start, j) && path[j] != -1) &&
    (forall i, j :: 0 <= i < j < |path| ==> path[i] != path[j])
  }

  /**
   * A walk from `start` that then reaches -1 or a node it visited, other
   * than `start`, never returns to `start`.
   */
  lemma NotOnCycle(next: seq<int>, start: int, path: seq<int>)
    requires NextOk(next) && 0 <= start < |next| && |path| >= 1 && Walk(next, start, path)
    requires Follow(next, start, |path|) == -1 || Follow(next, start, |path|) in path[1..]
    ensures !OnCycle(next, start)
  {
    forall k: nat | k >= 1
      ensures Follow(next, start, k) != start
    {
      NoReturnAt(next, start, path, k);
    }
  }

  /** One step count of `NotOnCycle`. */
  lemma NoReturnAt(next: seq<int>, start: int, path: seq<int>, k: nat)
    requires NextOk(next) && 0 <= start < |next| && |path| >= 1 && k >= 1 && Walk(next, start, path)
    requires Follow(next, start, |path|) == -1 || Follow(next, start, |path|) in path[1..]
    ensures Follow(next, start, k) != start
  {
    var len := |path|;
    assert path[0] == start;
    if k < len {
      assert path[0] != path[k];
    } else if Follow(next, start, len) == -1 {
      NoReturnAfterExit(next, start, len, k);
    } else {
      var j :| 0 < j < len && Follow(next, start, len) == path[j];
      var i := NoReturnInLoop(next, start, j, len, k);
      assert path[0] != path[i];
    }
  }

  /** Once the walk has left the nodes it stays off them. */
  lemma NoReturnAfterExit(next: seq<int>, start: int, len: nat, k: nat)
    requires NextOk(next) && -1 <= start < |next| && len <= k && Follow(next, start, len) == -1
    ensures Follow(next, start, k) == -1
  {
    FollowCompose(next, start, len, k - len);
    FollowStaysOff(next, k - len);
  }

  /** `FollowInLoop`, with the step it names. */
  lemma NoReturnInLoop(next: seq<int>, start: int, j: nat, len: nat, k: nat) returns (i: nat)
    requires NextOk(next) && -1 <= start < |next| && j < len <= k
    requires Follow(next, start, len) == Follow(next, start, j)
    ensures j <= i < len && Follow(next, start, i) == Follow(next, start, k)
  {
    FollowInLoop(next, start, j, len, k);
    i :| j <= i < len && Follow(next, start, i) == Follow(next, start, k);
  }

  /**
   * The walk of the sub-circuit test: from `start`, follow `next` until
   * leaving the nodes or meeting a visited node. `visited` marks the nodes
   * of the walk `path`; the walk is closed exactly when `start` lies on a
   * cycle of `next`, and then `path` is that cycle.
   */
  method FindSubCircuit(next: seq<int>, start: int) returns (closed: bool, visited: seq<bool>, ghost path: seq<int>)
    requires NextOk(next) && 0 <= start < |next|
    ensures |visited| == |next| && |path| >= 1 && Walk(next, start, path)
    ensures forall v :: 0 <= v < |next| ==> (visited[v] <==> v in path)
    ensures closed <==> Follow(next, start, |path|) == start
    ensures closed <==> OnCycle(next, start)
  {
    visited := seq(|next|, _ => false);
    var current := start;
    path := [];
    while current != -1 && !visited[current]
      invariant |visited| == |next| && -1 <= current < |next| && current == Follow(next, start, |path|)
      invariant Walk(next, start, path)
      invariant forall v :: 0 <= v < |next| ==> (visited[v] <==> v in path)
      invariant path == [] ==> current == start
      decreases set v | 0 <= v < |visited| && !visited[v]
    {
      ghost var unvisited := set v | 0 <= v < |visited| && !visited[v];
      visited := visited[current := true];
      assert current in unvisited && (set v | 0 <= v < |visited| && !visited[v]) == unvisited - {current};
      path := path + [current];
      current := next[current];
    }
    closed := current == start;
    WalkOutcome(next, start, path, visited);
  }

  /** Where the walk stops tells whether `start` is on a cycle. */
  lemma WalkOutcome(next: seq<int>, start: int, path: seq<int>, visited: seq<bool>)
    requires NextOk(next) && 0 <= start < |next| && |visited| == |next| && Walk(next, start, path)
    requires forall v :: 0 <= v < |next| ==> (visited[v] <==> v in path)
    requires Follow(next, start, |path|) == -1 || visited[Follow(next, start, |path|)]
    ensures |path| >= 1
    ensures Follow(next, start, |path|) == start <==> OnCycle(next, start)
  {
    assert Follow(next, start, 0) == start;
    var end := Follow(next, start, |path|);
    if end == start {
      assert OnCycle(next, start);
    } else {
      if end != -1 {
        var j :| 0 <= j < |path| && path[j] == end;
        assert j != 0;
        assert path[1..][j - 1] == end;
      }
      NotOnCycle(next, start, path);
    }
  }

  /** A closed walk from a node that does not loop onto itself: each node's successor is the next node of the walk, or `start` after the last. */
  lemma CycleIsClosed(next: seq<int>, start: int, path: seq<int>)
    requires NextOk(next) && 0 <= start < |next| && |path| >= 1 && Walk(next, start, path)
    requires Follow(next, start, |path|) == start && next[start] != start
    ensures |path| >= 2 && path[0] == start
    ensures forall j :: 0 <= j < |path| ==> next[path[j]] == if j + 1 < |path| then path[j + 1] else start
  {
    forall j | 0 <= j < |path|
      ensures next[path[j]] == if j + 1 < |path| then path[j + 1] else start
    {
      assert Follow(next, start, j + 1) == next[path[j]];
    }
  }

  // ---------------------------------------------------------------------
  // Arcs outside the sub-circuit

  /** Every arc leaving a node outside the sub-circuit is fixed: a self-loop to true, any other arc to false. */
  predicate FixedOutside(domains: seq<Domains.Domain>, arg: CircuitArgument, visited: seq<bool>, k: nat)
    requires Arcs(arg.tails, arg.heads, arg.literals, |visited|) && k <= |arg.literals|
  {
    forall i :: 0 <= i < k && !visited[arg.tails[i]] ==>
      if arg.tails[i] == arg.heads[i] then TrueIn(domains, arg.literals[i]) else FalseIn(domains, arg.literals[i])
  }

  /** The loop fixing the arcs outside the sub-circuit. */
  method FixOutsideCircuit(ctx: Context, arg: CircuitArgument, visited: seq<bool>)
    requires ctx.Valid() && Arcs(arg.tails, arg.heads, arg.literals, |visited|) && BooleanLits(ctx.domains, arg.literals)
    modifies ctx`domains, ctx`modifiedDomains, ctx`isUnsat
    ensures ctx.Valid() && KeepsBoolean(old(ctx.domains), ctx.domains) && Shrinks(old(ctx.domains), ctx.domains)
    ensures old(ctx.isUnsat) ==> ctx.isUnsat
    ensures !ctx.isUnsat ==> FixedOutside(ctx.domains, arg, visited, |arg.literals|)
  {
    ghost var start := ctx.domains;
    for i := 0 to |arg.literals|
      invariant ctx.Valid() && KeepsBoolean(start, ctx.domains) && Shrinks(start, ctx.domains)
      invariant old(ctx.isUnsat) ==> ctx.isUnsat
      invariant BooleanLits(ctx.domains, arg.literals)
      invariant !ctx.isUnsat ==> FixedOutside(ctx.domains, arg, visited, i)
    {
      ghost var before := ctx.domains;
      FixOutsideArc(ctx, arg, visited, i);
      PresolveBool.ShrinksTransitive(start, before, ctx.domains);
      PresolveBool.KeepsBooleanTransitive(start, before, ctx.domains);
    }
  }

  /** One turn of the loop fixing the arcs outside the sub-circuit. */
  method FixOutsideArc(ctx: Context, arg: CircuitArgument, visited: seq<bool>, i: nat)
    requires ctx.Valid() && Arcs(arg.tails, arg.heads, arg.literals, |visited|) && BooleanLits(ctx.domains, arg.literals)
    requires i < |arg.literals|
    modifies ctx`domains, ctx`modifiedDomains, ctx`isUnsat
    ensures ctx.Valid() && KeepsBoolean(old(ctx.domains), ctx.domains) && Shrinks(old(ctx.domains), ctx.domains)
    ensures old(ctx.isUnsat) ==> ctx.isUnsat
    ensures BooleanLits(ctx.domains, arg.literals)
    ensures !ctx.isUnsat && FixedOutside(old(ctx.domains), arg, visited, i) ==> FixedOutside(ctx.domains, arg, visited, i + 1)
  {
    if visited[arg.tails[i]] {
      return;
    }
    ghost var before := ctx.domains;
    if arg.tails[i] == arg.heads[i] {
      ctx.SetLiteralToTrue(arg.literals[i]);
    } else {
      ctx.SetLiteralToFalse(arg.literals[i]);
    }
    BooleanLitsKept(before, ctx.domains, arg.literals);
    FixedLitsStay(before, ctx.domains, arg.literals);
  }

  // ---------------------------------------------------------------------
  // The sub-circuit

  /** Some used arc goes from `from` to `to`. */
  ghost predicate UsedArc(domains: seq<Domains.Domain>, arg: CircuitArgument, from: int, to: int)
    requires |arg.tails| == |arg.literals| && |arg.heads| == |arg.literals|
  {
    exists i :: 0 <= i < |arg.literals| && TrueIn(domains, arg.literals[i]) && arg.tails[i] == from && arg.heads[i] == to
  }

  /** The node after position `j` of a circuit: the next one, or the first after the last. */
  function Successor(path: seq<int>, j: nat): int
    requires j < |path|
  {
    if j + 1 < |path| then path[j + 1] else path[0]
  }

  /** `path` is a circuit of two nodes or more, each joined to its successor by a used arc. */
  ghost predicate UsedCycle(domains: seq<Domains.Domain>, arg: CircuitArgument, path: seq<int>)
    requires |arg.tails| == |arg.literals| && |arg.heads| == |arg.literals|
  {
    |path| >= 2 && (forall i, j :: 0 <= i < j < |path| ==> path[i] != path[j]) &&
    forall j :: 0 <= j < |path| ==> UsedArc(domains, arg, path[j], Successor(path, j))
  }

  /** A closed walk of `next` from the circuit start is a circuit of used arcs. */
  lemma UsedCycleOfWalk(domains: seq<Domains.Domain>, arg: CircuitArgument, numNodes: nat, next: seq<int>, start: int, path: seq<int>)
    requires Arcs(arg.tails, arg.heads, arg.literals, numNodes) && TrueTailsDistinct(domains, arg.tails, arg.literals)
    requires next == Next(domains, arg.tails, arg.heads, arg.literals, numNodes)
    requires start == CircuitStart(domains, arg.tails, arg.heads, arg.literals) && 0 <= start < numNodes
    requires |path| >= 1 && Walk(next, start, path) && Follow(next, start, |path|) == start
    ensures UsedCycle(domains, arg, path)
  {
    CircuitStartMeaning(domains, arg.tails, arg.heads, arg.literals, numNodes);
    NextMeaning(domains, arg.tails, arg.heads, arg.literals, numNodes);
    var k :| 0 <= k < |arg.literals| && TrueIn(domains, arg.literals[k]) && arg.tails[k] != arg.heads[k] && arg.tails[k] == start;
    assert next[start] == arg.heads[k];
    CycleIsClosed(next, start, path);
    forall j | 0 <= j < |path|
      ensures UsedArc(domains, arg, path[j], Successor(path, j))
    {
      assert next[path[j]] == Successor(path, j);
    }
  }

  /** Used arcs stay used while the domains shrink. */
  lemma UsedCycleStays(before: seq<Domains.Domain>, after: seq<Domains.Domain>, arg: CircuitArgument, path: seq<int>)
    requires |arg.tails| == |arg.literals| && |arg.heads| == |arg.literals|
    requires Shrinks(before, after) && BooleanLits(before, arg.literals) && BooleanLits(after, arg.literals)
    requires UsedCycle(before, arg, path)
    ensures UsedCycle(after, arg, path)
  {
    FixedLitsStay(before, after, arg.literals);
    forall j | 0 <= j < |path|
      ensures UsedArc(after, arg, path[j], Successor(path, j))
    {
      assert UsedArc(before, arg, path[j], Successor(path, j));
      var i :| 0 <= i < |arg.literals| && TrueIn(before, arg.literals[i]) && arg.tails[i] == path[j] && arg.heads[i] == Successor(path, j);
      assert TrueIn(after, arg.literals[i]);
    }
  }

  /**
   * The sub-circuit test: walk `next` from the circuit start; when the
   * walk closes, the used arcs hold a circuit through the visited nodes,
   * and every arc leaving a node outside it is fixed.
   */
  method CloseSubCircuit(ctx: Context, arg: CircuitArgument, numNodes: nat, s: ArcScan)
    returns (closed: bool, visited: seq<bool>, ghost path: seq<int>)
    requires ctx.Valid() && Arcs(arg.tails, arg.heads, arg.literals, numNodes) && BooleanLits(ctx.domains, arg.literals)
    requires Scanned(ctx.domains, arg.tails, arg.heads, arg.literals, numNodes, s) && s.circuitStart != -1
    modifies ctx`domains, ctx`modifiedDomains, ctx`isUnsat
    ensures ctx.Valid() && KeepsBoolean(old(ctx.domains), ctx.domains) && Shrinks(old(ctx.domains), ctx.domains)
    ensures old(ctx.isUnsat) ==> ctx.isUnsat
    ensures !closed ==> ctx.domains == old(ctx.domains) && ctx.isUnsat == old(ctx.isUnsat)
    ensures closed ==> |visited| == numNodes && (forall v :: 0 <= v < numNodes ==> (visited[v] <==> v in path))
    ensures closed ==> UsedCycle(ctx.domains, arg, path)
    ensures closed && !ctx.isUnsat ==> FixedOutside(ctx.domains, arg, visited, |arg.literals|)
  {
    CircuitStartMeaning(ctx.domains, arg.tails, arg.heads, arg.literals, numNodes);
    closed, visited, path := FindSubCircuit(s.next, s.circuitStart);
    if closed {
      UsedCycleOfWalk(ctx.domains, arg, numNodes, s.next, s.circuitStart, path);
      ghost var before := ctx.domains;
      FixOutsideCircuit(ctx, arg, visited);
      BooleanLitsKept(before, ctx.domains, arg.literals);
      UsedCycleStays(before, ctx.domains, arg, path);
    }
  }

  // ---------------------------------------------------------------------
  // The rule

  /** Every list of one literal holds a used arc. */
  predicate SinglesTrue(domains: seq<Domains.Domain>, lists: seq<seq<int>>)
  {
    forall k :: 0 <= k < |lists| && |lists[k]| == 1 ==> TrueIn(domains, lists[k][0])
  }

  /** Used single arcs stay used while the domains shrink. */
  lemma SinglesStay(before: seq<Domains.Domain>, after: seq<Domains.Domain>, lists: seq<seq<int>>)
    requires Shrinks(before, after)
    requires forall k :: 0 <= k < |lists| ==> BooleanLits(before, lists[k]) && BooleanLits(after, lists[k])
    requires SinglesTrue(before, lists)
    ensures SinglesTrue(after, lists)
  {
    forall k | 0 <= k < |lists| && |lists[k]| == 1
      ensures TrueIn(after, lists[k][0])
    {
      FixedStays(before, after, lists[k][0]);
    }
  }

  /**
   * The graph and the first loop: every node whose only incoming (or only
   * outgoing) arc is one arc has that arc used, and in every list holding
   * a used arc the others are unused.
   */
  method FixForcedArcs(ctx: Context, arg: CircuitArgument) returns (incoming: seq<seq<int>>, outgoing: seq<seq<int>>)
    requires ctx.Valid() && WellFormed(arg) && BooleanLits(ctx.domains, arg.literals)
    modifies ctx`domains, ctx`modifiedDomains, ctx`isUnsat
    ensures ctx.Valid() && KeepsBoolean(old(ctx.domains), ctx.domains) && Shrinks(old(ctx.domains), ctx.domains)
    ensures old(ctx.isUnsat) ==> ctx.isUnsat
    ensures BooleanLits(ctx.domains, arg.literals)
    ensures |incoming| == NodeCount(arg.tails, arg.heads) && |outgoing| == |incoming|
    ensures forall n :: 0 <= n < |incoming| ==> incoming[n] == ArcsAt(arg.heads, arg.literals, n)
    ensures forall n :: 0 <= n < |outgoing| ==> outgoing[n] == ArcsAt(arg.tails, arg.literals, n)
    ensures !ctx.isUnsat ==> SinglesTrue(ctx.domains, incoming) && SinglesTrue(ctx.domains, outgoing)
  {
    incoming, outgoing := BuildGraph(arg);
    forall n | 0 <= n < |incoming|
      ensures BooleanLits(ctx.domains, incoming[n]) && BooleanLits(ctx.domains, outgoing[n])
    {
      ListIsBoolean(ctx.domains, arg.heads, arg.literals, n);
      ListIsBoolean(ctx.domains, arg.tails, arg.literals, n);
    }
    ghost var start := ctx.domains;
    FixArcLists(ctx, incoming);
    ghost var middle := ctx.domains;
    forall n | 0 <= n < |incoming|
      ensures BooleanLits(middle, incoming[n]) && BooleanLits(middle, outgoing[n])
    {
      BooleanLitsKept(start, middle, incoming[n]);
      BooleanLitsKept(start, middle, outgoing[n]);
    }
    FixArcLists(ctx, outgoing);
    forall n | 0 <= n < |incoming|
      ensures BooleanLits(ctx.domains, incoming[n])
    {
      BooleanLitsKept(middle, ctx.domains, incoming[n]);
    }
    if !ctx.isUnsat {
      SinglesStay(middle, ctx.domains, incoming);
    }
    BooleanLitsKept(start, middle, arg.literals);
    BooleanLitsKept(middle, ctx.domains, arg.literals);
    PresolveBool.ShrinksTransitive(start, middle, ctx.domains);
    PresolveBool.KeepsBooleanTransitive(start, middle, ctx.domains);
  }

  /** Which way the rule ended; the sub-circuit holds the walk's marks and nodes. */
  datatype CircuitOutcome =
    | Enforced
    | TwoUsedArcsLeaveANode
    | NodeStranded
    | SubCircuit(visited: seq<bool>, path: seq<int>)
    | AllSelfLoops
    | FalseArcsRemoved
    | Unchanged

  /** Every arc is fixed: unused, or a used self-loop. */
  predicate OnlySelfLoopsUsed(domains: seq<Domains.Domain>, arg: CircuitArgument)
    requires |arg.tails| == |arg.literals| && |arg.heads| == |arg.literals|
  {
    forall i :: 0 <= i < |arg.literals| ==>
      FalseIn(domains, arg.literals[i]) || (TrueIn(domains, arg.literals[i]) && arg.tails[i] == arg.heads[i])
  }

  /** No arc is fixed to false. */
  predicate NoneFalse(domains: seq<Domains.Domain>, lits: seq<int>)
  {
    forall i :: 0 <= i < |lits| ==> !FalseIn(domains, lits[i])
  }

  /** `visited` marks the nodes of `path`. */
  predicate Marks(visited: seq<bool>, path: seq<int>)
  {
    forall v :: 0 <= v < |visited| ==> (visited[v] <==> v in path)
  }

  /** No node lost all its kept arcs on one side. */
  lemma NoneStranded(domains: seq<Domains.Domain>, arg: CircuitArgument, numNodes: nat,
                     incoming: seq<seq<int>>, outgoing: seq<seq<int>>, s: ArcScan)
    requires Arcs(arg.tails, arg.heads, arg.literals, numNodes) && Scanned(domains, arg.tails, arg.heads, arg.literals, numNodes, s)
    requires |incoming| == numNodes && |outgoing| == numNodes
    requires forall n :: 0 <= n < numNodes ==> incoming[n] == ArcsAt(arg.heads, arg.literals, n)
    requires forall n :: 0 <= n < numNodes ==> outgoing[n] == ArcsAt(arg.tails, arg.literals, n)
    requires forall n :: 0 <= n < numNodes ==> !DegreeLost(incoming, outgoing, s.inDegree, s.outDegree, n)
    ensures forall n :: !Stranded(domains, arg, n)
  {
    forall n | Stranded(domains, arg, n)
      ensures false
    {
      assert 0 <= n < numNodes;
      DegreeLostMeaning(domains, arg, numNodes, incoming, outgoing, s, n);
    }
  }

  /**
   * Everything after the arc loop: the degree test, the sub-circuit test,
   * the all-self-loops test and the truncation of the arc lists.
   */
  method FinishCircuit(ct: Constraint, ctx: Context, arg: CircuitArgument, incoming: seq<seq<int>>, outgoing: seq<seq<int>>, s: ArcScan)
    returns (changed: bool, r: Constraint, ghost outcome: CircuitOutcome)
    requires ctx.Valid() && ct.body == Circuit(arg) && BooleanLits(ctx.domains, arg.literals)
    requires |incoming| == |outgoing| && Arcs(arg.tails, arg.heads, arg.literals, |incoming|)
    requires forall n :: 0 <= n < |incoming| ==> incoming[n] == ArcsAt(arg.heads, arg.literals, n)
    requires forall n :: 0 <= n < |outgoing| ==> outgoing[n] == ArcsAt(arg.tails, arg.literals, n)
    requires Scanned(ctx.domains, arg.tails, arg.heads, arg.literals, |incoming|, s)
    modifies ctx`domains, ctx`modifiedDomains, ctx`isUnsat
    ensures ctx.Valid() && KeepsBoolean(old(ctx.domains), ctx.domains) && Shrinks(old(ctx.domains), ctx.domains)
    ensures old(ctx.isUnsat) ==> ctx.isUnsat
    ensures outcome.NodeStranded? || outcome.SubCircuit? || outcome.AllSelfLoops? || outcome.FalseArcsRemoved? || outcome.Unchanged?
    ensures !outcome.SubCircuit? ==> ctx.domains == old(ctx.domains)
    ensures !outcome.SubCircuit? && !outcome.NodeStranded? ==> ctx.isUnsat == old(ctx.isUnsat)
    ensures outcome.NodeStranded? ==> changed && ctx.isUnsat && r == ct && exists n :: Stranded(ctx.domains, arg, n)
    ensures !outcome.NodeStranded? ==> forall n :: !Stranded(old(ctx.domains), arg, n)
    ensures outcome.SubCircuit? ==> changed && r == Cleared && |outcome.visited| == |incoming|
    ensures outcome.SubCircuit? ==> Marks(outcome.visited, outcome.path) && UsedCycle(ctx.domains, arg, outcome.path)
    ensures outcome.SubCircuit? && !ctx.isUnsat ==> FixedOutside(ctx.domains, arg, outcome.visited, |arg.literals|)
    ensures outcome.AllSelfLoops? ==> changed && r == Cleared && OnlySelfLoopsUsed(ctx.domains, arg)
    ensures outcome.FalseArcsRemoved? ==> changed && r == ct.(body := Circuit(Kept(ctx.domains, arg.tails, arg.heads, arg.literals)))
    ensures outcome.FalseArcsRemoved? ==> |Kept(ctx.domains, arg.tails, arg.heads, arg.literals).literals| < |arg.literals|
    ensures outcome.Unchanged? ==> !changed && r == ct && NoneFalse(ctx.domains, arg.literals)
  {
    var stranded := CheckDegrees(incoming, outgoing, s.inDegree, s.outDegree);
    if stranded {
      ghost var n :| 0 <= n < |incoming| && DegreeLost(incoming, outgoing, s.inDegree, s.outDegree, n);
      DegreeLostMeaning(ctx.domains, arg, |incoming|, incoming, outgoing, s, n);
      ctx.isUnsat := true;
      return true, ct, NodeStranded;
    }
    NoneStranded(ctx.domains, arg, |incoming|, incoming, outgoing, s);
    CircuitStartMeaning(ctx.domains, arg.tails, arg.heads, arg.literals, |incoming|);
    NumTrueMeaning(ctx.domains, arg.tails, arg.heads, arg.literals);
    KeptMeaning(ctx.domains, arg.tails, arg.heads, arg.literals);
    if s.circuitStart != -1 {
      var closed, visited;
      ghost var path;
      closed, visited, path := CloseSubCircuit(ctx, arg, |incoming|, s);
      if closed {
        return true, Cleared, SubCircuit(visited, path);
      }
    } else if s.numTrue == |s.kept.literals| {
      return true, Cleared, AllSelfLoops;
    }
    if |s.kept.literals| < |arg.literals| {
      return true, ct.(body := Circuit(s.kept)), FalseArcsRemoved;
    }
    return false, ct, Unchanged;
  }

  /**
   * The circuit rule. An enforced circuit is left alone. Otherwise the arcs
   * a node's lists force are fixed; two used arcs leaving one node, or a
   * node of some arc left without kept arcs in or out, make the model
   * infeasible; a used sub-circuit, or used arcs that are all self-loops,
   * decide the constraint, which is removed (with the arcs outside the
   * sub-circuit fixed); else the arcs fixed to false are dropped.
   */
  method PresolveCircuit(ct: Constraint, ctx: Context) returns (changed: bool, r: Constraint, ghost outcome: CircuitOutcome)
    requires ct.body.Circuit? && WellFormed(ct.body.circuit) && ctx.Valid() && ctx.AllBoolean(ct.body.circuit.literals)
    modifies ctx`domains, ctx`modifiedDomains, ctx`isUnsat
    ensures ctx.Valid() && KeepsBoolean(old(ctx.domains), ctx.domains) && Shrinks(old(ctx.domains), ctx.domains)
    ensures old(ctx.isUnsat) ==> ctx.isUnsat
    ensures outcome.Enforced? <==> ct.enforcement != []
    ensures outcome.Enforced? ==> !changed && r == ct && ctx.domains == old(ctx.domains) && ctx.isUnsat == old(ctx.isUnsat)
    ensures outcome.TwoUsedArcsLeaveANode? ==> changed && ctx.isUnsat && r == ct
    ensures outcome.TwoUsedArcsLeaveANode? ==> !TrueTailsDistinct(ctx.domains, ct.body.circuit.tails, ct.body.circuit.literals)
    ensures outcome.NodeStranded? ==> changed && ctx.isUnsat && r == ct && exists n :: Stranded(ctx.domains, ct.body.circuit, n)
    ensures outcome.SubCircuit? ==> changed && r == Cleared && |outcome.visited| == NodeCount(ct.body.circuit.tails, ct.body.circuit.heads)
    ensures outcome.SubCircuit? ==> Marks(outcome.visited, outcome.path) && UsedCycle(ctx.domains, ct.body.circuit, outcome.path)
    ensures outcome.SubCircuit? && !ctx.isUnsat ==> FixedOutside(ctx.domains, ct.body.circuit, outcome.visited, |ct.body.circuit.literals|)
    ensures outcome.AllSelfLoops? ==> changed && r == Cleared && OnlySelfLoopsUsed(ctx.domains, ct.body.circuit)
    ensures outcome.FalseArcsRemoved? ==>
      changed && r == ct.(body := Circuit(Kept(ctx.domains, ct.body.circuit.tails, ct.body.circuit.heads, ct.body.circuit.literals)))
    ensures outcome.FalseArcsRemoved? ==> r.body.Circuit? && |r.body.circuit.literals| < |ct.body.circuit.literals|
    ensures outcome.Unchanged? ==> !changed && r == ct && NoneFalse(ctx.domains, ct.body.circuit.literals)
    ensures outcome.AllSelfLoops? || outcome.FalseArcsRemoved? || outcome.Unchanged? ==>
      TrueTailsDistinct(ctx.domains, ct.body.circuit.tails, ct.body.circuit.literals)
    ensures outcome.AllSelfLoops? || outcome.FalseArcsRemoved? || outcome.Unchanged? ==>
      forall n :: !Stranded(ctx.domains, ct.body.circuit, n)
  {
    if ct.enforcement != [] {
      return false, ct, Enforced;
    }
    var arg := ct.body.circuit;
    AllBooleanLits(ctx, arg.literals);
    var incoming, outgoing := FixForcedArcs(ctx, arg);
    var s, conflict := RemoveFalseArcs(ctx, arg, |incoming|);
    if conflict {
      ctx.isUnsat := true;
      return true, ct, TwoUsedArcsLeaveANode;
    }
    ghost var before := ctx.domains;
    changed, r, outcome := FinishCircuit(ct, ctx, arg, incoming, outgoing, s);
    PresolveBool.ShrinksTransitive(old(ctx.domains), before, ctx.domains);
    PresolveBool.KeepsBooleanTransitive(old(ctx.domains), before, ctx.domains);
  }
}
