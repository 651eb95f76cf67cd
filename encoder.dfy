/**
 * The integer encoder: the link between Boolean literals and integer
 * literals `var >= bound`, and between Boolean literals and equalities
 * `var == value`.
 */
module Encoder {

  import opened Wrappers
  import opened IntegerTypes
  import opened Domains
  import opened Sat

  /** One entry of a variable's encoding: `literal` stands for `var >= bound`. */
  datatype Entry = Entry(bound: int, literal: Literal)

  datatype ValueLiteralPair = ValueLiteralPair(value: int, literal: Literal)

  /** An ordered map from bounds to literals: bounds strictly increase. */
  predicate Sorted(m: seq<Entry>)
  {
    forall i, j :: 0 <= i < j < |m| ==> m[i].bound < m[j].bound
  }

  /** Index of the first entry whose bound is at least `b`. */
  function LowerBound(m: seq<Entry>, b: int): (u: nat)
    ensures u <= |m|
    ensures forall k :: 0 <= k < u ==> m[k].bound < b
    ensures u < |m| ==> m[u].bound >= b
  {
    if |m| == 0 || m[0].bound >= b then 0 else 1 + LowerBound(m[1..], b)
  }

  /** Index of the first entry whose bound is above `b`. */
  function UpperBound(m: seq<Entry>, b: int): (u: nat)
    ensures u <= |m|
    ensures forall k :: 0 <= k < u ==> m[k].bound <= b
    ensures u < |m| ==> m[u].bound > b
  {
    if |m| == 0 || m[0].bound > b then 0 else 1 + UpperBound(m[1..], b)
  }

  /** In an ordered map a bound never exceeds the bound of a later entry. */
  lemma SortedStep(m: seq<Entry>, i: nat, j: nat)
    requires Sorted(m) && i <= j < |m|
    ensures m[i].bound <= m[j].bound
  {
  }

  /** In an ordered map every entry from `UpperBound(m, b)` on has a bound above `b`. */
  lemma AboveUpperBound(m: seq<Entry>, b: int)
    requires Sorted(m)
    ensures forall k :: UpperBound(m, b) <= k < |m| ==> m[k].bound > b
  {
    var u := UpperBound(m, b);
    forall k | u < k < |m|
      ensures m[k].bound > b
    {
      assert m[u].bound < m[k].bound;
    }
  }

  /** In an ordered map the entries before `UpperBound(m, b)` are those of bound at most `b`, the last one the largest. */
  lemma UpperBoundSplits(m: seq<Entry>, b: int)
    requires Sorted(m)
    ensures var u := UpperBound(m, b);
      (u == 0 <==> forall e :: e in m ==> e.bound > b) &&
      (u > 0 ==> m[u - 1] in m && m[u - 1].bound <= b && forall e :: e in m && e.bound <= b ==> e.bound <= m[u - 1].bound)
  {
    var u := UpperBound(m, b);
    AboveUpperBound(m, b);
    forall e | e in m && e.bound <= b
      ensures u > 0 && e.bound <= m[u - 1].bound
    {
      var k :| 0 <= k < |m| && m[k] == e;
      assert k < u;
      SortedStep(m, k, u - 1);
    }
    if u > 0 {
      assert m[u - 1] in m;
    }
  }

  /** The literal stored for bound `b`, if any. */
  function Find(m: seq<Entry>, b: int): Option<Literal>
  {
    if |m| == 0 || m[0].bound > b then None
    else if m[0].bound == b then Some(m[0].literal)
    else Find(m[1..], b)
  }

  /** In an ordered map, `Find` returns the one entry with that bound, and finds it at `LowerBound`. */
  lemma {:induction false} FindIsLookup(m: seq<Entry>, b: int)
    requires Sorted(m)
    ensures Find(m, b).None? <==> forall k :: 0 <= k < |m| ==> m[k].bound != b
    ensures forall l :: Find(m, b) == Some(l) <==> Entry(b, l) in m
  {
    if |m| > 0 && m[0].bound < b {
      FindIsLookup(m[1..], b);
      assert forall e :: e in m && e.bound == b ==> e in m[1..];
      assert forall k :: 1 <= k < |m| ==> m[k] == m[1..][k - 1];
    } else if |m| > 0 {
      assert forall k :: 0 < k < |m| ==> m[0].bound < m[k].bound;
    }
  }

  /** `m` with the entry `(b, l)` added at its place. */
  function Insert(m: seq<Entry>, b: int, l: Literal): (r: seq<Entry>)
    requires Sorted(m) && Find(m, b).None?
    ensures |r| == |m| + 1
    ensures forall e :: e in r <==> e == Entry(b, l) || e in m
  {
    if |m| == 0 || m[0].bound > b then [Entry(b, l)] + m
    else [m[0]] + Insert(m[1..], b, l)
  }

  /** Insertion keeps the bounds strictly increasing. */
  lemma {:induction false} InsertIsSorted(m: seq<Entry>, b: int, l: Literal)
    requires Sorted(m) && Find(m, b).None?
    ensures Sorted(Insert(m, b, l))
  {
    if |m| == 0 || m[0].bound > b {
      assert forall k :: 0 <= k < |m| ==> m[0].bound <= m[k].bound;
    } else {
      InsertIsSorted(m[1..], b, l);
      var r' := Insert(m[1..], b, l);
      forall e | e in m[1..] ensures m[0].bound < e.bound {
        var k :| 0 <= k < |m[1..]| && m[1..][k] == e;
        assert m[1..][k] == m[k + 1];
      }
      assert forall k :: 0 <= k < |r'| ==> r'[k] in r';
    }
  }

  /** After insertion, `b` finds `l` and every other bound finds what it found before. */
  lemma {:induction false} InsertFinds(m: seq<Entry>, b: int, l: Literal, b': int)
    requires Sorted(m) && Find(m, b).None?
    ensures Find(Insert(m, b, l), b') == if b' == b then Some(l) else Find(m, b')
  {
    if |m| == 0 || m[0].bound > b {
    } else {
      InsertFinds(m[1..], b, l, b');
    }
  }

  lemma InsertFindsAll(m: seq<Entry>, b: int, l: Literal)
    requires Sorted(m) && Find(m, b).None?
    ensures forall b' :: Find(Insert(m, b, l), b') == if b' == b then Some(l) else Find(m, b')
  {
    forall b' ensures Find(Insert(m, b, l), b') == if b' == b then Some(l) else Find(m, b') {
      InsertFinds(m, b, l, b');
    }
  }

  predicate IsClosestAbove(m: seq<Entry>, b: int, k: int)
  {
    0 <= k < |m| && m[k].bound > b && forall j :: 0 <= j < |m| && m[j].bound > b ==> m[k].bound <= m[j].bound
  }

  /** `m[k]` is the entry with the largest bound below `b`. */
  predicate IsClosestBelow(m: seq<Entry>, b: int, k: int)
  {
    0 <= k < |m| && m[k].bound < b && forall j :: 0 <= j < |m| && m[j].bound < b ==> m[j].bound <= m[k].bound
  }

  /** In an ordered map without bound `b`, the neighbours of `b` sit on each side of `LowerBound(m, b)`. */
  lemma ClosestNeighbours(m: seq<Entry>, b: int)
    requires Sorted(m) && Find(m, b).None?
    ensures var u := LowerBound(m, b);
      (u < |m| ==> IsClosestAbove(m, b, u)) &&
      (u > 0 ==> IsClosestBelow(m, b, u - 1)) &&
      (forall k :: IsClosestAbove(m, b, k) ==> k == u) &&
      (forall k :: IsClosestBelow(m, b, k) ==> k == u - 1)
  {
    var u := LowerBound(m, b);
    FindIsLookup(m, b);
    if u < |m| {
      forall j | 0 <= j < |m| && m[j].bound > b
        ensures m[u].bound <= m[j].bound
      {
        if j > u {
          assert m[u].bound < m[j].bound;
        }
      }
    }
    if u > 0 {
      forall j | 0 <= j < |m| && m[j].bound < b
        ensures m[j].bound <= m[u - 1].bound
      {
        if j < u - 1 {
          assert m[j].bound < m[u - 1].bound;
        }
      }
    }
    forall k | IsClosestAbove(m, b, k)
      ensures k == u
    {
    }
    forall k | IsClosestBelow(m, b, k)
      ensures k == u - 1
    {
    }
  }

  /**
   * The implications that tie a new literal for `var >= b` to its
   * neighbours in the ordered map: the literal of the closest bound above
   * implies it, and it implies the literal of the closest bound below.
   */
  function NeighbourClauses(m: seq<Entry>, b: int, lit: Literal): (cs: seq<seq<Literal>>)
    requires Sorted(m) && Find(m, b).None?
    ensures forall k :: IsClosestAbove(m, b, k) ==> [m[k].literal.Negated(), lit] in cs
    ensures forall k :: IsClosestBelow(m, b, k) ==> [lit.Negated(), m[k].literal] in cs
    ensures forall c :: c in cs ==>
      (exists k :: IsClosestAbove(m, b, k) && c == [m[k].literal.Negated(), lit]) ||
      (exists k :: IsClosestBelow(m, b, k) && c == [lit.Negated(), m[k].literal])
  {
    var u := LowerBound(m, b);
    ClosestNeighbours(m, b);
    (if u < |m| then [[m[u].literal.Negated(), lit]] else []) +
    (if u > 0 then [[lit.Negated(), m[u - 1].literal]] else [])
  }

  /** Entries of the encoding are never removed nor changed. */
  ghost predicate EncodingGrows(before: seq<seq<Entry>>, after: seq<seq<Entry>>)
  {
    |before| <= |after| &&
    forall v, b :: 0 <= v < |before| && Find(before[v], b).Some? ==> Find(after[v], b) == Find(before[v], b)
  }

  /** Domains come in pairs `v` / `NegationOf(v)`, each non-empty, valid, within the IntegerValue range, and mirrored. */
  ghost predicate DomainsValid(domains: seq<Domain>)
  {
    |domains| % 2 == 0 &&
    (forall v :: 0 <= v < |domains| ==>
       ValidWithin(domains[v], kMinIntegerValue, kMaxIntegerValue) && |domains[v]| > 0) &&
    (forall v {:trigger domains[NegationOf(v)]} :: 0 <= v < |domains| ==> domains[NegationOf(v)] == Negation(domains[v]))
  }

  ghost predicate EncodingSorted(encoding: seq<seq<Entry>>)
  {
    forall v :: 0 <= v < |encoding| ==> Sorted(encoding[v])
  }

  /** Equality literals are stored under both `(v, x)` and `(NegationOf(v), -x)`. */
  ghost predicate EqualitiesSymmetric(eq: map<(nat, int), Literal>)
  {
    forall k {:trigger Mirror(k)} :: k in eq ==> Mirror(k) in eq && eq[Mirror(k)] == eq[k]
  }

  /** The key of `NegationOf(v) == -x`, for the key of `v == x`. */
  function Mirror(k: (nat, int)): (nat, int)
  {
    (NegationOf(k.0), -k.1)
  }

  /** A fully encoded variable has an equality literal for every value of its domain. */
  ghost predicate FullyEncodedCovered(fully: set<nat>, domains: seq<Domain>, eq: map<(nat, int), Literal>)
  {
    forall v :: v in fully ==> v < |domains| && forall x :: Contains(domains[v], x) ==> (v, x) in eq
  }

  /** No clause is ever removed. */
  ghost predicate KeepsAll<T>(a: seq<T>, b: seq<T>)
  {
    forall x :: x in a ==> x in b
  }

  /** Old equality literals stay. */
  ghost predicate MapGrows<K, V>(a: map<K, V>, b: map<K, V>)
  {
    a.Keys <= b.Keys && forall k :: k in a ==> b[k] == a[k]
  }

  /** The parts of the encoder and of the Boolean solver that encoder operations only extend. */
  datatype EncoderState = EncoderState(
    encoding: seq<seq<Entry>>, equalities: map<(nat, int), Literal>, literalView: map<Literal, nat>,
    trueLiteral: Option<Literal>, numVariables: nat, clauses: seq<seq<Literal>>)

  /** Maps, encodings, variables and clauses only grow; the true literal, once created, stays. */
  ghost predicate Extends(a: EncoderState, b: EncoderState)
  {
    MapGrows(a.equalities, b.equalities) &&
    MapGrows(a.literalView, b.literalView) &&
    EncodingGrows(a.encoding, b.encoding) &&
    (a.trueLiteral.Some? ==> b.trueLiteral == a.trueLiteral) &&
    a.numVariables <= b.numVariables &&
    KeepsAll(a.clauses, b.clauses)
  }

  lemma ExtendsIsTransitive(a: EncoderState, b: EncoderState, c: EncoderState)
    requires Extends(a, b) && Extends(b, c)
    ensures Extends(a, c)
  {
  }

  /** An association, once made, stays. */
  lemma AssociatedStays(a: EncoderState, b: EncoderState, i: IntegerLiteral)
    requires Extends(a, b)
    requires i.variable < |a.encoding| && Find(a.encoding[i.variable], i.bound).Some?
    ensures i.variable < |b.encoding| && Find(b.encoding[i.variable], i.bound) == Find(a.encoding[i.variable], i.bound)
  {
  }

  /** Every (variable, value) pair of the domains is in `keys`. */
  ghost predicate KeysCoverDomains(domains: seq<Domain>, keys: set<(nat, int)>)
  {
    forall v, x {:trigger Contains(domains[v], x)} :: 0 <= v < |domains| && Contains(domains[v], x) ==> (v, x) in keys
  }

  /** The ordered map of variable `v`; empty for a variable never seen. */
  function VariableEncoding(enc: seq<seq<Entry>>, v: nat): seq<Entry>
  {
    if v < |enc| then enc[v] else []
  }

  /**
   * The encoding with `lit` stored for `i`: only the map of `i`'s variable
   * changes, it gains exactly `i`, and every other association is kept.
   */
  function WithEntry(enc: seq<seq<Entry>>, i: IntegerLiteral, lit: Literal): (r: seq<seq<Entry>>)
    requires EncodingSorted(enc) && Find(VariableEncoding(enc, i.variable), i.bound).None?
    ensures EncodingSorted(r) && EncodingGrows(enc, r)
    ensures |r| == if i.variable < |enc| then |enc| else i.variable + 1
    ensures r[i.variable] == Insert(VariableEncoding(enc, i.variable), i.bound, lit)
    ensures forall v :: 0 <= v < |r| && v != i.variable ==> r[v] == VariableEncoding(enc, v)
    ensures forall j: IntegerLiteral ::
      Find(VariableEncoding(r, j.variable), j.bound) == (if j == i then Some(lit) else Find(VariableEncoding(enc, j.variable), j.bound))
  {
    var m := VariableEncoding(enc, i.variable);
    InsertIsSorted(m, i.bound, lit);
    InsertFindsAll(m, i.bound, lit);
    var padded := if i.variable < |enc| then enc else enc + seq(i.variable + 1 - |enc|, _ => []);
    padded[i.variable := Insert(VariableEncoding(enc, i.variable), i.bound, lit)]
  }

  /** The two binary clauses making `a` and `b` equivalent; none when they are the same literal. */
  function EquivalenceClauses(a: Literal, b: Literal): (cs: seq<seq<Literal>>)
    ensures a == b ==> cs == []
    ensures a != b ==> [a, b.Negated()] in cs && [a.Negated(), b] in cs && |cs| == 2
  {
    if a == b then [] else [[a, b.Negated()], [a.Negated(), b]]
  }

  // ---------------------------------------------------------------------
  // Reading the encoding back

  /**
   * The candidates that have an equality literal of `v` which is not
   * false under `assignment`, each paired with that literal, in order.
   */
  function NotFalsePairs(v: nat, cands: seq<int>, eq: map<(nat, int), Literal>, assignment: map<nat, bool>): (r: seq<ValueLiteralPair>)
    ensures forall p :: p in r <==>
      p.value in cands && (v, p.value) in eq && p.literal == eq[(v, p.value)] && !FalseIn(assignment, p.literal)
  {
    if |cands| == 0 then []
    else
      var init := cands[..|cands| - 1];
      var x := cands[|cands| - 1];
      assert cands == init + [x];
      var rest := NotFalsePairs(v, init, eq, assignment);
      if (v, x) in eq && !FalseIn(assignment, eq[(v, x)]) then rest + [ValueLiteralPair(x, eq[(v, x)])] else rest
  }

  /** Values strictly increase along `r`. */
  predicate AscendingValues(r: seq<ValueLiteralPair>)
  {
    forall i, j :: 0 <= i < j < |r| ==> r[i].value < r[j].value
  }

  /** Values never decrease along `r`. */
  predicate NonDecreasingValues(r: seq<ValueLiteralPair>)
  {
    forall i, j :: 0 <= i < j < |r| ==> r[i].value <= r[j].value
  }

  /**
   * Over non-decreasing candidates, the pairs come out with non-decreasing
   * values; with increasing values over increasing candidates.
   */
  lemma {:induction false} NotFalsePairsOrdered(v: nat, cands: seq<int>, eq: map<(nat, int), Literal>, assignment: map<nat, bool>)
    requires forall i, j :: 0 <= i < j < |cands| ==> cands[i] <= cands[j]
    ensures NonDecreasingValues(NotFalsePairs(v, cands, eq, assignment))
    ensures (forall i, j :: 0 <= i < j < |cands| ==> cands[i] < cands[j]) ==> AscendingValues(NotFalsePairs(v, cands, eq, assignment))
  {
    if |cands| > 0 {
      var init := cands[..|cands| - 1];
      var x := cands[|cands| - 1];
      var strict := forall i, j :: 0 <= i < j < |cands| ==> cands[i] < cands[j];
      assert forall i, j :: 0 <= i < j < |init| ==> init[i] <= init[j];
      assert strict ==> forall i, j :: 0 <= i < j < |init| ==> init[i] < init[j];
      NotFalsePairsOrdered(v, init, eq, assignment);
      var rest := NotFalsePairs(v, init, eq, assignment);
      forall i | 0 <= i < |rest|
        ensures rest[i].value <= x && (strict ==> rest[i].value < x)
      {
        assert rest[i] in rest;
        var j :| 0 <= j < |init| && init[j] == rest[i].value;
      }
      if (v, x) in eq && !FalseIn(assignment, eq[(v, x)]) {
        var r := rest + [ValueLiteralPair(x, eq[(v, x)])];
        assert NotFalsePairs(v, cands, eq, assignment) == r;
        forall i, j | 0 <= i < j < |r|
          ensures r[i].value <= r[j].value && (strict ==> r[i].value < r[j].value)
        {
          assert r[i] == rest[i];
          if j < |rest| {
            assert r[j] == rest[j];
          }
        }
      } else {
        assert NotFalsePairs(v, cands, eq, assignment) == rest;
      }
    }
  }

  /** The bounds of `m` strictly between `lo` and `hi`, in the order of `m`. */
  function BoundsBetween(m: seq<Entry>, lo: int, hi: int): (r: seq<int>)
    ensures forall x :: x in r <==> lo < x < hi && exists e :: e in m && e.bound == x
  {
    if |m| == 0 then []
    else
      var init := m[..|m| - 1];
      var e := m[|m| - 1];
      assert m == init + [e];
      BoundsBetween(init, lo, hi) + if lo < e.bound < hi then [e.bound] else []
  }

  /** Values strictly increase along `s`. */
  predicate Increasing(s: seq<int>)
  {
    forall i, j :: 0 <= i < j < |s| ==> s[i] < s[j]
  }

  /** Over a sorted map, the bounds between come out increasing. */
  lemma {:induction false} BoundsBetweenAscending(m: seq<Entry>, lo: int, hi: int)
    requires Sorted(m)
    ensures Increasing(BoundsBetween(m, lo, hi))
  {
    if |m| > 0 {
      var init := m[..|m| - 1];
      var e := m[|m| - 1];
      assert Sorted(init);
      BoundsBetweenAscending(init, lo, hi);
      var rest := BoundsBetween(init, lo, hi);
      forall i | 0 <= i < |rest|
        ensures rest[i] < e.bound
      {
        assert rest[i] in rest;
        var f :| f in init && f.bound == rest[i];
        var k :| 0 <= k < |init| && init[k] == f;
        assert m[k] == f;
      }
      var r := BoundsBetween(m, lo, hi);
      assert m == init + [e];
      if lo < e.bound < hi {
        assert r == rest + [e.bound];
        forall i, j | 0 <= i < j < |r|
          ensures r[i] < r[j]
        {
          assert r[i] == rest[i];
          if j < |rest| {
            assert r[j] == rest[j];
          }
        }
      } else {
        assert r == rest;
      }
    }
  }

  /** The domain minimum, increasing values strictly inside, then the maximum: a non-decreasing sequence. */
  lemma FramedNonDecreasing(lo: int, b: seq<int>, hi: int)
    requires lo <= hi && (forall x :: x in b ==> lo < x < hi)
    requires Increasing(b)
    ensures var c := [lo] + b + [hi]; forall i, j :: 0 <= i < j < |c| ==> c[i] <= c[j]
  {
    var c := [lo] + b + [hi];
    forall i, j | 0 <= i < j < |c|
      ensures c[i] <= c[j]
    {
      if 0 < i && j < |c| - 1 {
        assert c[i] == b[i - 1] && c[j] == b[j - 1];
      } else if 0 < i {
        assert c[i] == b[i - 1] && b[i - 1] in b;
      } else if j < |c| - 1 {
        assert c[j] == b[j - 1] && b[j - 1] in b;
      }
    }
  }

  /** Entries past `k` that are all at or above `hi` add nothing. */
  lemma {:induction false} BoundsBetweenStopsAtHi(m: seq<Entry>, lo: int, hi: int, k: nat)
    requires k <= |m|
    requires forall j :: k <= j < |m| ==> m[j].bound >= hi
    ensures BoundsBetween(m, lo, hi) == BoundsBetween(m[..k], lo, hi)
    decreases |m| - k
  {
    if k < |m| {
      var init := m[..|m| - 1];
      assert forall j :: k <= j < |init| ==> init[j] == m[j];
      BoundsBetweenStopsAtHi(init, lo, hi, k);
      assert init[..k] == m[..k];
    } else {
      assert m[..k] == m;
    }
  }

  /** The clauses `m[k] => m[k - 1]` between consecutive entries of one ordered map. */
  function ChainClauses(m: seq<Entry>): (cs: seq<seq<Literal>>)
    ensures |cs| == if |m| == 0 then 0 else |m| - 1
    ensures forall k :: 0 < k < |m| ==> cs[k - 1] == [m[k].literal.Negated(), m[k - 1].literal]
  {
    if |m| <= 1 then []
    else ChainClauses(m[..|m| - 1]) + [[m[|m| - 1].literal.Negated(), m[|m| - 2].literal]]
  }

  /** The chain clauses of every variable, variable after variable. */
  function AllChainClauses(enc: seq<seq<Entry>>): seq<seq<Literal>>
  {
    if |enc| == 0 then [] else AllChainClauses(enc[..|enc| - 1]) + ChainClauses(enc[|enc| - 1])
  }

  /** Every pair of consecutive entries of every variable gets its implication. */
  lemma {:induction false} AllChainClausesLinkNeighbours(enc: seq<seq<Entry>>, v: nat, k: nat)
    requires v < |enc| && 0 < k < |enc[v]|
    ensures [enc[v][k].literal.Negated(), enc[v][k - 1].literal] in AllChainClauses(enc)
  {
    var init := enc[..|enc| - 1];
    if v < |enc| - 1 {
      assert init[v] == enc[v];
      AllChainClausesLinkNeighbours(init, v, k);
    } else {
      assert ChainClauses(enc[v])[k - 1] in ChainClauses(enc[v]);
    }
  }

  /**
   * `r` stands for the integer literal `i` in state `s`, `d` being the
   * domain of `i`'s variable: it is the true literal for a bound at or below
   * the minimum, the false literal above the maximum, and otherwise the
   * literal associated with the canonical `>=` key or the negation of the
   * literal associated with the canonical `<=` key.
   */
  ghost predicate StandsFor(s: EncoderState, d: Domain, r: Literal, i: IntegerLiteral)
    requires ValidWithin(d, kMinIntegerValue, kMaxIntegerValue) && |d| > 0
  {
    (i.bound <= Min(d) ==> s.trueLiteral == Some(r)) &&
    (i.bound > Max(d) ==> s.trueLiteral == Some(r.Negated())) &&
    (Min(d) < i.bound <= Max(d) ==>
       var (after, before) := Canonicalize(d, i.bound);
       Find(VariableEncoding(s.encoding, i.variable), after) == Some(r) ||
       Find(VariableEncoding(s.encoding, NegationOf(i.variable)), -before) == Some(r.Negated()))
  }

  /** What a literal stands for stays so as the encoder grows. */
  lemma StandsForKept(a: EncoderState, b: EncoderState, d: Domain, r: Literal, i: IntegerLiteral)
    requires ValidWithin(d, kMinIntegerValue, kMaxIntegerValue) && |d| > 0
    requires Extends(a, b) && StandsFor(a, d, r, i)
    ensures StandsFor(b, d, r, i)
  {
  }

  /**
   * `r` is tied to `i` in `s`: `i` has a literal, and that literal is `r`
   * or two clauses of `s` make it equivalent to `r`.
   */
  ghost predicate TiedIn(s: EncoderState, r: Literal, i: IntegerLiteral)
  {
    var found := Find(VariableEncoding(s.encoding, i.variable), i.bound);
    found.Some? && forall c :: c in EquivalenceClauses(r, found.value) ==> c in s.clauses
  }

  /** A tie stays as the encoder grows. */
  lemma TiedKept(a: EncoderState, b: EncoderState, r: Literal, i: IntegerLiteral)
    requires Extends(a, b) && TiedIn(a, r, i)
    ensures TiedIn(b, r, i)
  {
    if i.variable < |a.encoding| {
      AssociatedStays(a, b, i);
    }
  }

  /**
   * `r` encodes the bound `i`, strictly inside the domain `d` of its
   * variable: `r` is tied to the canonical `>=` key of `i` and its negation
   * to the canonical `<=` key.
   */
  ghost predicate EncodesIn(s: EncoderState, d: Domain, r: Literal, i: IntegerLiteral)
    requires ValidWithin(d, kMinIntegerValue, kMaxIntegerValue) && |d| > 0
  {
    Min(d) < i.bound <= Max(d) &&
    var (after, before) := Canonicalize(d, i.bound);
    TiedIn(s, r, GreaterOrEqual(i.variable, after)) && TiedIn(s, r.Negated(), LowerOrEqual(i.variable, before))
  }

  /**
   * `r` is equivalent to `v >= value` and `v <= value` together in `s`, for
   * the domain `d` of `v`: `a` stands for the first, `b` for the second, and
   * the three clauses of `r <=> (a && b)` are in `s` (the literals of the
   * long clause taken in either order of `a` and `b`).
   */
  ghost predicate BothBoundsIn(s: EncoderState, d: Domain, r: Literal, v: nat, value: int)
    requires ValidWithin(d, kMinIntegerValue, kMaxIntegerValue) && |d| > 0
  {
    NegationWithin(d);
    exists a: Literal, b: Literal ::
      StandsFor(s, d, a, GreaterOrEqual(v, value)) &&
      StandsFor(s, Negation(d), b, LowerOrEqual(v, value)) &&
      [a, r.Negated()] in s.clauses && [b, r.Negated()] in s.clauses &&
      ([a.Negated(), b.Negated(), r] in s.clauses || [b.Negated(), a.Negated(), r] in s.clauses)
  }

  /**
   * The equality literal `r` of `v == value` in `s`, by where `value` lies in
   * the domain `d` of `v`: false outside `d`, true on a singleton `d`,
   * encoding `v <= value` at the minimum and `v >= value` at the maximum,
   * and equivalent to both bounds together in between.
   */
  ghost predicate EqualityLinkedIn(s: EncoderState, d: Domain, r: Literal, v: nat, value: int)
    requires ValidWithin(d, kMinIntegerValue, kMaxIntegerValue) && |d| > 0
  {
    NegationWithin(d);
    (!Contains(d, value) ==> [r.Negated()] in s.clauses) &&
    (value == Min(d) == Max(d) ==> [r] in s.clauses) &&
    (Contains(d, value) && value == Min(d) < Max(d) ==> EncodesIn(s, Negation(d), r, LowerOrEqual(v, value))) &&
    (Contains(d, value) && Min(d) < value == Max(d) ==> EncodesIn(s, d, r, GreaterOrEqual(v, value))) &&
    (Contains(d, value) && Min(d) < value < Max(d) ==> BothBoundsIn(s, d, r, v, value))
  }

  /**
   * `r` is linked as the literal of `v == value` to a domain `linked` of `v`
   * that holds every value of the current domain of `v`: domains only
   * shrink, so `linked` is the domain `v` had when the link was made.
   */
  ghost predicate LinkedWithin(s: EncoderState, domains: seq<Domain>, linked: Domain, r: Literal, v: nat, value: int)
  {
    v < |domains| && Valid(domains[v]) && ValidWithin(linked, kMinIntegerValue, kMaxIntegerValue) &&
    IsIncludedIn(domains[v], linked) && LinkHolds(s, linked, r, v, value)
  }

  /** `r` is linked as the literal of `v == value` to the non-empty domain `linked`. */
  ghost predicate LinkHolds(s: EncoderState, linked: Domain, r: Literal, v: nat, value: int)
  {
    ValidWithin(linked, kMinIntegerValue, kMaxIntegerValue) && |linked| > 0 && EqualityLinkedIn(s, linked, r, v, value)
  }

  /**
   * Every stored equality literal whose key `k` is not `pending` is linked
   * to the domain `under[k]`.
   */
  ghost predicate AllLinked(s: EncoderState, under: map<(nat, int), Domain>, pending: set<(nat, int)>)
  {
    (forall k :: k in s.equalities && k !in pending ==> k in under) &&
    forall k {:trigger LinkHolds(s, under[k], s.equalities[k], k.0, k.1)} ::
      k in s.equalities && k !in pending && k in under ==> LinkHolds(s, under[k], s.equalities[k], k.0, k.1)
  }

  /** Each domain a literal was linked to still holds the current domain of its variable: domains only shrink. */
  ghost predicate LinksCover(domains: seq<Domain>, under: map<(nat, int), Domain>)
  {
    forall k {:trigger CoveredAt(domains, under, k)} :: k in under ==> CoveredAt(domains, under, k)
  }

  /** The domain the key `k` was linked to holds the current domain of its variable. */
  ghost predicate CoveredAt(domains: seq<Domain>, under: map<(nat, int), Domain>, k: (nat, int))
  {
    k in under && k.0 < |domains| && Valid(domains[k.0]) && Valid(under[k]) && IsIncludedIn(domains[k.0], under[k])
  }

  /**
   * `r` is the literal of `v == value` in `s`: both keys are stored, the
   * stored literal is linked to the domain of `v`, and `r` is that literal
   * or two clauses make it equivalent to it.
   */
  ghost predicate EqualityMeaningIn(s: EncoderState, domains: seq<Domain>, r: Literal, v: nat, value: int)
  {
    (v, value) in s.equalities && (NegationOf(v), -value) in s.equalities &&
    (exists linked :: LinkedWithin(s, domains, linked, s.equalities[(v, value)], v, value)) &&
    forall c :: c in EquivalenceClauses(r, s.equalities[(v, value)]) ==> c in s.clauses
  }

  /** The link of `v == value` is also the link of `NegationOf(v) == -value`, the same equality seen from the negated variable. */
  lemma EqualityLinkedMirror(s: EncoderState, d: Domain, r: Literal, v: nat, value: int, w: nat, x: int)
    requires ValidWithin(d, kMinIntegerValue, kMaxIntegerValue) && |d| > 0
    requires EqualityLinkedIn(s, d, r, v, value) && w == NegationOf(v) && x == -value
    ensures ValidWithin(Negation(d), kMinIntegerValue, kMaxIntegerValue) && |Negation(d)| > 0
    ensures EqualityLinkedIn(s, Negation(d), r, w, x)
  {
    NegationWithin(d);
    NegationIsValidMirror(d);
    NegationOfPairs(v);
    var n := Negation(d);
    assert Contains(n, x) <==> Contains(d, value);
    assert LowerOrEqual(w, x) == GreaterOrEqual(v, value);
    assert GreaterOrEqual(w, x) == LowerOrEqual(v, value);
    if Contains(d, value) && Min(d) < value < Max(d) {
      var a, b :| StandsFor(s, d, a, GreaterOrEqual(v, value)) &&
        StandsFor(s, n, b, LowerOrEqual(v, value)) &&
        [a, r.Negated()] in s.clauses && [b, r.Negated()] in s.clauses &&
        ([a.Negated(), b.Negated(), r] in s.clauses || [b.Negated(), a.Negated(), r] in s.clauses);
      assert StandsFor(s, n, b, GreaterOrEqual(w, x));
      assert StandsFor(s, Negation(n), a, LowerOrEqual(w, x));
    }
  }

  /** A link to the domain stays as the encoder grows. */
  lemma EqualityLinkedKept(a: EncoderState, b: EncoderState, d: Domain, r: Literal, v: nat, value: int)
    requires ValidWithin(d, kMinIntegerValue, kMaxIntegerValue) && |d| > 0
    requires Extends(a, b) && EqualityLinkedIn(a, d, r, v, value)
    ensures EqualityLinkedIn(b, d, r, v, value)
  {
    NegationWithin(d);
    if Contains(d, value) && value == Min(d) < Max(d) {
      var i := LowerOrEqual(v, value);
      var (after, before) := Canonicalize(Negation(d), i.bound);
      TiedKept(a, b, r, GreaterOrEqual(i.variable, after));
      TiedKept(a, b, r.Negated(), LowerOrEqual(i.variable, before));
    }
    if Contains(d, value) && Min(d) < value == Max(d) {
      var i := GreaterOrEqual(v, value);
      var (after, before) := Canonicalize(d, i.bound);
      TiedKept(a, b, r, GreaterOrEqual(i.variable, after));
      TiedKept(a, b, r.Negated(), LowerOrEqual(i.variable, before));
    }
    if Contains(d, value) && Min(d) < value < Max(d) {
      var x, y :| StandsFor(a, d, x, GreaterOrEqual(v, value)) &&
        StandsFor(a, Negation(d), y, LowerOrEqual(v, value)) &&
        [x, r.Negated()] in a.clauses && [y, r.Negated()] in a.clauses &&
        ([x.Negated(), y.Negated(), r] in a.clauses || [y.Negated(), x.Negated(), r] in a.clauses);
      StandsForKept(a, b, d, x, GreaterOrEqual(v, value));
      StandsForKept(a, b, Negation(d), y, LowerOrEqual(v, value));
    }
  }

  /** Stored literals stay linked as the encoder grows, as long as every new key is pending. */
  lemma AllLinkedKept(a: EncoderState, b: EncoderState, under: map<(nat, int), Domain>, pending: set<(nat, int)>)
    requires Extends(a, b) && AllLinked(a, under, pending)
    requires forall k :: k in b.equalities && k !in a.equalities ==> k in pending
    ensures AllLinked(b, under, pending)
  {
    forall k | k in b.equalities && k !in pending
      ensures k in under && LinkHolds(b, under[k], b.equalities[k], k.0, k.1)
    {
      assert LinkHolds(a, under[k], a.equalities[k], k.0, k.1);
      EqualityLinkedKept(a, b, under[k], b.equalities[k], k.0, k.1);
    }
  }

  /** A pending key whose literal is now linked under `linked` leaves `pending`. */
  lemma AllLinkedSettle(s: EncoderState, under: map<(nat, int), Domain>, pending: set<(nat, int)>,
                        w: nat, x: int, r: Literal, linked: Domain)
    requires AllLinked(s, under, pending)
    requires (w, x) in s.equalities && s.equalities[(w, x)] == r && LinkHolds(s, linked, r, w, x)
    ensures AllLinked(s, under[(w, x) := linked], pending - {(w, x)})
  {
  }

  /** Links keep covering the domains when domains are appended, or shrink in place. */
  lemma LinksCoverShrink(domains: seq<Domain>, smaller: seq<Domain>, under: map<(nat, int), Domain>)
    requires LinksCover(domains, under)
    requires |domains| <= |smaller|
    requires forall w :: 0 <= w < |domains| ==> Valid(smaller[w]) && forall x :: Contains(smaller[w], x) ==> Contains(domains[w], x)
    ensures LinksCover(smaller, under)
  {
    forall k | k in under
      ensures CoveredAt(smaller, under, k)
    {
      assert CoveredAt(domains, under, k);
    }
  }

  /** What an equality literal means stays as the encoder grows. */
  lemma EqualityMeaningKept(a: EncoderState, b: EncoderState, domains: seq<Domain>, r: Literal, v: nat, value: int)
    requires Extends(a, b) && EqualityMeaningIn(a, domains, r, v, value)
    ensures EqualityMeaningIn(b, domains, r, v, value)
  {
    var linked :| LinkedWithin(a, domains, linked, a.equalities[(v, value)], v, value);
    EqualityLinkedKept(a, b, linked, a.equalities[(v, value)], v, value);
    assert LinkedWithin(b, domains, linked, b.equalities[(v, value)], v, value);
  }

  /** Each of the first `k` of `literals` means `v == values[j]` for its own `j`, as `EqualityMeaningIn` says. */
  ghost predicate MeaningsIn(s: EncoderState, domains: seq<Domain>, v: nat, values: seq<int>, literals: seq<Literal>, k: nat)
  {
    k <= |values| == |literals| &&
    forall j :: 0 <= j < k ==> EqualityMeaningIn(s, domains, literals[j], v, values[j])
  }

  /** Adding clauses, literals and variables keeps what each literal means. */
  lemma MeaningsKept(a: EncoderState, b: EncoderState, domains: seq<Domain>, v: nat, values: seq<int>, literals: seq<Literal>, k: nat)
    requires Extends(a, b) && MeaningsIn(a, domains, v, values, literals, k)
    ensures MeaningsIn(b, domains, v, values, literals, k)
  {
    forall j | 0 <= j < k
      ensures EqualityMeaningIn(b, domains, literals[j], v, values[j])
    {
      EqualityMeaningKept(a, b, domains, literals[j], v, values[j]);
    }
  }

  /**
   * A stored literal linked to the domain of `v` settles both of its keys;
   * `(w, x)` is the mirror key `(NegationOf(v), -value)`.
   */
  lemma LinkBoth(s: EncoderState, domains: seq<Domain>, under: map<(nat, int), Domain>, pending: set<(nat, int)>,
                 r: Literal, v: nat, value: int, w: nat, x: int)
    requires DomainsValid(domains) && v < |domains| && w == NegationOf(v) && x == -value
    requires (v, value) in s.equalities && s.equalities[(v, value)] == r
    requires (w, x) in s.equalities && s.equalities[(w, x)] == r
    requires AllLinked(s, under, pending) && LinksCover(domains, under) && EqualityLinkedIn(s, domains[v], r, v, value)
    ensures AllLinked(s, under[(v, value) := domains[v]][(w, x) := Negation(domains[v])], pending - {(v, value)} - {(w, x)})
    ensures LinksCover(domains, under[(v, value) := domains[v]][(w, x) := Negation(domains[v])])
  {
    LinkBothEnds(s, domains, r, v, value, w, x);
    AllLinkedSettle(s, under, pending, v, value, r, domains[v]);
    AllLinkedSettle(s, under[(v, value) := domains[v]], pending - {(v, value)}, w, x, r, Negation(domains[v]));
    LinksCoverSettle(domains, under, v, value, domains[v]);
    LinksCoverSettle(domains, under[(v, value) := domains[v]], w, x, Negation(domains[v]));
  }

  /** A key linked to a domain holding the current domain of its variable keeps the links covering the domains. */
  lemma LinksCoverSettle(domains: seq<Domain>, under: map<(nat, int), Domain>, w: nat, x: int, linked: Domain)
    requires LinksCover(domains, under)
    requires w < |domains| && Valid(domains[w]) && Valid(linked) && IsIncludedIn(domains[w], linked)
    ensures LinksCover(domains, under[(w, x) := linked])
  {
    var after := under[(w, x) := linked];
    forall k | k in after
      ensures CoveredAt(domains, after, k)
    {
      if k != (w, x) {
        assert CoveredAt(domains, under, k);
      }
    }
  }

  /** The literal linked to the domain of `v` is linked, under the negated domain, for `(w, x) == (NegationOf(v), -value)` too. */
  lemma LinkBothEnds(s: EncoderState, domains: seq<Domain>, r: Literal, v: nat, value: int, w: nat, x: int)
    requires DomainsValid(domains) && v < |domains| && w == NegationOf(v) && x == -value
    requires EqualityLinkedIn(s, domains[v], r, v, value)
    ensures LinkedWithin(s, domains, domains[v], r, v, value)
    ensures LinkedWithin(s, domains, Negation(domains[v]), r, w, x)
  {
    var d := domains[v];
    NegationInRange(v, |domains|);
    NegationOfPairs(v);
    assert domains[w] == Negation(d);
    EqualityLinkedMirror(s, d, r, v, value, w, x);
    NegationIsValidMirror(d);
    NegationWithin(d);
  }

  /** One more literal that means its value extends `MeaningsIn` by one. */
  lemma MeaningsStep(s: EncoderState, domains: seq<Domain>, v: nat, values: seq<int>, literals: seq<Literal>, k: nat)
    requires MeaningsIn(s, domains, v, values, literals, k) && k < |values|
    requires EqualityMeaningIn(s, domains, literals[k], v, values[k])
    ensures MeaningsIn(s, domains, v, values, literals, k + 1)
  {
  }

  /** Adding two keys to a set and removing them again gives the set back. */
  lemma AddThenRemove(p: set<(nat, int)>, a: (nat, int), b: (nat, int))
    requires a !in p && b !in p
    ensures p + {a, b} - {a, b} == p
  {
  }

  /** A literal equivalent to the stored literal of a settled key means its equality. */
  lemma MeaningOfStored(s: EncoderState, domains: seq<Domain>, under: map<(nat, int), Domain>, pending: set<(nat, int)>,
                        r: Literal, v: nat, value: int)
    requires AllLinked(s, under, pending) && LinksCover(domains, under)
    requires (v, value) in s.equalities && (NegationOf(v), -value) in s.equalities && (v, value) !in pending
    requires forall c :: c in EquivalenceClauses(r, s.equalities[(v, value)]) ==> c in s.clauses
    ensures EqualityMeaningIn(s, domains, r, v, value)
  {
    assert LinkHolds(s, under[(v, value)], s.equalities[(v, value)], v, value);
    assert CoveredAt(domains, under, (v, value));
    assert LinkedWithin(s, domains, under[(v, value)], s.equalities[(v, value)], v, value);
  }

  lemma NegationInRange(v: nat, n: nat)
    requires n % 2 == 0 && v < n
    ensures NegationOf(v) < n
  {
  }

  class IntegerEncoder {
    const sat: SatSolver
    /** The initial domain of each integer variable; written by the integer trail. */
    var domains: seq<Domain>
    /** For each variable, the ordered map from bound to the literal of `var >= bound`. */
    var encodingByVar: seq<seq<Entry>>
    /** The literal of `var == value`, stored under `(var, value)` and `(NegationOf(var), -value)`. */
    var equalityToAssociatedLiteral: map<(nat, int), Literal>
    /** The integer literals each Boolean literal was associated with. */
    var reverseEncoding: map<Literal, seq<IntegerLiteral>>
    /** The 0-1 integer variable a literal is the view of, when it has one. */
    var literalView: map<Literal, nat>
    /** Integer literals associated with a literal already true at level zero. */
    var newlyFixedIntegerLiterals: seq<IntegerLiteral>
    var isFullyEncoded: set<nat>
    var addImplications: bool
    /** The literal fixed to true, once created. */
    var trueLiteral: Option<Literal>
    var numCreatedVariables: nat
    /** A finite set holding every (variable, value) pair of the domains; bounds the recursion below. */
    ghost var domainKeys: set<(nat, int)>
    /** For each stored equality key, the domain of its variable when its literal was linked. */
    ghost var linkDomains: map<(nat, int), Domain>
    /** Equality keys stored but not yet linked: empty except inside `InsertEqualityLiteral`. */
    ghost var pending: set<(nat, int)>

    ghost predicate Valid()
      reads this`domains, this`encodingByVar, this`equalityToAssociatedLiteral, this`isFullyEncoded, this`trueLiteral
      reads this`domainKeys
      reads sat`assignment, sat`numVariables
    {
      sat.Valid() &&
      DomainsValid(domains) &&
      KeysCoverDomains(domains, domainKeys) &&
      EncodingSorted(encodingByVar) &&
      EqualitiesSymmetric(equalityToAssociatedLiteral) &&
      FullyEncodedCovered(isFullyEncoded, domains, equalityToAssociatedLiteral) &&
      (trueLiteral.Some? ==> trueLiteral.value.variable < sat.numVariables)
    }

    /**
     * Every stored equality literal, except those of pending keys, is linked
     * (`EqualityLinkedIn`) to the domain its variable had when the link was
     * made, and that domain still holds the current one.
     */
    ghost predicate Linked()
      reads this`domains, this`encodingByVar, this`equalityToAssociatedLiteral, this`literalView, this`trueLiteral
      reads this`linkDomains, this`pending, sat`numVariables, sat`clauses
    {
      pending <= equalityToAssociatedLiteral.Keys && AllLinked(Snapshot(), linkDomains, pending) && LinksCover(domains, linkDomains)
    }

    /** What every operation of the encoder keeps: domains, old associations, the assignment, the clauses already added and the pending keys. */
    twostate predicate Grows()
      reads this`encodingByVar, this`equalityToAssociatedLiteral, this`literalView, this`trueLiteral
      reads sat`numVariables, sat`clauses, this`pending
    {
      Extends(old(Snapshot()), Snapshot()) && pending == old(pending)
    }

    ghost function Snapshot(): EncoderState
      reads this`encodingByVar, this`equalityToAssociatedLiteral, this`literalView, this`trueLiteral
      reads sat`numVariables, sat`clauses
    {
      EncoderState(encodingByVar, equalityToAssociatedLiteral, literalView, trueLiteral, sat.numVariables, sat.clauses)
    }

    /** A literal may be given a meaning: it is unassigned, or the solver is at level zero. */
    predicate CanFix(l: Literal)
      reads sat`level, sat`assignment
    {
      sat.level == 0 || !sat.VariableIsAssigned(l.variable)
    }

    predicate LiteralIsAssociated(i: IntegerLiteral)
      reads this`encodingByVar
    {
      i.variable < |encodingByVar| && Find(encodingByVar[i.variable], i.bound).Some?
    }

    function GetAssociatedLiteral(i: IntegerLiteral): (r: Option<Literal>)
      reads this`encodingByVar
      ensures r.Some? <==> LiteralIsAssociated(i)
    {
      Find(VariableEncoding(encodingByVar, i.variable), i.bound)
    }

    /** The integer literals associated with `l`. */
    function GetIntegerLiterals(l: Literal): seq<IntegerLiteral>
      reads this`reverseEncoding
    {
      var m := reverseEncoding;
      if l in m then m[l] else []
    }

    function VariableIsFullyEncoded(v: nat): bool
      reads this`isFullyEncoded
    {
      v in isFullyEncoded
    }

    /** The values of the domains that still have no equality literal; it shrinks along the recursion below. */
    ghost function Missing(): set<(nat, int)>
      reads this`domainKeys, this`equalityToAssociatedLiteral
    {
      domainKeys - equalityToAssociatedLiteral.Keys
    }

    constructor (s: SatSolver)
      requires s.Valid()
      ensures Valid()
      ensures sat == s && domains == [] && encodingByVar == [] && equalityToAssociatedLiteral == map[]
      ensures reverseEncoding == map[] && literalView == map[] && newlyFixedIntegerLiterals == []
      ensures isFullyEncoded == {} && !addImplications && trueLiteral == None && numCreatedVariables == 0
      ensures Linked() && pending == {}
    {
      sat := s;
      domains := [];
      encodingByVar := [];
      equalityToAssociatedLiteral := map[];
      reverseEncoding := map[];
      literalView := map[];
      newlyFixedIntegerLiterals := [];
      isFullyEncoded := {};
      addImplications := false;
      trueLiteral := None;
      numCreatedVariables := 0;
      domainKeys := {};
      linkDomains := map[];
      pending := {};
    }

    /** The literal fixed to true, created with a unit clause on first use. */
    method GetTrueLiteral() returns (l: Literal)
      requires Valid() && Linked()
      modifies this`trueLiteral, sat`numVariables, sat`clauses
      ensures Valid() && Linked() && Grows()
      ensures trueLiteral == Some(l)
      ensures old(trueLiteral).Some? ==> l == old(trueLiteral).value && sat.clauses == old(sat.clauses)
      ensures old(trueLiteral).None? ==> l == Literal(old(sat.numVariables), true) && sat.clauses == old(sat.clauses) + [[l]]
      ensures encodingByVar == old(encodingByVar) && equalityToAssociatedLiteral == old(equalityToAssociatedLiteral)
    {
      if trueLiteral.None? {
        var b := sat.NewBooleanVariable();
        trueLiteral := Some(Literal(b, true));
        sat.AddClause([Literal(b, true)]);
      }
      l := trueLiteral.value;
      AllLinkedKept(old(Snapshot()), Snapshot(), linkDomains, pending);
    }

    method GetFalseLiteral() returns (l: Literal)
      requires Valid() && Linked()
      modifies this`trueLiteral, sat`numVariables, sat`clauses
      ensures Valid() && Linked() && Grows()
      ensures trueLiteral == Some(l.Negated())
      ensures encodingByVar == old(encodingByVar) && equalityToAssociatedLiteral == old(equalityToAssociatedLiteral)
    {
      var t := GetTrueLiteral();
      l := t.Negated();
    }

    /**
     * Stores `lit` as the literal of `i` in the ordered map of `i`'s
     * variable, after adding the implications with its two neighbours when
     * implications are enabled.
     */
    method AddImplications(i: IntegerLiteral, lit: Literal)
      requires Valid() && Linked() && !LiteralIsAssociated(i)
      modifies this`encodingByVar, sat`clauses
      ensures Valid() && Linked()
      ensures encodingByVar == WithEntry(old(encodingByVar), i, lit)
      ensures sat.clauses == old(sat.clauses) +
        if addImplications then NeighbourClauses(VariableEncoding(old(encodingByVar), i.variable), i.bound, lit) else []
    {
      if addImplications {
        sat.AddClauses(NeighbourClauses(VariableEncoding(encodingByVar, i.variable), i.bound, lit));
      }
      encodingByVar := WithEntry(encodingByVar, i, lit);
      AllLinkedKept(old(Snapshot()), Snapshot(), linkDomains, pending);
    }

    /**
     * Gives `i` the literal `literal`, or, when `i` already has one,
     * makes the two literals equivalent.
     */
    method HalfAssociateGivenLiteral(i: IntegerLiteral, literal: Literal)
      requires Valid() && Linked()
      requires !LiteralIsAssociated(i) && sat.LiteralIsTrue(literal) ==> sat.level == 0
      modifies this`encodingByVar, this`reverseEncoding, this`newlyFixedIntegerLiterals, sat`clauses
      ensures Valid() && Linked() && Grows()
      ensures GetAssociatedLiteral(i) == if old(LiteralIsAssociated(i)) then old(GetAssociatedLiteral(i)) else Some(literal)
      ensures forall j :: j != i ==> GetAssociatedLiteral(j) == old(GetAssociatedLiteral(j))
      ensures old(LiteralIsAssociated(i)) ==>
        sat.clauses == old(sat.clauses) + EquivalenceClauses(literal, old(GetAssociatedLiteral(i)).value)
      ensures !old(LiteralIsAssociated(i)) ==> i in GetIntegerLiterals(literal)
      ensures TiedIn(Snapshot(), literal, i)
    {
      if !LiteralIsAssociated(i) {
        AddImplications(i, literal);
        if sat.LiteralIsTrue(literal) {
          newlyFixedIntegerLiterals := newlyFixedIntegerLiterals + [i];
        }
        reverseEncoding := reverseEncoding[literal := GetIntegerLiterals(literal) + [i]];
      } else {
        var associated := GetAssociatedLiteral(i).value;
        sat.AddClauses(EquivalenceClauses(literal, associated));
        AllLinkedKept(old(Snapshot()), Snapshot(), linkDomains, pending);
      }
    }

    /**
     * Returns the literal of `i`, creating it if needed. Bounds at or
     * below the domain minimum give the true literal, bounds above the
     * maximum the false literal; otherwise the bound is first canonicalized,
     * and a literal already attached to `x >= after` or to `x <= before`
     * is reused.
     */
    method GetOrCreateAssociatedLiteral(i: IntegerLiteral) returns (r: Literal)
      requires Valid() && Linked() && i.variable < |domains|
      modifies this`encodingByVar, this`equalityToAssociatedLiteral, this`reverseEncoding, this`literalView, this`linkDomains, this`pending
      modifies this`newlyFixedIntegerLiterals, this`trueLiteral, this`numCreatedVariables, sat`numVariables, sat`clauses
      ensures Valid() && Linked() && Grows()
      ensures var d := domains[i.variable];
        (i.bound <= Min(d) ==> trueLiteral == Some(r)) &&
        (i.bound > Max(d) ==> trueLiteral == Some(r.Negated())) &&
        (Min(d) < i.bound <= Max(d) ==>
           var (after, before) := Canonicalize(d, i.bound);
           var ge := GreaterOrEqual(i.variable, after);
           var le := LowerOrEqual(i.variable, before);
           (old(LiteralIsAssociated(ge)) ==> r == old(GetAssociatedLiteral(ge)).value) &&
           (!old(LiteralIsAssociated(ge)) && old(LiteralIsAssociated(le)) ==>
              r == old(GetAssociatedLiteral(le)).value.Negated()) &&
           (!old(LiteralIsAssociated(ge)) && !old(LiteralIsAssociated(le)) ==>
              r == Literal(old(sat.numVariables), true) &&
              GetAssociatedLiteral(ge) == Some(r) && GetAssociatedLiteral(le) == Some(r.Negated())))
      decreases Missing(), 7
    {
      var d := domains[i.variable];
      if i.bound <= Min(d) {
        r := GetTrueLiteral();
        return;
      }
      if i.bound > Max(d) {
        r := GetFalseLiteral();
        return;
      }
      var (after, before) := Canonicalize(d, i.bound);
      var ge := GreaterOrEqual(i.variable, after);
      var le := LowerOrEqual(i.variable, before);
      if LiteralIsAssociated(ge) {
        r := GetAssociatedLiteral(ge).value;
        return;
      }
      if LiteralIsAssociated(le) {
        r := GetAssociatedLiteral(le).value.Negated();
        return;
      }
      CanonicalizeIsIdempotent(d, i.bound, after);
      r := CreateAssociatedLiteral(i.variable, after, before);
    }

    /** A fresh literal for the canonical pair `v >= after` / `v <= before`, neither of which has a literal yet. */
    method CreateAssociatedLiteral(v: nat, after: int, before: int) returns (r: Literal)
      requires Valid() && Linked() && v < |domains| && Min(domains[v]) < after <= Max(domains[v])
      requires Canonicalize(domains[v], after) == (after, before)
      requires !LiteralIsAssociated(GreaterOrEqual(v, after)) && !LiteralIsAssociated(LowerOrEqual(v, before))
      modifies this`encodingByVar, this`equalityToAssociatedLiteral, this`reverseEncoding, this`literalView, this`linkDomains, this`pending
      modifies this`newlyFixedIntegerLiterals, this`trueLiteral, this`numCreatedVariables, sat`numVariables, sat`clauses
      ensures Valid() && Linked() && Grows()
      ensures r == Literal(old(sat.numVariables), true)
      ensures GetAssociatedLiteral(GreaterOrEqual(v, after)) == Some(r)
      ensures GetAssociatedLiteral(LowerOrEqual(v, before)) == Some(r.Negated())
      decreases Missing(), 6
    {
      ghost var s0 := Snapshot();
      numCreatedVariables := numCreatedVariables + 1;
      var b := sat.NewBooleanVariable();
      r := Literal(b, true);
      ghost var s1 := Snapshot();
      AllLinkedKept(s0, s1, linkDomains, pending);
      AssociateToIntegerLiteral(r, GreaterOrEqual(v, after));
      ExtendsIsTransitive(s0, s1, Snapshot());
    }

    /** Returns the literal of `var == value`, creating it if needed. */
    method GetOrCreateLiteralAssociatedToEquality(v: nat, value: int) returns (r: Literal)
      requires Valid() && Linked() && v < |domains|
      modifies this`encodingByVar, this`equalityToAssociatedLiteral, this`reverseEncoding, this`literalView, this`linkDomains, this`pending
      modifies this`newlyFixedIntegerLiterals, this`trueLiteral, this`numCreatedVariables, sat`numVariables, sat`clauses
      ensures Valid() && Linked() && Grows()
      ensures (v, value) in equalityToAssociatedLiteral && equalityToAssociatedLiteral[(v, value)] == r
      ensures (v, value) !in old(equalityToAssociatedLiteral) ==> r == Literal(old(sat.numVariables), true)
    {
      if (v, value) in equalityToAssociatedLiteral {
        r := equalityToAssociatedLiteral[(v, value)];
        return;
      }
      numCreatedVariables := numCreatedVariables + 1;
      var b := sat.NewBooleanVariable();
      r := Literal(b, true);
      AllLinkedKept(old(Snapshot()), Snapshot(), linkDomains, pending);
      AssociateToIntegerEqualValue(r, v, value);
    }

    /**
     * Makes `literal` equivalent to `i`. Outside the domain the literal is
     * fixed; inside, it is attached to the canonical pair of `i`, and when
     * that pair reaches the domain maximum (or minimum) the literal also
     * becomes the equality literal of that value.
     */
    method AssociateToIntegerLiteral(literal: Literal, i: IntegerLiteral)
      requires Valid() && Linked() && i.variable < |domains| && CanFix(literal)
      modifies this`encodingByVar, this`equalityToAssociatedLiteral, this`reverseEncoding, this`literalView, this`linkDomains, this`pending
      modifies this`newlyFixedIntegerLiterals, this`trueLiteral, this`numCreatedVariables, sat`numVariables, sat`clauses
      ensures Valid() && Linked() && Grows()
      ensures var d := domains[i.variable];
        (i.bound <= Min(d) ==> [literal] in sat.clauses) &&
        (i.bound > Max(d) ==> [literal.Negated()] in sat.clauses) &&
        (Min(d) < i.bound <= Max(d) ==>
           var (after, before) := Canonicalize(d, i.bound);
           var ge := GreaterOrEqual(i.variable, after);
           var le := LowerOrEqual(i.variable, before);
           LiteralIsAssociated(ge) && LiteralIsAssociated(le) &&
           (!old(LiteralIsAssociated(ge)) ==> GetAssociatedLiteral(ge) == Some(literal)) &&
           (!old(LiteralIsAssociated(le)) ==> GetAssociatedLiteral(le) == Some(literal.Negated())))
      ensures var d := domains[i.variable];
        Min(d) < i.bound <= Max(d) ==> Encodes(literal, i)
      decreases Missing(), 5
    {
      var d := domains[i.variable];
      if i.bound <= Min(d) {
        sat.AddClause([literal]);
        AllLinkedKept(old(Snapshot()), Snapshot(), linkDomains, pending);
      } else if i.bound > Max(d) {
        sat.AddClause([literal.Negated()]);
        AllLinkedKept(old(Snapshot()), Snapshot(), linkDomains, pending);
      } else {
        var (after, before) := Canonicalize(d, i.bound);
        AttachToCanonicalPair(literal, i.variable, after, before);
      }
    }

    /**
     * Gives `literal` to `var >= after` and its negation to `var <= before`
     * (or makes them equivalent to the literals already there); a pair that
     * reaches the domain maximum or minimum also fixes the equality literal
     * of that value.
     */
    method AttachToCanonicalPair(literal: Literal, v: nat, after: int, before: int)
      requires Valid() && Linked() && v < |domains| && CanFix(literal)
      modifies this`encodingByVar, this`equalityToAssociatedLiteral, this`reverseEncoding, this`literalView, this`linkDomains, this`pending
      modifies this`newlyFixedIntegerLiterals, this`trueLiteral, this`numCreatedVariables, sat`numVariables, sat`clauses
      ensures Valid() && Linked() && Grows()
      ensures var ge := GreaterOrEqual(v, after);
        var le := LowerOrEqual(v, before);
        LiteralIsAssociated(ge) && LiteralIsAssociated(le) &&
        (!old(LiteralIsAssociated(ge)) ==> GetAssociatedLiteral(ge) == Some(literal)) &&
        (!old(LiteralIsAssociated(le)) ==> GetAssociatedLiteral(le) == Some(literal.Negated())) &&
        TiedIn(Snapshot(), literal, ge) && TiedIn(Snapshot(), literal.Negated(), le)
      decreases Missing(), 4
    {
      var ge := GreaterOrEqual(v, after);
      var le := LowerOrEqual(v, before);
      NegationInRange(v, |domains|);
      NegationOfPairs(v);
      ghost var start := Snapshot();
      AssociateBothHalves(ge, le, literal);
      ghost var s2 := Snapshot();
      AssociateExtremeValue(literal, v, after, before);
      ExtendsIsTransitive(start, s2, Snapshot());
      AssociatedStays(s2, Snapshot(), ge);
      AssociatedStays(s2, Snapshot(), le);
      TiedKept(s2, Snapshot(), literal, ge);
      TiedKept(s2, Snapshot(), literal.Negated(), le);
    }

    /** Attaches `literal` to `ge` and its negation to `le`, each unless it already has a literal. */
    method AssociateBothHalves(ge: IntegerLiteral, le: IntegerLiteral, literal: Literal)
      requires Valid() && Linked() && ge != le && CanFix(literal)
      modifies this`encodingByVar, this`reverseEncoding, this`newlyFixedIntegerLiterals, sat`clauses
      ensures Valid() && Linked() && Grows()
      ensures LiteralIsAssociated(ge) && LiteralIsAssociated(le)
      ensures !old(LiteralIsAssociated(ge)) ==> GetAssociatedLiteral(ge) == Some(literal)
      ensures !old(LiteralIsAssociated(le)) ==> GetAssociatedLiteral(le) == Some(literal.Negated())
      ensures TiedIn(Snapshot(), literal, ge) && TiedIn(Snapshot(), literal.Negated(), le)
    {
      ghost var start := Snapshot();
      HalfAssociateGivenLiteral(ge, literal);
      ghost var s1 := Snapshot();
      HalfAssociateGivenLiteral(le, literal.Negated());
      ExtendsIsTransitive(start, s1, Snapshot());
      TiedKept(s1, Snapshot(), literal, ge);
    }

    /** When the pair `(after, before)` reaches the maximum (minimum) of the domain, `literal` (its negation) is the equality literal of that value. */
    method AssociateExtremeValue(literal: Literal, v: nat, after: int, before: int)
      requires Valid() && Linked() && v < |domains| && CanFix(literal)
      modifies this`encodingByVar, this`equalityToAssociatedLiteral, this`reverseEncoding, this`literalView, this`linkDomains, this`pending
      modifies this`newlyFixedIntegerLiterals, this`trueLiteral, this`numCreatedVariables, sat`numVariables, sat`clauses
      ensures Valid() && Linked() && Grows()
      ensures var d := domains[v];
        (after == Max(d) ==> (v, Max(d)) in equalityToAssociatedLiteral) &&
        (before == Min(d) ==> (v, Min(d)) in equalityToAssociatedLiteral)
      decreases Missing(), 3
    {
      var d := domains[v];
      ghost var start := Snapshot();
      if after == Max(d) {
        AssociateToIntegerEqualValue(literal, v, Max(d));
      }
      ghost var mid := Snapshot();
      if before == Min(d) {
        AssociateToIntegerEqualValue(literal.Negated(), v, Min(d));
        ExtendsIsTransitive(start, mid, Snapshot());
      }
    }

    /**
     * Makes `literal` the literal of `var == value` (and of
     * `NegationOf(var) == -value`), or equivalent to the one already there.
     */
    method AssociateToIntegerEqualValue(literal: Literal, v: nat, value: int)
      requires Valid() && Linked() && v < |domains| && CanFix(literal)
      modifies this`encodingByVar, this`equalityToAssociatedLiteral, this`reverseEncoding, this`literalView, this`linkDomains, this`pending
      modifies this`newlyFixedIntegerLiterals, this`trueLiteral, this`numCreatedVariables, sat`numVariables, sat`clauses
      ensures Valid() && Linked() && Grows()
      ensures (v, value) in equalityToAssociatedLiteral && (NegationOf(v), -value) in equalityToAssociatedLiteral
      ensures (v, value) !in old(equalityToAssociatedLiteral) ==>
        equalityToAssociatedLiteral[(v, value)] == literal && equalityToAssociatedLiteral[(NegationOf(v), -value)] == literal
      ensures (v, value) in old(equalityToAssociatedLiteral) ==>
        forall c :: c in EquivalenceClauses(literal, old(equalityToAssociatedLiteral)[(v, value)]) ==> c in sat.clauses
      ensures (v, value) !in old(equalityToAssociatedLiteral) ==> LinkedToDomain(literal, v, value)
      ensures (v, value) !in pending ==> EqualityMeaningIn(Snapshot(), domains, literal, v, value)
      decreases Missing(), 2
    {
      DetectLiteralView(literal, v, value);
      ghost var s0 := Snapshot();
      if (v, value) in equalityToAssociatedLiteral {
        assert Mirror((v, value)) in equalityToAssociatedLiteral;
        EquateWithRepresentative(literal, v, value);
      } else {
        InsertEqualityLiteral(literal, v, value);
      }
      ExtendsIsTransitive(old(Snapshot()), s0, Snapshot());
      if (v, value) !in pending {
        MeaningOfStored(Snapshot(), domains, linkDomains, pending, literal, v, value);
      }
    }

    /** Makes `literal` equivalent to the literal already stored for `var == value`. */
    method EquateWithRepresentative(literal: Literal, v: nat, value: int)
      requires Valid() && Linked() && (v, value) in equalityToAssociatedLiteral
      modifies sat`clauses
      ensures Valid() && Linked()
      ensures sat.clauses == old(sat.clauses) + EquivalenceClauses(literal, equalityToAssociatedLiteral[(v, value)])
    {
      var representative := equalityToAssociatedLiteral[(v, value)];
      sat.AddClauses(EquivalenceClauses(literal, representative));
      AllLinkedKept(old(Snapshot()), Snapshot(), linkDomains, pending);
    }

    /**
     * Stores `literal` for `var == value` and `NegationOf(var) == -value`,
     * then fixes it outside the domain or on a singleton domain, and
     * otherwise links it to the bound literals.
     */
    method InsertEqualityLiteral(literal: Literal, v: nat, value: int)
      requires Valid() && Linked() && v < |domains| && CanFix(literal) && (v, value) !in equalityToAssociatedLiteral
      modifies this`encodingByVar, this`equalityToAssociatedLiteral, this`reverseEncoding, this`literalView, this`linkDomains, this`pending
      modifies this`newlyFixedIntegerLiterals, this`trueLiteral, this`numCreatedVariables, sat`numVariables, sat`clauses
      ensures Valid() && Linked() && Grows()
      ensures (v, value) in equalityToAssociatedLiteral && equalityToAssociatedLiteral[(v, value)] == literal
      ensures (NegationOf(v), -value) in equalityToAssociatedLiteral && equalityToAssociatedLiteral[(NegationOf(v), -value)] == literal
      ensures LinkedToDomain(literal, v, value)
      decreases Missing(), 1
    {
      var d := domains[v];
      ghost var key, mirror := (v, value), (NegationOf(v), -value);
      NegationInRange(v, |domains|);
      NegationOfPairs(v);
      assert Mirror(mirror) == key && key !in pending && mirror !in pending;
      ghost var p0 := pending;
      RecordEquality(literal, v, value);
      ghost var s1 := Snapshot();
      if Contains(d, value) {
        assert (v, value) in old(Missing()) && (v, value) !in Missing();
      }
      LinkStoredEquality(literal, v, value, mirror.0, mirror.1, p0);
      ExtendsIsTransitive(old(Snapshot()), s1, Snapshot());
    }

    /**
     * Fixes the just stored equality literal `literal` of `v == value`, or
     * links it to the bound literals, then settles both of its keys.
     */
    method LinkStoredEquality(literal: Literal, v: nat, value: int, ghost w: nat, ghost x: int, ghost p0: set<(nat, int)>)
      requires Valid() && Linked() && v < |domains| && CanFix(literal) && w == NegationOf(v) && x == -value
      requires (v, value) in equalityToAssociatedLiteral && equalityToAssociatedLiteral[(v, value)] == literal
      requires (w, x) in equalityToAssociatedLiteral && equalityToAssociatedLiteral[(w, x)] == literal
      requires pending == p0 + {(v, value), (w, x)} && (v, value) !in p0 && (w, x) !in p0
      modifies this`encodingByVar, this`equalityToAssociatedLiteral, this`reverseEncoding, this`literalView, this`linkDomains, this`pending
      modifies this`newlyFixedIntegerLiterals, this`trueLiteral, this`numCreatedVariables, sat`numVariables, sat`clauses
      ensures Valid() && Linked() && Extends(old(Snapshot()), Snapshot()) && pending == p0
      ensures LinkedToDomain(literal, v, value)
      decreases Missing(), if Contains(domains[v], value) then 13 else 0
    {
      var d := domains[v];
      if !Contains(d, value) || (value == Min(d) && value == Max(d)) {
        FixEqualityLiteral(literal, v, value);
      } else {
        LinkEqualityToBounds(literal, v, value);
      }
      SettleLink(literal, v, value, w, x, p0);
    }

    /**
     * The literal of `(v, value)` is linked now: both of its keys, `(v, value)`
     * and `(w, x) == (NegationOf(v), -value)`, leave `pending`.
     */
    ghost method SettleLink(literal: Literal, v: nat, value: int, w: nat, x: int, p0: set<(nat, int)>)
      requires Valid() && Linked() && v < |domains| && LinkedToDomain(literal, v, value) && w == NegationOf(v) && x == -value
      requires (v, value) in equalityToAssociatedLiteral && equalityToAssociatedLiteral[(v, value)] == literal
      requires (w, x) in equalityToAssociatedLiteral && equalityToAssociatedLiteral[(w, x)] == literal
      requires pending == p0 + {(v, value), (w, x)} && (v, value) !in p0 && (w, x) !in p0
      modifies this`linkDomains, this`pending
      ensures Valid() && Linked() && pending == p0 && LinkedToDomain(literal, v, value)
    {
      LinkedToDomainStays(literal, v, value);
      MarkLinked(literal, v, value, w, x, p0);
    }

    /**
     * Records the link of the literal of `(v, value)` and of its mirror key
     * `(w, x) == (NegationOf(v), -value)` to the current domains.
     */
    ghost method MarkLinked(literal: Literal, v: nat, value: int, w: nat, x: int, p0: set<(nat, int)>)
      requires DomainsValid(domains) && Linked() && v < |domains| && w == NegationOf(v) && x == -value
      requires EqualityLinkedIn(Snapshot(), domains[v], literal, v, value)
      requires (v, value) in equalityToAssociatedLiteral && equalityToAssociatedLiteral[(v, value)] == literal
      requires (w, x) in equalityToAssociatedLiteral && equalityToAssociatedLiteral[(w, x)] == literal
      requires pending == p0 + {(v, value), (w, x)} && (v, value) !in p0 && (w, x) !in p0
      modifies this`linkDomains, this`pending
      ensures Linked() && pending == p0
      ensures linkDomains == old(linkDomains)[(v, value) := domains[v]][(w, x) := Negation(domains[v])]
    {
      var state := Snapshot();
      AddThenRemove(p0, (v, value), (w, x));
      LinkBoth(state, domains, linkDomains, pending, literal, v, value, w, x);
      linkDomains := linkDomains[(v, value) := domains[v]][(w, x) := Negation(domains[v])];
      pending := p0;
      assert Snapshot() == state;
    }

    /**
     * Fixes the equality literal `literal` of `v == value`: false when
     * `value` is outside the domain, true when the domain is `{value}`.
     */
    method FixEqualityLiteral(literal: Literal, v: nat, value: int)
      requires Valid() && Linked() && v < |domains|
      requires !Contains(domains[v], value) || (value == Min(domains[v]) && value == Max(domains[v]))
      modifies sat`clauses
      ensures Valid() && Linked() && Grows()
      ensures sat.clauses == old(sat.clauses) + [if Contains(domains[v], value) then [literal] else [literal.Negated()]]
      ensures LinkedToDomain(literal, v, value)
    {
      var d := domains[v];
      if !Contains(d, value) {
        sat.AddClause([literal.Negated()]);
      } else {
        sat.AddClause([literal]);
      }
      AllLinkedKept(old(Snapshot()), Snapshot(), linkDomains, pending);
    }

    /** Stores `literal` as the equality literal of `(v, value)` and of its mirror `(NegationOf(v), -value)`. */
    method RecordEquality(literal: Literal, v: nat, value: int)
      requires Valid() && Linked() && v < |domains| && (v, value) !in equalityToAssociatedLiteral
      modifies this`equalityToAssociatedLiteral, this`pending
      ensures Valid() && Linked() && Extends(old(Snapshot()), Snapshot())
      ensures equalityToAssociatedLiteral == old(equalityToAssociatedLiteral)[(v, value) := literal][(NegationOf(v), -value) := literal]
      ensures pending == old(pending) + {(v, value), (NegationOf(v), -value)}
      ensures Missing() == old(Missing()) - {(v, value), (NegationOf(v), -value)}
    {
      NegationInRange(v, |domains|);
      NegationOfPairs(v);
      assert Mirror(Mirror((v, value))) == (v, value);
      assert Mirror((v, value)) !in equalityToAssociatedLiteral;
      equalityToAssociatedLiteral := equalityToAssociatedLiteral[(v, value) := literal][(NegationOf(v), -value) := literal];
      pending := pending + {(v, value), (NegationOf(v), -value)};
      AllLinkedKept(old(Snapshot()), Snapshot(), linkDomains, pending);
    }

    /**
     * Records `literal` as the view of the 0-1 variable `v` when it stands
     * for `v == 1`, or of `NegationOf(v)` when it stands for `v == -1`; a
     * literal that already has a view keeps it.
     */
    method DetectLiteralView(literal: Literal, v: nat, value: int)
      requires Valid() && Linked() && v < |domains|
      modifies this`literalView
      ensures Valid() && Linked()
      ensures var d := domains[v];
        literalView ==
          if literal in old(literalView) then old(literalView)
          else if value == 1 && Min(d) >= 0 && Max(d) <= 1 then old(literalView)[literal := v]
          else if value == -1 && Min(d) >= -1 && Max(d) <= 0 then old(literalView)[literal := NegationOf(v)]
          else old(literalView)
    {
      var d := domains[v];
      if value == 1 && Min(d) >= 0 && Max(d) <= 1 && literal !in literalView {
        literalView := literalView[literal := v];
      }
      if value == -1 && Min(d) >= -1 && Max(d) <= 0 && literal !in literalView {
        literalView := literalView[literal := NegationOf(v)];
      }
      AllLinkedKept(old(Snapshot()), Snapshot(), linkDomains, pending);
    }

    /**
     * The last part of associating `literal` with `var == value`, for a value
     * inside a domain of at least two values: at the minimum the literal is
     * `var <= value`, at the maximum `var >= value`, and in between it is
     * tied by three clauses to the literals of those two bounds.
     */
    method LinkEqualityToBounds(literal: Literal, v: nat, value: int)
      requires Valid() && Linked() && v < |domains| && CanFix(literal)
      requires Contains(domains[v], value) && !(value == Min(domains[v]) && value == Max(domains[v]))
      modifies this`encodingByVar, this`equalityToAssociatedLiteral, this`reverseEncoding, this`literalView, this`linkDomains, this`pending
      modifies this`newlyFixedIntegerLiterals, this`trueLiteral, this`numCreatedVariables, sat`numVariables, sat`clauses
      ensures Valid() && Linked() && Grows()
      ensures LinkedToDomain(literal, v, value)
      decreases Missing(), 12
    {
      var d := domains[v];
      NegationInRange(v, |domains|);
      if value == Min(d) {
        NegationIsValidMirror(d);
        assert domains[NegationOf(v)] == Negation(d);
        AssociateToIntegerLiteral(literal, LowerOrEqual(v, value));
      } else if value == Max(d) {
        AssociateToIntegerLiteral(literal, GreaterOrEqual(v, value));
      } else {
        LinkToBothBounds(literal, v, value);
      }
    }

    /**
     * An inner value: `literal` is equivalent to `v >= value` and `v <= value`
     * together, by three clauses added last.
     */
    method LinkToBothBounds(literal: Literal, v: nat, value: int)
      requires Valid() && Linked() && v < |domains| && CanFix(literal)
      modifies this`encodingByVar, this`equalityToAssociatedLiteral, this`reverseEncoding, this`literalView, this`linkDomains, this`pending
      modifies this`newlyFixedIntegerLiterals, this`trueLiteral, this`numCreatedVariables, sat`numVariables, sat`clauses
      ensures Valid() && Linked() && Grows()
      ensures LinkedToBothBounds(literal, v, value)
      decreases Missing(), 11
    {
      ghost var s1 := Snapshot();
      var a, b := BoundLiterals(v, value);
      ghost var s3 := Snapshot();
      sat.AddClauses([[a, literal.Negated()], [b, literal.Negated()], [a.Negated(), b.Negated(), literal]]);
      AllLinkedKept(s3, Snapshot(), linkDomains, pending);
      ExtendsIsTransitive(s1, s3, Snapshot());
      NegationInRange(v, |domains|);
      StandsForKept(s3, Snapshot(), domains[v], a, GreaterOrEqual(v, value));
      StandsForKept(s3, Snapshot(), domains[NegationOf(v)], b, LowerOrEqual(v, value));
      assert sat.clauses[|sat.clauses| - 3..] == [[a, literal.Negated()], [b, literal.Negated()], [a.Negated(), b.Negated(), literal]];
    }

    /** `literal` encodes the bound `i` of one of the variables. */
    ghost predicate Encodes(literal: Literal, i: IntegerLiteral)
      requires Valid()
      reads this`domains, this`encodingByVar, this`equalityToAssociatedLiteral, this`isFullyEncoded, this`trueLiteral
      reads this`domainKeys, this`literalView, sat`assignment, sat`numVariables, sat`clauses
    {
      i.variable < |domains| && EncodesIn(Snapshot(), domains[i.variable], literal, i)
    }

    /**
     * What the equality literal `literal` of `v == value` is linked to, by
     * where `value` lies in the domain `d` of `v`: outside `d` it is false, on
     * a singleton `d` true, at the minimum it encodes `v <= value`, at the
     * maximum `v >= value`, and in between it is equivalent to both bounds
     * together.
     */
    ghost predicate LinkedToDomain(literal: Literal, v: nat, value: int)
      requires Valid() && v < |domains|
      reads this`domains, this`encodingByVar, this`equalityToAssociatedLiteral, this`isFullyEncoded, this`trueLiteral
      reads this`domainKeys, this`literalView, sat`assignment, sat`numVariables, sat`clauses
    {
      var d := domains[v];
      (!Contains(d, value) ==> [literal.Negated()] in sat.clauses) &&
      (value == Min(d) == Max(d) ==> [literal] in sat.clauses) &&
      (Contains(d, value) && value == Min(d) < Max(d) ==> Encodes(literal, LowerOrEqual(v, value))) &&
      (Contains(d, value) && Min(d) < value == Max(d) ==> Encodes(literal, GreaterOrEqual(v, value))) &&
      (Contains(d, value) && Min(d) < value < Max(d) ==> LinkedToBothBounds(literal, v, value))
    }

    /** A link to the domain made by the last call is one that stays as the encoder grows. */
    lemma LinkedToDomainStays(literal: Literal, v: nat, value: int)
      requires Valid() && v < |domains| && LinkedToDomain(literal, v, value)
      ensures EqualityLinkedIn(Snapshot(), domains[v], literal, v, value)
    {
      var d := domains[v];
      NegationInRange(v, |domains|);
      assert domains[NegationOf(v)] == Negation(d);
      if Contains(d, value) && Min(d) < value < Max(d) {
        var n := |sat.clauses|;
        var a, b :| StandsFor(Snapshot(), domains[v], a, GreaterOrEqual(v, value)) &&
          StandsFor(Snapshot(), domains[NegationOf(v)], b, LowerOrEqual(v, value)) &&
          n >= 3 && sat.clauses[n - 3..] == [[a, literal.Negated()], [b, literal.Negated()], [a.Negated(), b.Negated(), literal]];
        assert sat.clauses[n - 3] == [a, literal.Negated()] && sat.clauses[n - 2] == [b, literal.Negated()];
        assert sat.clauses[n - 1] == [a.Negated(), b.Negated(), literal];
      }
    }

    /**
     * The last three clauses say `literal <=> (a && b)`, where `a` stands for
     * `v >= value` and `b` for `v <= value`.
     */
    ghost predicate LinkedToBothBounds(literal: Literal, v: nat, value: int)
      requires Valid() && v < |domains|
      reads this`domains, this`encodingByVar, this`equalityToAssociatedLiteral, this`isFullyEncoded, this`trueLiteral
      reads this`domainKeys, this`literalView, sat`assignment, sat`numVariables, sat`clauses
    {
      NegationInRange(v, |domains|);
      var n := |sat.clauses|;
      exists a: Literal, b: Literal ::
        StandsFor(Snapshot(), domains[v], a, GreaterOrEqual(v, value)) &&
        StandsFor(Snapshot(), domains[NegationOf(v)], b, LowerOrEqual(v, value)) &&
        n >= 3 && sat.clauses[n - 3..] == [[a, literal.Negated()], [b, literal.Negated()], [a.Negated(), b.Negated(), literal]]
    }

    /** The literals of `v >= value` and of `v <= value`, created if needed. */
    method BoundLiterals(v: nat, value: int) returns (a: Literal, b: Literal)
      requires Valid() && Linked() && v < |domains|
      modifies this`encodingByVar, this`equalityToAssociatedLiteral, this`reverseEncoding, this`literalView, this`linkDomains, this`pending
      modifies this`newlyFixedIntegerLiterals, this`trueLiteral, this`numCreatedVariables, sat`numVariables, sat`clauses
      ensures Valid() && Linked() && Grows() && NegationOf(v) < |domains|
      ensures StandsFor(Snapshot(), domains[v], a, GreaterOrEqual(v, value))
      ensures StandsFor(Snapshot(), domains[NegationOf(v)], b, LowerOrEqual(v, value))
      decreases Missing(), 10
    {
      ghost var s1 := Snapshot();
      NegationInRange(v, |domains|);
      a := LiteralStandingFor(GreaterOrEqual(v, value));
      ghost var s2 := Snapshot();
      b := LiteralStandingFor(LowerOrEqual(v, value));
      ExtendsIsTransitive(s1, s2, Snapshot());
      StandsForKept(s2, Snapshot(), domains[v], a, GreaterOrEqual(v, value));
    }

    /** `GetOrCreateAssociatedLiteral`, seen through what its literal stands for. */
    method LiteralStandingFor(i: IntegerLiteral) returns (r: Literal)
      requires Valid() && Linked() && i.variable < |domains|
      modifies this`encodingByVar, this`equalityToAssociatedLiteral, this`reverseEncoding, this`literalView, this`linkDomains, this`pending
      modifies this`newlyFixedIntegerLiterals, this`trueLiteral, this`numCreatedVariables, sat`numVariables, sat`clauses
      ensures Valid() && Linked() && Grows()
      ensures StandsFor(Snapshot(), domains[i.variable], r, i)
      decreases Missing(), 8
    {
      r := GetOrCreateAssociatedLiteral(i);
    }

    /** The equality literal of `v == x` exists and is true. */
    predicate EqualityIsTrue(v: nat, x: int)
      reads this`equalityToAssociatedLiteral, sat`assignment
    {
      var eq := equalityToAssociatedLiteral;
      (v, x) in eq && sat.LiteralIsTrue(eq[(v, x)])
    }

    /** The equality literal of `v == x` exists and is false. */
    predicate EqualityIsFalse(v: nat, x: int)
      reads this`equalityToAssociatedLiteral, sat`assignment
    {
      var eq := equalityToAssociatedLiteral;
      (v, x) in eq && sat.LiteralIsFalse(eq[(v, x)])
    }

    /**
     * `r` reads the equalities of `v` over `cands`: the first candidate
     * whose literal is true, alone, when there is one; otherwise every
     * candidate whose literal exists and is not false.
     */
    ghost predicate IsCollected(v: nat, cands: seq<int>, r: seq<ValueLiteralPair>)
      reads this`equalityToAssociatedLiteral, sat`assignment
    {
      ((forall k :: 0 <= k < |cands| ==> !EqualityIsTrue(v, cands[k])) ==>
         r == NotFalsePairs(v, cands, equalityToAssociatedLiteral, sat.assignment)) &&
      ((exists k :: 0 <= k < |cands| && EqualityIsTrue(v, cands[k])) ==>
         exists k :: 0 <= k < |cands| && EqualityIsTrue(v, cands[k]) &&
           (forall j :: 0 <= j < k ==> !EqualityIsTrue(v, cands[j])) &&
           r == [ValueLiteralPair(cands[k], equalityToAssociatedLiteral[(v, cands[k])])])
    }

    method CollectEqualities(v: nat, cands: seq<int>) returns (r: seq<ValueLiteralPair>)
      ensures IsCollected(v, cands, r)
    {
      r := [];
      var k := 0;
      while k < |cands|
        invariant 0 <= k <= |cands|
        invariant forall j :: 0 <= j < k ==> !EqualityIsTrue(v, cands[j])
        invariant r == NotFalsePairs(v, cands[..k], equalityToAssociatedLiteral, sat.assignment)
      {
        var x := cands[k];
        assert cands[..k + 1][..k] == cands[..k];
        if (v, x) in equalityToAssociatedLiteral {
          var l := equalityToAssociatedLiteral[(v, x)];
          if sat.LiteralIsTrue(l) {
            r := [ValueLiteralPair(x, l)];
            return;
          } else if !sat.LiteralIsFalse(l) {
            r := r + [ValueLiteralPair(x, l)];
          }
        }
        k := k + 1;
      }
      assert cands[..k] == cands;
    }

    /**
     * The values of a fully encoded `v` with their equality literals, in
     * increasing order, leaving out the values whose literal is false;
     * when one of them is true, only the smallest true one.
     */
    method FullDomainEncoding(v: nat) returns (r: seq<ValueLiteralPair>)
      requires Valid() && VariableIsFullyEncoded(v)
      ensures v < |domains|
      ensures AscendingValues(r)
      ensures forall p :: p in r ==>
        Contains(domains[v], p.value) && (v, p.value) in equalityToAssociatedLiteral &&
        p.literal == equalityToAssociatedLiteral[(v, p.value)] && !sat.LiteralIsFalse(p.literal)
      ensures (exists x :: Contains(domains[v], x) && EqualityIsTrue(v, x)) ==>
        |r| == 1 && EqualityIsTrue(v, r[0].value) &&
        forall x :: Contains(domains[v], x) && x < r[0].value ==> !EqualityIsTrue(v, x)
      ensures (forall x :: Contains(domains[v], x) ==> !EqualityIsTrue(v, x)) ==>
        forall x :: Contains(domains[v], x) ==> EqualityIsFalse(v, x) || exists p :: p in r && p.value == x
    {
      var values := EnumerateValues(domains[v]);
      r := CollectEqualities(v, values);
      FullReadBack(v, values, r);
    }

    /** What `CollectEqualities` returns over the sorted values of a domain, read in terms of the domain. */
    lemma FullReadBack(v: nat, values: seq<int>, r: seq<ValueLiteralPair>)
      requires v < |domains|
      requires forall i, j :: 0 <= i < j < |values| ==> values[i] < values[j]
      requires forall x :: x in values <==> Contains(domains[v], x)
      requires forall x :: Contains(domains[v], x) ==> (v, x) in equalityToAssociatedLiteral
      requires IsCollected(v, values, r)
      ensures AscendingValues(r)
      ensures forall p :: p in r ==>
        Contains(domains[v], p.value) && (v, p.value) in equalityToAssociatedLiteral &&
        p.literal == equalityToAssociatedLiteral[(v, p.value)] && !sat.LiteralIsFalse(p.literal)
      ensures (exists x :: Contains(domains[v], x) && EqualityIsTrue(v, x)) ==>
        |r| == 1 && EqualityIsTrue(v, r[0].value) &&
        forall x :: Contains(domains[v], x) && x < r[0].value ==> !EqualityIsTrue(v, x)
      ensures (forall x :: Contains(domains[v], x) ==> !EqualityIsTrue(v, x)) ==>
        forall x :: Contains(domains[v], x) ==> EqualityIsFalse(v, x) || exists p :: p in r && p.value == x
    {
      if exists k :: 0 <= k < |values| && EqualityIsTrue(v, values[k]) {
        FirstTrueValue(v, values, r);
      } else {
        NotFalsePairsOrdered(v, values, equalityToAssociatedLiteral, sat.assignment);
        forall x | Contains(domains[v], x) && !EqualityIsFalse(v, x)
          ensures exists p :: p in r && p.value == x
        {
          assert x in values;
          assert ValueLiteralPair(x, equalityToAssociatedLiteral[(v, x)]) in r;
        }
      }
    }

    /** When some value's equality holds, the smallest such value is the one returned. */
    lemma FirstTrueValue(v: nat, values: seq<int>, r: seq<ValueLiteralPair>)
      requires v < |domains|
      requires forall i, j :: 0 <= i < j < |values| ==> values[i] < values[j]
      requires forall x :: x in values <==> Contains(domains[v], x)
      requires IsCollected(v, values, r)
      requires exists k :: 0 <= k < |values| && EqualityIsTrue(v, values[k])
      ensures |r| == 1 && EqualityIsTrue(v, r[0].value) && r[0].value in values
      ensures r[0].literal == equalityToAssociatedLiteral[(v, r[0].value)]
      ensures forall x :: Contains(domains[v], x) && x < r[0].value ==> !EqualityIsTrue(v, x)
    {
      var k :| 0 <= k < |values| && EqualityIsTrue(v, values[k]) &&
        (forall j :: 0 <= j < k ==> !EqualityIsTrue(v, values[j])) &&
        r == [ValueLiteralPair(values[k], equalityToAssociatedLiteral[(v, values[k])])];
      forall x | Contains(domains[v], x) && x < values[k]
        ensures !EqualityIsTrue(v, x)
      {
        var j :| 0 <= j < |values| && values[j] == x;
        assert j < k;
      }
    }

    /**
     * The equality literals of `v` found without enumerating its domain:
     * those of the domain minimum, of the bounds of the encoding of `v`
     * strictly inside the domain, and of the domain maximum.
     */
    method PartialDomainEncoding(v: nat) returns (r: seq<ValueLiteralPair>)
      requires Valid() && v < |domains|
      ensures v >= |encodingByVar| ==> r == []
      ensures v < |encodingByVar| ==>
        var d := domains[v];
        IsCollected(v, [Min(d)] + BoundsBetween(encodingByVar[v], Min(d), Max(d)) + [Max(d)], r)
      ensures NonDecreasingValues(r)
    {
      if v >= |encodingByVar| {
        return [];
      }
      var d := domains[v];
      var minValue := Min(d);
      var maxValue := Max(d);
      var m := encodingByVar[v];
      var possible := [minValue];
      var k := 0;
      while k < |m|
        invariant 0 <= k <= |m|
        invariant possible == [minValue] + BoundsBetween(m[..k], minValue, maxValue)
      {
        if m[k].bound >= maxValue {
          assert forall j :: k <= j < |m| ==> m[j].bound >= maxValue by {
            forall j | k < j < |m| ensures m[j].bound >= maxValue {
              assert m[k].bound < m[j].bound;
            }
          }
          break;
        }
        assert m[..k + 1][..k] == m[..k];
        if m[k].bound > minValue {
          possible := possible + [m[k].bound];
        }
        k := k + 1;
      }
      BoundsBetweenStopsAtHi(m, minValue, maxValue, k);
      possible := possible + [maxValue];
      MinMaxAreExtremeValues(d);
      BoundsBetweenAscending(m, minValue, maxValue);
      FramedNonDecreasing(minValue, BoundsBetween(m, minValue, maxValue), maxValue);
      NotFalsePairsOrdered(v, possible, equalityToAssociatedLiteral, sat.assignment);
      r := CollectEqualities(v, possible);
    }

    /**
     * Switches on the implications between bound literals and adds them
     * for every pair of consecutive entries already in the encoding.
     */
    method AddAllImplicationsBetweenAssociatedLiterals()
      requires Valid() && Linked() && sat.level == 0
      modifies this`addImplications, sat`clauses
      ensures Valid() && Linked() && Grows() && addImplications
      ensures sat.clauses == old(sat.clauses) + AllChainClauses(encodingByVar)
    {
      addImplications := true;
      AddAllChainClauses(encodingByVar);
      forall c | c in old(sat.clauses) ensures c in sat.clauses {
        var j :| 0 <= j < |old(sat.clauses)| && old(sat.clauses)[j] == c;
        assert sat.clauses[j] == c;
      }
      AllLinkedKept(old(Snapshot()), Snapshot(), linkDomains, pending);
    }

    /** Adds the implications between consecutive entries of every ordered map of `enc`, variable by variable. */
    method AddAllChainClauses(enc: seq<seq<Entry>>)
      modifies sat`clauses
      ensures sat.clauses == old(sat.clauses) + AllChainClauses(enc)
    {
      var v := 0;
      while v < |enc|
        invariant 0 <= v <= |enc|
        invariant sat.clauses == old(sat.clauses) + AllChainClauses(enc[..v])
      {
        AddChainClauses(enc[v]);
        assert enc[..v + 1][..v] == enc[..v];
        v := v + 1;
      }
      assert enc[..v] == enc;
    }

    /** Adds `m[k] => m[k - 1]` for the consecutive entries of one ordered map, walking it in order. */
    method AddChainClauses(m: seq<Entry>)
      modifies sat`clauses
      ensures sat.clauses == old(sat.clauses) + ChainClauses(m)
    {
      var previous: Option<Literal> := None;
      var k := 0;
      while k < |m|
        invariant 0 <= k <= |m|
        invariant previous == if k == 0 then None else Some(m[k - 1].literal)
        invariant sat.clauses == old(sat.clauses) + ChainClauses(m[..k])
      {
        assert m[..k + 1][..k] == m[..k];
        if previous.Some? {
          sat.AddClause([m[k].literal.Negated(), previous.value]);
        }
        previous := Some(m[k].literal);
        k := k + 1;
      }
      assert m[..k] == m;
    }

    /** The literal of the largest bound at or below `i.bound` in the encoding of `i.variable`, if any. */
    function SearchForLiteralAtOrBefore(i: IntegerLiteral): (r: Option<Literal>)
      reads this`encodingByVar
      ensures var m := VariableEncoding(encodingByVar, i.variable);
        EncodingSorted(encodingByVar) ==>
          (r.None? <==> forall e :: e in m ==> e.bound > i.bound) &&
          (r.Some? ==> exists e :: e in m && e.bound <= i.bound && e.literal == r.value &&
                         forall e' :: e' in m && e'.bound <= i.bound ==> e'.bound <= e.bound)
    {
      var m := VariableEncoding(encodingByVar, i.variable);
      var u := UpperBound(m, i.bound);
      assert EncodingSorted(encodingByVar) ==>
        (u == 0 <==> forall e :: e in m ==> e.bound > i.bound) &&
        (u > 0 ==> m[u - 1] in m && m[u - 1].bound <= i.bound &&
                   forall e :: e in m && e.bound <= i.bound ==> e.bound <= m[u - 1].bound) by {
        if EncodingSorted(encodingByVar) {
          UpperBoundSplits(m, i.bound);
        }
      }
      if u == 0 then None else Some(m[u - 1].literal)
    }

    /**
     * Creates an equality literal for every value of the domain of `v`
     * and ties them to the bound literals between consecutive values;
     * `v` and its negation are then fully encoded. The ghost results are
     * the values, in increasing order, and the literal chosen for each.
     */
    method FullyEncodeVariable(v: nat) returns (ghost values: seq<int>, ghost literals: seq<Literal>)
      requires Valid() && Linked() && pending == {} && v < |domains| && !VariableIsFullyEncoded(v) && sat.level == 0
      requires |Values(domains[v])| < 100000
      modifies this`encodingByVar, this`equalityToAssociatedLiteral, this`reverseEncoding, this`literalView, this`linkDomains, this`pending
      modifies this`newlyFixedIntegerLiterals, this`trueLiteral, this`numCreatedVariables, sat`numVariables, sat`clauses
      modifies this`isFullyEncoded
      ensures Valid() && Linked() && Grows()
      ensures isFullyEncoded == old(isFullyEncoded) + {v, NegationOf(v)}
      ensures forall x :: Contains(domains[v], x) ==>
        (v, x) in equalityToAssociatedLiteral && (NegationOf(v), -x) in equalityToAssociatedLiteral
      ensures (forall x :: x in values <==> Contains(domains[v], x)) && |literals| == |values|
      ensures forall i, j :: 0 <= i < j < |values| ==> values[i] < values[j]
      ensures forall k :: 0 <= k < |values| ==> EqualityMeaningIn(Snapshot(), domains, literals[k], v, values[k])
    {
      var d := domains[v];
      var all := EnumerateValues(d);
      assert |all| > 0 by {
        assert Contains(d, d[0].start);
      }
      var chosen := EncodeValues(v, all);
      ghost var s1 := Snapshot();
      MarkFullyEncoded(v, all);
      assert Snapshot() == s1 && domains == old(domains);
      values, literals := all, chosen;
    }

    /**
     * Gives every value of `values` an equality literal of `v`. The literal
     * returned for a value is its stored equality literal, or is made
     * equivalent to it; the stored literal is linked to the domain.
     */
    method EncodeValues(v: nat, values: seq<int>) returns (literals: seq<Literal>)
      requires Valid() && Linked() && pending == {} && v < |domains| && |values| > 0 && sat.level == 0
      modifies this`encodingByVar, this`equalityToAssociatedLiteral, this`reverseEncoding, this`literalView, this`linkDomains, this`pending
      modifies this`newlyFixedIntegerLiterals, this`trueLiteral, this`numCreatedVariables, sat`numVariables, sat`clauses
      ensures Valid() && Linked() && Grows()
      ensures forall k :: 0 <= k < |values| ==> (v, values[k]) in equalityToAssociatedLiteral
      ensures MeaningsIn(Snapshot(), domains, v, values, literals, |values|)
    {
      ghost var s0 := Snapshot();
      literals := ChooseEqualityLiterals(v, values);
      ghost var s1 := Snapshot();
      AssociateConsecutiveBounds(v, values, literals);
      ExtendsIsTransitive(s0, s1, Snapshot());
      ghost var s2 := Snapshot();
      AssociateAllEqualities(v, values, literals);
      ExtendsIsTransitive(s0, s2, Snapshot());
    }

    /**
     * One literal per value: the true literal for a single value, the
     * literal of `v <= values[0]` and its negation for two values, and
     * otherwise the existing equality literal or a fresh one.
     */
    method ChooseEqualityLiterals(v: nat, values: seq<int>) returns (literals: seq<Literal>)
      requires Valid() && Linked() && v < |domains| && |values| > 0
      modifies this`encodingByVar, this`equalityToAssociatedLiteral, this`reverseEncoding, this`literalView, this`linkDomains, this`pending
      modifies this`newlyFixedIntegerLiterals, this`trueLiteral, this`numCreatedVariables, sat`numVariables, sat`clauses
      ensures Valid() && Linked() && Grows()
      ensures |literals| == |values|
      ensures |values| == 1 ==> trueLiteral == Some(literals[0])
      ensures |values| == 2 ==> literals[1] == literals[0].Negated()
      ensures |values| > 2 ==> forall k :: 0 <= k < |values| ==>
        if (v, values[k]) in old(equalityToAssociatedLiteral) then literals[k] == old(equalityToAssociatedLiteral)[(v, values[k])]
        else literals[k].variable >= old(sat.numVariables)
    {
      if |values| == 1 {
        var t := GetTrueLiteral();
        literals := [t];
      } else if |values| == 2 {
        NegationInRange(v, |domains|);
        var l := GetOrCreateAssociatedLiteral(LowerOrEqual(v, values[0]));
        literals := [l, l.Negated()];
      } else {
        literals := [];
        var k := 0;
        while k < |values|
          invariant 0 <= k <= |values| && |literals| == k
          invariant Valid() && Linked() && Grows()
          invariant equalityToAssociatedLiteral == old(equalityToAssociatedLiteral)
          invariant forall j :: 0 <= j < k ==>
            if (v, values[j]) in old(equalityToAssociatedLiteral) then literals[j] == old(equalityToAssociatedLiteral)[(v, values[j])]
            else literals[j].variable >= old(sat.numVariables)
        {
          if (v, values[k]) in equalityToAssociatedLiteral {
            literals := literals + [equalityToAssociatedLiteral[(v, values[k])]];
          } else {
            ghost var s0 := Snapshot();
            var b := sat.NewBooleanVariable();
            AllLinkedKept(s0, Snapshot(), linkDomains, pending);
            literals := literals + [Literal(b, true)];
          }
          k := k + 1;
        }
      }
    }

    /**
     * Attaches a literal to each pair `v <= values[k]` / `v >= values[k + 1]`
     * of consecutive values: the first and last equality literals serve
     * for the two ends, a fresh literal for a pair in between that is not
     * already fully attached.
     */
    method AssociateConsecutiveBounds(v: nat, values: seq<int>, literals: seq<Literal>)
      requires Valid() && Linked() && v < |domains| && |literals| == |values| && sat.level == 0
      modifies this`encodingByVar, this`reverseEncoding, this`newlyFixedIntegerLiterals, sat`numVariables, sat`clauses
      ensures Valid() && Linked() && Grows()
      ensures forall k :: 0 <= k < |values| - 1 ==> BoundsAssociated(v, values[k], values[k + 1])
    {
      var k := 0;
      while k + 1 < |literals|
        invariant 0 <= k <= |values|
        invariant k + 1 >= |values| ==> k == if |values| == 0 then 0 else |values| - 1
        invariant Valid() && Linked() && Grows() && sat.level == 0
        invariant forall j :: 0 <= j < k ==> BoundsAssociated(v, values[j], values[j + 1])
      {
        ghost var s0 := Snapshot();
        AssociateBoundsAt(v, values, literals, k);
        ExtendsIsTransitive(old(Snapshot()), s0, Snapshot());
        k := k + 1;
      }
    }

    /** `v <= lo` and `v >= hi` both have a literal. */
    predicate BoundsAssociated(v: nat, lo: int, hi: int)
      reads this`encodingByVar
    {
      LiteralIsAssociated(LowerOrEqual(v, lo)) && LiteralIsAssociated(GreaterOrEqual(v, hi))
    }

    /** The pair of bounds between `values[k]` and `values[k + 1]`. */
    method AssociateBoundsAt(v: nat, values: seq<int>, literals: seq<Literal>, k: nat)
      requires Valid() && Linked() && sat.level == 0 && |literals| == |values| && k + 1 < |values|
      modifies this`encodingByVar, this`reverseEncoding, this`newlyFixedIntegerLiterals, sat`numVariables, sat`clauses
      ensures Valid() && Linked() && Grows()
      ensures BoundsAssociated(v, values[k], values[k + 1])
    {
      var le := LowerOrEqual(v, values[k]);
      var ge := GreaterOrEqual(v, values[k + 1]);
      if k == 0 {
        AssociatePairOfBounds(le, ge, literals[0]);
      } else if k + 2 == |literals| {
        AssociatePairOfBounds(le, ge, literals[k + 1].Negated());
      } else if !LiteralIsAssociated(le) || !LiteralIsAssociated(ge) {
        ghost var s0 := Snapshot();
        var b := sat.NewBooleanVariable();
        ghost var s1 := Snapshot();
        AllLinkedKept(s0, s1, linkDomains, pending);
        AssociatePairOfBounds(le, ge, Literal(b, true));
        ExtendsIsTransitive(s0, s1, Snapshot());
      }
    }

    /** Attaches `literal` to `le` and its negation to `ge`, each unless it already has a literal. */
    method AssociatePairOfBounds(le: IntegerLiteral, ge: IntegerLiteral, literal: Literal)
      requires Valid() && Linked() && sat.level == 0
      modifies this`encodingByVar, this`reverseEncoding, this`newlyFixedIntegerLiterals, sat`clauses
      ensures Valid() && Linked() && Grows()
      ensures LiteralIsAssociated(le) && LiteralIsAssociated(ge)
    {
      ghost var s0 := Snapshot();
      HalfAssociateGivenLiteral(le, literal);
      ghost var s1 := Snapshot();
      HalfAssociateGivenLiteral(ge, literal.Negated());
      ExtendsIsTransitive(s0, s1, Snapshot());
      AssociatedStays(s1, Snapshot(), le);
    }

    /**
     * Makes each `literals[k]` the stored literal of `v == values[k]`, or
     * equivalent to it; the stored literal is linked to the domain.
     */
    method AssociateAllEqualities(v: nat, values: seq<int>, literals: seq<Literal>)
      requires Valid() && Linked() && pending == {} && v < |domains| && |literals| == |values| && sat.level == 0
      modifies this`encodingByVar, this`equalityToAssociatedLiteral, this`reverseEncoding, this`literalView, this`linkDomains, this`pending
      modifies this`newlyFixedIntegerLiterals, this`trueLiteral, this`numCreatedVariables, sat`numVariables, sat`clauses
      ensures Valid() && Linked() && Grows()
      ensures forall k :: 0 <= k < |values| ==>
        (v, values[k]) in equalityToAssociatedLiteral && (NegationOf(v), -values[k]) in equalityToAssociatedLiteral
      ensures MeaningsIn(Snapshot(), domains, v, values, literals, |values|)
    {
      var k := 0;
      while k < |literals|
        invariant 0 <= k <= |values|
        invariant Valid() && Linked() && Grows() && sat.level == 0
        invariant MeaningsIn(Snapshot(), domains, v, values, literals, k)
      {
        ghost var s0 := Snapshot();
        AssociateNext(v, values, literals, k);
        ExtendsIsTransitive(old(Snapshot()), s0, Snapshot());
        k := k + 1;
      }
    }

    /** Makes `literals[k]` the literal of `v == values[k]`, keeping what the earlier ones mean. */
    method AssociateNext(v: nat, values: seq<int>, literals: seq<Literal>, k: nat)
      requires Valid() && Linked() && pending == {} && v < |domains| && sat.level == 0
      requires MeaningsIn(Snapshot(), domains, v, values, literals, k) && k < |values|
      modifies this`encodingByVar, this`equalityToAssociatedLiteral, this`reverseEncoding, this`literalView, this`linkDomains, this`pending
      modifies this`newlyFixedIntegerLiterals, this`trueLiteral, this`numCreatedVariables, sat`numVariables, sat`clauses
      ensures Valid() && Linked() && Grows()
      ensures MeaningsIn(Snapshot(), domains, v, values, literals, k + 1)
    {
      ghost var s0 := Snapshot();
      AssociateToIntegerEqualValue(literals[k], v, values[k]);
      MeaningsKept(s0, Snapshot(), domains, v, values, literals, k);
      assert (v, values[k]) !in pending;
      MeaningsStep(Snapshot(), domains, v, values, literals, k);
    }

    /** Records `v` and its negation as fully encoded once every value of `v` has its equality literal. */
    method MarkFullyEncoded(v: nat, values: seq<int>)
      requires Valid() && v < |domains|
      requires forall x :: x in values <==> Contains(domains[v], x)
      requires forall k :: 0 <= k < |values| ==> (v, values[k]) in equalityToAssociatedLiteral
      modifies this`isFullyEncoded
      ensures Valid()
      ensures isFullyEncoded == old(isFullyEncoded) + {v, NegationOf(v)}
      ensures forall x :: Contains(domains[v], x) ==>
        (v, x) in equalityToAssociatedLiteral && (NegationOf(v), -x) in equalityToAssociatedLiteral
    {
      var d := domains[v];
      NegationInRange(v, |domains|);
      NegationOfPairs(v);
      NegationIsValidMirror(d);
      assert domains[NegationOf(v)] == Negation(d);
      forall x | Contains(d, x)
        ensures (v, x) in equalityToAssociatedLiteral && (NegationOf(v), -x) in equalityToAssociatedLiteral
      {
        assert x in values;
        assert Mirror((v, x)) == (NegationOf(v), -x);
      }
      forall y | Contains(domains[NegationOf(v)], y)
        ensures (NegationOf(v), y) in equalityToAssociatedLiteral
      {
        assert Contains(d, -y);
        assert Mirror((v, -y)) == (NegationOf(v), y);
      }
      isFullyEncoded := isFullyEncoded + {v, NegationOf(v)};
    }
  }
}
