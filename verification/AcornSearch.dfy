/** The best-first search over an ACORN graph, and when it is exact. */
module AcornSearch {
  import Bytes
  import opened Acorn
  import opened Collections
  import opened Nearest
  import opened Paths
  import opened Sorting

  // ---------------------------------------------------------------- counting

  lemma {:induction false} BelowCardinality(n: nat)
    ensures |Passing(n, Anything)| == n
  {
    if n == 0 {
      assert Passing(0, Anything) == {};
    } else {
      BelowCardinality(n - 1);
      assert Passing(n, Anything) == Passing(n - 1, Anything) + {n - 1};
    }
  }

  lemma {:induction false} ScoredCardinality(rows: seq<seq<real>>, query: seq<real>, ids: set<nat>)
    requires SameWidth(rows, query) && forall i :: i in ids ==> i < |rows|
    ensures |Scored(rows, query, ids)| == |ids|
  {
    hide SquaredDistance, SameWidth;
    if ids == {} {
      assert Scored(rows, query, ids) == {};
    } else {
      var x :| x in ids;
      ScoredCardinality(rows, query, ids - {x});
      ScoredOne(rows, query, ids - {x}, x);
      assert ids - {x} + {x} == ids;
    }
  }

  lemma ScoredInjective(rows: seq<seq<real>>, query: seq<real>, a: set<nat>, b: set<nat>)
    requires SameWidth(rows, query)
    requires (forall i :: i in a ==> i < |rows|) && (forall i :: i in b ==> i < |rows|)
    requires Scored(rows, query, a) <= Scored(rows, query, b)
    ensures a <= b
  {
    hide SquaredDistance, SameWidth;
    forall i | i in a
      ensures i in b
    {
      assert Score(rows, query, i) in Scored(rows, query, a);
    }
  }

  /** All node ids but i. */
  ghost function Others(n: nat, i: nat): set<nat> {
    Passing(n, Anything) - {i}
  }

  // ---------------------------------------------------------------- the complete graph

  lemma AllPredecessors(rows: seq<seq<real>>, i: nat, fwd: seq<nat>, budget: nat)
    requires i < |rows| && SameWidth(rows, rows[i]) && NearestBefore(rows, i, fwd, budget) && i <= budget
    ensures ToSet(fwd) == Passing(i, Anything)
  {
    hide SameWidth, SquaredDistance;
    var below := Passing(i, Anything);
    BelowCardinality(i);
    ScoredCardinality(rows, rows[i], below);
    TopKOfSmall(Scores(rows, i, fwd), Scored(rows, rows[i], below), i);
    ScoredInjective(rows, rows[i], below, ToSet(fwd));
  }

  lemma FullListIsComplete(nb: seq<nat>, n: nat, a: nat)
    requires Distinct(nb) && (forall x :: x in nb ==> x in Others(n, a)) && a < n && |nb| >= n - 1
    ensures ToSet(nb) == Others(n, a)
  {
    BelowCardinality(n);
    assert |Others(n, a)| == n - 1;
    assert Enumerates(nb, ToSet(nb));
    EnumeratesCardinality(nb, ToSet(nb));
    SubsetCardinality(ToSet(nb), Others(n, a));
  }

  /** With an edge budget of at least n - 1 the graph has every edge. */
  lemma GenerousBuildIsComplete(g: AcornGraph, rows: seq<seq<real>>, budget: nat, a: nat)
    requires IsBuilt(g, rows, budget) && budget >= |rows| - 1 && a < |rows|
    ensures ToSet(g.neighbors[a]) == Others(|rows|, a)
  {
    hide SameWidth, NearestBefore;
    var n := |rows|;
    var fwd: seq<seq<nat>> :| |fwd| == n && (forall i :: 0 <= i < n ==> NearestBefore(rows, i, fwd[i], budget))
                              && Merged(fwd, g.neighbors, budget, n, 0);
    ForwardIsPredecessors(rows, fwd, budget);
    var nb := g.neighbors[a];
    forall x | x in nb
      ensures x in Others(n, a)
    {
      assert x in fwd[a] || Considered(fwd, n, 0, x, a);
    }
    if |nb| >= n - 1 {
      FullListIsComplete(nb, n, a);
    } else {
      forall x | x in Others(n, a)
        ensures x in nb
      {
        AllPredecessors(rows, a, fwd[a], budget);
        AllPredecessors(rows, x, fwd[x], budget);
        if x < a {
          assert x in ToSet(fwd[a]);
          assert x in fwd[a];
        } else {
          assert a in ToSet(fwd[x]);
          assert Considered(fwd, n, 0, x, a);
        }
      }
    }
  }

  /** With any positive budget every node has a path to the first. */
  lemma {:induction false} EveryNodeReachesFirst(g: AcornGraph, rows: seq<seq<real>>, budget: nat, a: nat)
    requires IsBuilt(g, rows, budget) && budget > 0 && a < |rows|
    ensures Reach(Links(g), a, 0)
  {
    hide Reach, SameWidth, SquaredDistance;
    if a == 0 {
      ReachRefl(Links(g), 0);
    } else {
      var fwd: seq<seq<nat>> :| |fwd| == |rows| && (forall i :: 0 <= i < |rows| ==> NearestBefore(rows, i, fwd[i], budget))
                                && Merged(fwd, g.neighbors, budget, |rows|, 0);
      ForwardIsPredecessors(rows, fwd, budget);
      var below := Passing(a, Anything);
      BelowCardinality(a);
      ScoredCardinality(rows, rows[a], below);
      ScoredCardinality(rows, rows[a], ToSet(fwd[a]));
      assert fwd[a] != [];
      var b := fwd[a][0];
      assert b in fwd[a] && b in g.neighbors[a];
      EveryNodeReachesFirst(g, rows, budget, b);
      ReachEdge(Links(g), a, b);
      ReachTrans(Links(g), a, b, 0);
    }
  }

  // ---------------------------------------------------------------- search state

  ghost function PassingOf(ids: set<nat>, passes: nat -> bool): set<nat> {
    set i | i in ids && passes(i)
  }

  ghost predicate Within(ids: set<nat>, n: nat) {
    forall i :: i in ids ==> i < n
  }

  /** popped nodes have been expanded, frontier nodes wait in the candidate heap, seen nodes are marked visited.  With a
      beam wide enough for all nodes (wide), nothing seen is ever dropped and everything popped has been expanded. */
  ghost predicate Frontier(g: AcornGraph, entry: nat, wide: bool, popped: set<nat>, frontier: set<nat>, seen: set<nat>) {
    && Within(seen, |g.neighbors|)
    && popped + frontier <= seen && popped !! frontier
    && entry in seen
    && (forall x :: x in seen ==> Reach(Links(g), entry, x))
    && (wide ==> seen == popped + frontier)
  }

  /** All neighbours of the members of popped are seen. */
  ghost predicate Expanded(g: AcornGraph, popped: set<nat>, seen: set<nat>) {
    forall x, y :: x in popped && x < |g.neighbors| && y in g.neighbors[x] ==> y in seen
  }

  /** What the caller can rely on. */
  ghost predicate Answer(g: AcornGraph, rows: seq<seq<real>>, query: seq<real>, k: nat, passes: nat -> bool,
                         entry: nat, seen: set<nat>, wide: bool, found: set<Cand>)
    requires SameWidth(rows, query) && |g.neighbors| == |rows|
  {
    && entry in seen && Within(seen, |rows|)
    && (forall x :: x in seen ==> Reach(Links(g), entry, x))
    && |found| <= k
    && found <= Scored(rows, query, PassingOf(seen, passes))
    && (wide ==>
          && IsTopK(found, Scored(rows, query, PassingOf(seen, passes)), k)
          && (Closed(Links(g), seen) || |found| == k)
          && forall y :: entry < |g.neighbors| && y in g.neighbors[entry] ==> y in seen)
  }

  // ---------------------------------------------------------------- steps of the search

  lemma ScoredWithout(rows: seq<seq<real>>, query: seq<real>, ids: set<nat>, c: Cand)
    requires SameWidth(rows, query) && Within(ids, |rows|) && c in Scored(rows, query, ids)
    ensures 0 <= c.value && c.value in ids && c == Score(rows, query, c.value)
    ensures Scored(rows, query, ids - {c.value}) == Scored(rows, query, ids) - {c}
  {
    hide SquaredDistance, SameWidth;
    var i :| i in ids && c == Score(rows, query, i);
    ScoredOne(rows, query, ids - {i}, i);
    assert ids - {i} + {i} == ids;
  }

  /** Pushing a candidate and evicting the worst when there are more than k keeps the top k. */
  lemma PushEvict(rows: seq<seq<real>>, query: seq<real>, popped: set<nat>, x: nat, passes: nat -> bool,
                  results: set<Cand>, k: nat)
    requires SameWidth(rows, query) && Within(popped, |rows|) && x < |rows| && x !in popped
    requires IsTopK(results, Scored(rows, query, PassingOf(popped, passes)), k)
    ensures
      var c, after := Score(rows, query, x), Scored(rows, query, PassingOf(popped + {x}, passes));
      && (!passes(x) ==> IsTopK(results, after, k))
      && (passes(x) ==>
            && |results + {c}| == |results| + 1
            && (|results| < k ==> IsTopK(results + {c}, after, k))
            && (|results| >= k ==> forall m :: IsMax(results + {c}, m) ==> IsTopK(results + {c} - {m}, after, k)))
  {
    hide SquaredDistance, SameWidth, IsMax;
    var c, s := Score(rows, query, x), Scored(rows, query, PassingOf(popped, passes));
    if passes(x) {
      assert PassingOf(popped + {x}, passes) == PassingOf(popped, passes) + {x};
      ScoredOne(rows, query, PassingOf(popped, passes), x);
      if |results| < k {
        TopKRoom(results, s, k, c);
      } else {
        forall m: Cand | IsMax(results + {c}, m)
          ensures IsTopK(results + {c} - {m}, s + {c}, k)
        {
          TopKFull(results, s, k, c, m);
        }
      }
    } else {
      assert PassingOf(popped + {x}, passes) == PassingOf(popped, passes);
    }
  }

  /** When the nearest waiting candidate is beyond the worst of k results, the rest of the frontier cannot matter. */
  lemma StopIsSafe(rows: seq<seq<real>>, query: seq<real>, popped: set<nat>, frontier: set<nat>, passes: nat -> bool,
                   results: set<Cand>, k: nat, c: Cand, worst: Cand)
    requires SameWidth(rows, query) && Within(popped, |rows|) && Within(frontier, |rows|)
    requires IsTopK(results, Scored(rows, query, PassingOf(popped, passes)), k) && |results| == k
    requires IsMin(Scored(rows, query, frontier), c) && IsMax(results, worst) && c.key > worst.key
    ensures IsTopK(results, Scored(rows, query, PassingOf(popped + frontier, passes)), k)
  {
    hide SquaredDistance, SameWidth;
    var s, more := Scored(rows, query, PassingOf(popped, passes)), Scored(rows, query, PassingOf(frontier, passes));
    forall x, y | x in results && y in more
      ensures Less(x, y)
    {
      var i :| i in PassingOf(frontier, passes) && y == Score(rows, query, i);
      assert y in Scored(rows, query, frontier);
      assert y == c || Less(c, y);
      assert x == worst || Less(x, worst);
    }
    TopKIgnoresFarther(results, s, k, more);
    assert PassingOf(popped + frontier, passes) == PassingOf(popped, passes) + PassingOf(frontier, passes);
    assert Scored(rows, query, PassingOf(popped + frontier, passes)) == s + more;
  }

  lemma SeeOneMore(g: AcornGraph, entry: nat, curr: nat, x: nat)
    requires Reach(Links(g), entry, curr) && curr < |g.neighbors| && x in g.neighbors[curr]
    ensures Reach(Links(g), entry, x)
  {
    hide Reach;
    assert Edge(Links(g), curr, x);
    ReachEdge(Links(g), curr, x);
    ReachTrans(Links(g), entry, curr, x);
  }

  /** Frontier and popped nodes are all different, so there is room in a beam of n. */
  lemma FrontierFits(rows: seq<seq<real>>, query: seq<real>, popped: set<nat>, frontier: set<nat>)
    requires SameWidth(rows, query) && Within(popped, |rows|) && Within(frontier, |rows|) && popped !! frontier
    ensures |frontier| + |popped| <= |rows|
  {
    ScoredCardinality(rows, query, frontier);
    BelowCardinality(|rows|);
    assert |popped + frontier| == |popped| + |frontier|;
    SubsetCardinality(popped + frontier, Passing(|rows|, Anything));
  }

  lemma SeeNew(g: AcornGraph, entry: nat, wide: bool, popped: set<nat>, frontier: set<nat>, seen: set<nat>,
               curr: nat, x: nat, push: bool)
    requires Frontier(g, entry, wide, popped, frontier, seen)
    requires curr in popped && curr < |g.neighbors| && x in g.neighbors[curr] && x < |g.neighbors| && x !in seen
    requires push || !wide
    ensures Frontier(g, entry, wide, popped, if push then frontier + {x} else frontier, seen + {x})
  {
    hide Reach;
    SeeOneMore(g, entry, curr, x);
  }

  lemma PopOne(g: AcornGraph, entry: nat, wide: bool, popped: set<nat>, frontier: set<nat>, seen: set<nat>, x: nat)
    requires Frontier(g, entry, wide, popped, frontier, seen) && x in frontier
    ensures Frontier(g, entry, wide, popped + {x}, frontier - {x}, seen)
    ensures x < |g.neighbors| && x !in popped
    ensures |g.neighbors| - |popped| > |g.neighbors| - |popped + {x}| >= 0
  {
    hide Reach;
    BelowCardinality(|g.neighbors|);
    SubsetCardinality(popped + {x}, Passing(|g.neighbors|, Anything));
  }

  ghost predicate Marks(visited: array<bool>, seen: set<nat>)
    reads visited
  {
    forall i :: 0 <= i < visited.Length ==> (visited[i] <==> i in seen)
  }

  /** A distance in the heap that mirrors the frontier. */
  datatype OrdF32 = OrdF32(value: real)

  lemma {:induction false} GreatestOfSet(s: set<OrdF32>)
    requires s != {}
    ensures exists w :: w in s && forall v :: v in s ==> v.value <= w.value
  {
    var x :| x in s;
    if s != {x} {
      GreatestOfSet(s - {x});
      var w :| w in s - {x} && forall v :: v in s - {x} ==> v.value <= w.value;
      var g := if w.value < x.value then x else w;
      forall v | v in s
        ensures v.value <= g.value
      {
        assert v != x ==> v in s - {x};
      }
    }
  }

  lemma GreatestExists(m: multiset<OrdF32>)
    requires |m| > 0
    ensures exists w :: w in m && IsGreatest(m, w)
  {
    var s := set x | x in m;
    assert forall x :: x in m <==> x in s;
    assert s == {} ==> m == multiset{};
    GreatestOfSet(s);
    var w :| w in s && forall v :: v in s ==> v.value <= w.value;
    forall v | v in m
      ensures v.value <= w.value
    {
      assert v in s;
    }
    assert w in m && IsGreatest(m, w);
  }

  predicate IsGreatest(m: multiset<OrdF32>, w: OrdF32) {
    w in m && forall v :: v in m ==> v.value <= w.value
  }

  // ---------------------------------------------------------------- the search

  /** The i-th of n nodes' evenly spaced probes. */
  function Probe(i: nat, n: nat, probes: nat): nat
    requires probes > 0
  {
    i * n / probes
  }

  lemma ProbeInRange(i: nat, n: nat, probes: nat)
    requires i < probes && n > 0
    ensures Probe(i, n, probes) < n
  {
    var q := Probe(i, n, probes);
    assert q * probes <= i * n;
    Bytes.MulMonotone(i + 1, probes, n);
    assert (i + 1) * n == i * n + n;
    assert probes * n == n * probes;
    if q >= n {
      Bytes.MulMonotone(n, q, probes);
    }
  }

  /** The first node is probed, and no node is n / probes or more beyond the last probe before it. */
  lemma ProbesAreSpread(n: nat, probes: nat, x: nat) returns (i: nat)
    requires x < n && probes > 0
    ensures Probe(0, n, probes) == 0
    ensures i < probes && Probe(i, n, probes) <= x && (x - Probe(i, n, probes)) * probes < n
  {
    var m := (x + 1) * probes - 1;
    assert m >= 0 by {
      Bytes.MulMonotone(1, x + 1, probes);
    }
    i := m / n;
    var q := Probe(i, n, probes);
    assert i * n <= m < i * n + n;
    assert q * probes <= i * n < q * probes + probes;
    if i >= probes {
      Bytes.MulMonotone(probes, i, n);
      Bytes.MulMonotone(x + 1, n, probes);
    }
    if q > x {
      Bytes.MulMonotone(x + 1, q, probes);
    }
    assert (x + 1) * probes == x * probes + probes;
    assert (x - q) * probes == x * probes - q * probes;
  }

  /** A nearest one of the probed nodes. */
  ghost predicate IsBestProbe(rows: seq<seq<real>>, query: seq<real>, probes: nat, entry: nat)
    requires SameWidth(rows, query) && probes > 0
  {
    && entry < |rows|
    && (exists i :: 0 <= i < probes && entry == Probe(i, |rows|, probes))
    && forall i :: 0 <= i < probes ==>
         Probe(i, |rows|, probes) < |rows| &&
         Score(rows, query, entry).key <= Score(rows, query, Probe(i, |rows|, probes)).key
  }

  lemma ProbeIsNode(rows: seq<seq<real>>, query: seq<real>, probes: nat, entry: nat)
    requires SameWidth(rows, query) && probes > 0 && IsBestProbe(rows, query, probes, entry)
    ensures entry < |rows|
  {
  }

  /** Where the search starts: the nearest of the probed nodes. */
  method BestProbe(g: AcornGraph, ghost rows: seq<seq<real>>, query: seq<real>, probes: nat) returns (entry: nat)
    requires g.Holds(rows) && SameWidth(rows, query) && probes > 0
    ensures IsBestProbe(rows, query, probes, entry)
  {
    hide Probe, SquaredDistance, Flatten;
    var n := |g.neighbors|;
    entry := 0;
    var best := 0.0;
    for i := 0 to probes
      invariant entry < n
      invariant i > 0 ==> best == Score(rows, query, entry).key
      invariant i > 0 ==> exists j :: 0 <= j < i && entry == Probe(j, n, probes)
      invariant forall j :: 0 <= j < i ==>
        Probe(j, n, probes) < n && best <= Score(rows, query, Probe(j, n, probes)).key
    {
      ProbeInRange(i, n, probes);
      var id := Probe(i, n, probes);
      var row := Row(g, id, rows);
      var d := L2Sq(row, query);
      if i == 0 || d < best {
        entry, best := id, d;
      }
    }
  }

  // ---------------------------------------------------------------- one expansion

  /** The nodes waiting in the candidate heap, the heap that mirrors their distances, and the nodes marked visited. */
  datatype Beam = Beam(frontier: set<nat>, farthest: multiset<OrdF32>, seen: set<nat>)

  ghost function Greatest(m: multiset<OrdF32>): (w: OrdF32)
    requires |m| > 0
    ensures IsGreatest(m, w)
  {
    GreatestExists(m);
    var w :| IsGreatest(m, w);
    w
  }

  /** An unseen neighbour is pushed if fewer than ef nodes wait, or if it is nearer than the farthest mirrored distance,
      which it then replaces in the mirror, but not in the candidate heap. */
  ghost function Offered(rows: seq<seq<real>>, query: seq<real>, ef: nat, b: Beam, x: nat): Beam
    requires SameWidth(rows, query) && x < |rows|
  {
    var d := OrdF32(Score(rows, query, x).key);
    if x in b.seen then b
    else if |b.frontier| < ef then Beam(b.frontier + {x}, b.farthest + multiset{d}, b.seen + {x})
    else if |b.farthest| > 0 && d.value < Greatest(b.farthest).value then
      Beam(b.frontier + {x}, b.farthest - multiset{Greatest(b.farthest)} + multiset{d}, b.seen + {x})
    else b.(seen := b.seen + {x})
  }

  predicate AreNodes(xs: seq<nat>, n: nat) {
    forall i :: 0 <= i < |xs| ==> xs[i] < n
  }

  ghost function OfferedAll(rows: seq<seq<real>>, query: seq<real>, ef: nat, b: Beam, xs: seq<nat>): Beam
    requires SameWidth(rows, query) && AreNodes(xs, |rows|)
  {
    if xs == [] then b
    else Offered(rows, query, ef, OfferedAll(rows, query, ef, b, xs[..|xs| - 1]), xs[|xs| - 1])
  }

  lemma OfferedOneMore(rows: seq<seq<real>>, query: seq<real>, ef: nat, b: Beam, xs: seq<nat>, m: nat)
    requires SameWidth(rows, query) && AreNodes(xs, |rows|) && m < |xs|
    ensures
      OfferedAll(rows, query, ef, b, xs[..m + 1])
      == Offered(rows, query, ef, OfferedAll(rows, query, ef, b, xs[..m]), xs[m])
  {
    hide Offered;
    assert xs[..m + 1][..m] == xs[..m];
  }

  lemma NeighborsAreNodes(g: AcornGraph, rows: seq<seq<real>>, curr: nat)
    requires g.Holds(rows) && curr < |rows|
    ensures AreNodes(g.neighbors[curr], |rows|)
  {
    forall i | 0 <= i < |g.neighbors[curr]|
      ensures g.neighbors[curr][i] < |rows|
    {
      assert g.neighbors[curr][i] in g.neighbors[curr];
    }
  }

  /** The heaps after a node at distance nd is offered. */
  ghost predicate Admitted(ef: nat, candidates0: set<Cand>, farthest0: multiset<OrdF32>, nd: real, x: nat,
                           candidates: set<Cand>, farthest: multiset<OrdF32>)
  {
    if |candidates0| < ef then
      candidates == candidates0 + {Keyed(nd, x)} && farthest == farthest0 + multiset{OrdF32(nd)}
    else if |farthest0| > 0 && nd < Greatest(farthest0).value then
      && candidates == candidates0 + {Keyed(nd, x)}
      && farthest == farthest0 - multiset{Greatest(farthest0)} + multiset{OrdF32(nd)}
    else candidates == candidates0 && farthest == farthest0
  }

  method Admit(ef: nat, candidates0: set<Cand>, farthest0: multiset<OrdF32>, nd: real, x: nat)
    returns (candidates: set<Cand>, farthest: multiset<OrdF32>)
    ensures Admitted(ef, candidates0, farthest0, nd, x, candidates, farthest)
  {
    hide IsGreatest;
    candidates, farthest := candidates0, farthest0;
    if |candidates| < ef {
      candidates, farthest := candidates + {Keyed(nd, x)}, farthest + multiset{OrdF32(nd)};
    } else if |farthest| > 0 {
      GreatestExists(farthest);
      var worstPending :| worstPending in farthest && IsGreatest(farthest, worstPending);
      GreatestUnique(farthest, worstPending);
      if nd < worstPending.value {
        farthest := farthest - multiset{worstPending} + multiset{OrdF32(nd)};
        candidates := candidates + {Keyed(nd, x)};
      }
    }
  }

  lemma SeenIsNotOffered(rows: seq<seq<real>>, query: seq<real>, ef: nat, b: Beam, x: nat)
    requires SameWidth(rows, query) && x < |rows| && x in b.seen
    ensures Offered(rows, query, ef, b, x) == b
  {
  }

  lemma UnseenIsAdmitted(rows: seq<seq<real>>, query: seq<real>, ef: nat, b0: Beam, x: nat, candidates: set<Cand>,
                         farthest: multiset<OrdF32>)
    requires SameWidth(rows, query) && x < |rows| && x !in b0.seen && Within(b0.frontier, |rows|)
    requires b0.frontier <= b0.seen
    requires Admitted(ef, Scored(rows, query, b0.frontier), b0.farthest, Score(rows, query, x).key, x, candidates, farthest)
    ensures
      var b := Offered(rows, query, ef, b0, x);
      && Within(b.frontier, |rows|) && b.frontier <= b.seen && b.seen == b0.seen + {x}
      && candidates == Scored(rows, query, b.frontier) && farthest == b.farthest
  {
    hide SquaredDistance, SameWidth, Scored, Greatest, IsGreatest;
    ScoredOne(rows, query, b0.frontier, x);
    ScoredCardinality(rows, query, b0.frontier);
  }

  /** Offers one neighbour. */
  method Offer(g: AcornGraph, ghost rows: seq<seq<real>>, query: seq<real>, ef: nat, x: nat, visited: array<bool>,
               candidates0: set<Cand>, farthest0: multiset<OrdF32>, ghost b0: Beam)
    returns (candidates: set<Cand>, farthest: multiset<OrdF32>)
    requires g.Holds(rows) && SameWidth(rows, query) && x < |rows|
    requires visited.Length == |rows| && Marks(visited, b0.seen) && Within(b0.frontier, |rows|) && b0.frontier <= b0.seen
    requires candidates0 == Scored(rows, query, b0.frontier) && farthest0 == b0.farthest
    modifies visited
    ensures
      var b := Offered(rows, query, ef, b0, x);
      && Within(b.frontier, |rows|) && b.frontier <= b.seen && Marks(visited, b.seen)
      && candidates == Scored(rows, query, b.frontier) && farthest == b.farthest
  {
    hide SquaredDistance, SameWidth, Scored, Offered, Admitted;
    candidates, farthest := candidates0, farthest0;
    if visited[x] {
      SeenIsNotOffered(rows, query, ef, b0, x);
      return;
    }
    visited[x] := true;
    var row := Row(g, x, rows);
    RowWidth(rows, query, x);
    var nd := L2Sq(row, query);
    candidates, farthest := Admit(ef, candidates, farthest, nd, x);
    UnseenIsAdmitted(rows, query, ef, b0, x, candidates, farthest);
  }

  /** Offers the neighbours of curr to the beam, in order. */
  method Expand(g: AcornGraph, ghost rows: seq<seq<real>>, query: seq<real>, ef: nat, curr: nat, visited: array<bool>,
                candidates0: set<Cand>, farthest0: multiset<OrdF32>, ghost b0: Beam)
    returns (candidates: set<Cand>, farthest: multiset<OrdF32>, ghost b: Beam)
    requires g.Holds(rows) && SameWidth(rows, query) && curr < |rows|
    requires visited.Length == |rows| && Marks(visited, b0.seen) && Within(b0.frontier, |rows|) && b0.frontier <= b0.seen
    requires candidates0 == Scored(rows, query, b0.frontier) && farthest0 == b0.farthest
    requires AreNodes(g.neighbors[curr], |rows|)
    modifies visited
    ensures b == OfferedAll(rows, query, ef, b0, g.neighbors[curr])
    ensures Within(b.frontier, |rows|) && Marks(visited, b.seen)
    ensures candidates == Scored(rows, query, b.frontier) && farthest == b.farthest
  {
    hide SquaredDistance, SameWidth, Scored, Flatten, OfferedAll, Offered, Marks;
    candidates, farthest, b := candidates0, farthest0, b0;
    var list := g.neighbors[curr];
    assert list[..0] == [];
    NothingOffered(rows, query, ef, b0);
    for m := 0 to |list|
      invariant b == OfferedAll(rows, query, ef, b0, list[..m])
      invariant Within(b.frontier, |rows|) && Marks(visited, b.seen) && b.frontier <= b.seen
      invariant candidates == Scored(rows, query, b.frontier) && farthest == b.farthest
    {
      OfferedOneMore(rows, query, ef, b0, list, m);
      candidates, farthest := Offer(g, rows, query, ef, list[m], visited, candidates, farthest, b);
      b := Offered(rows, query, ef, b, list[m]);
    }
    assert list[..|list|] == list;
  }

  lemma NothingOffered(rows: seq<seq<real>>, query: seq<real>, ef: nat, b: Beam)
    requires SameWidth(rows, query)
    ensures OfferedAll(rows, query, ef, b, []) == b
  {
  }

  lemma GreatestUnique(m: multiset<OrdF32>, w: OrdF32)
    requires |m| > 0 && IsGreatest(m, w)
    ensures w == Greatest(m)
  {
    assert w.value <= Greatest(m).value <= w.value;
  }

  /** What offering keeps: with a beam wide enough for all nodes, nothing seen is dropped. */
  lemma {:induction false} OfferedKeepsFrontier(g: AcornGraph, rows: seq<seq<real>>, query: seq<real>, ef: nat,
                                                entry: nat, popped: set<nat>, b0: Beam, curr: nat, xs: seq<nat>)
    requires g.Holds(rows) && SameWidth(rows, query)
    requires Frontier(g, entry, ef >= |rows|, popped, b0.frontier, b0.seen)
    requires curr in popped && curr < |rows| && AreNodes(xs, |rows|) && (forall x :: x in xs ==> x in g.neighbors[curr])
    ensures
      var b := OfferedAll(rows, query, ef, b0, xs);
      && Frontier(g, entry, ef >= |rows|, popped, b.frontier, b.seen)
      && b0.seen <= b.seen && (forall x :: x in xs ==> x in b.seen)
  {
    hide Reach, SquaredDistance, SameWidth, Frontier, Flatten, Scored, IsGreatest;
    if xs != [] {
      var n := |xs| - 1;
      var x, init := xs[n], xs[..n];
      assert xs == init + [x];
      OfferedKeepsFrontier(g, rows, query, ef, entry, popped, b0, curr, init);
      var b := OfferedAll(rows, query, ef, b0, init);
      InsideFrontier(g, entry, ef >= |rows|, popped, b.frontier, b.seen);
      FrontierFits(rows, query, popped, b.frontier);
      assert |popped| > 0;
      if x !in b.seen {
        assert x < |rows|;
        var push := Offered(rows, query, ef, b, x).frontier != b.frontier;
        assert x !in b.frontier;
        SeeNew(g, entry, ef >= |rows|, popped, b.frontier, b.seen, curr, x, push);
      }
    }
  }

  lemma ExpandedOneMore(g: AcornGraph, popped: set<nat>, curr: nat, seen0: set<nat>, seen: set<nat>)
    requires Expanded(g, popped - {curr}, seen0) && seen0 <= seen && curr < |g.neighbors|
    requires forall x :: x in g.neighbors[curr] ==> x in seen
    ensures Expanded(g, popped, seen)
  {
    forall x, y | x in popped && x < |g.neighbors| && y in g.neighbors[x]
      ensures y in seen
    {
      if x != curr {
        assert x in popped - {curr};
      }
    }
  }

  lemma InsideFrontier(g: AcornGraph, entry: nat, wide: bool, popped: set<nat>, frontier: set<nat>, seen: set<nat>)
    requires Frontier(g, entry, wide, popped, frontier, seen)
    ensures Within(seen, |g.neighbors|) && Within(popped, |g.neighbors|) && Within(frontier, |g.neighbors|)
    ensures frontier <= seen && popped <= seen && popped !! frontier && entry in seen
  {
  }

  /** The heap of results after a passing node is pushed and, beyond k, the worst evicted. */
  method Push(results: set<Cand>, c: Cand, k: nat) returns (r: set<Cand>)
    ensures |results + {c}| <= k ==> r == results + {c}
    ensures |results + {c}| > k ==> exists m :: IsMax(results + {c}, m) && r == results + {c} - {m}
  {
    r := results + {c};
    if |r| > k {
      var worst, rest := PopMax(r);
      r := rest;
    }
  }

  // ---------------------------------------------------------------- the whole search

  /** What the loop keeps. */
  ghost predicate SearchInv(g: AcornGraph, rows: seq<seq<real>>, query: seq<real>, k: nat, passes: nat -> bool,
                            entry: nat, wide: bool, popped: set<nat>, b: Beam, results: set<Cand>)
    requires g.Holds(rows) && SameWidth(rows, query)
  {
    && Frontier(g, entry, wide, popped, b.frontier, b.seen) && Expanded(g, popped, b.seen)
    && Within(popped, |rows|) && Within(b.frontier, |rows|) && Within(b.seen, |rows|)
    && IsTopK(results, Scored(rows, query, PassingOf(popped, passes)), k)
    && if popped == {} then results == {} && b == FirstBeam(rows, query, entry) else entry in popped
  }

  ghost function FirstBeam(rows: seq<seq<real>>, query: seq<real>, entry: nat): Beam
    requires SameWidth(rows, query)
  {
    Beam({entry}, if entry < |rows| then multiset{OrdF32(Score(rows, query, entry).key)} else multiset{}, {entry})
  }

  /** Takes one popped candidate into account and expands it. */
  method Visit(g: AcornGraph, ghost rows: seq<seq<real>>, query: seq<real>, k: nat, ef: nat, passes: nat -> bool,
               curr: Cand, rest: set<Cand>, results0: set<Cand>, visited: array<bool>, farthest0: multiset<OrdF32>,
               ghost entry: nat, ghost popped: set<nat>, ghost b0: Beam)
    returns (candidates: set<Cand>, farthest: multiset<OrdF32>, results: set<Cand>, ghost b: Beam)
    requires g.Holds(rows) && SameWidth(rows, query)
    requires SearchInv(g, rows, query, k, passes, entry, ef >= |rows|, popped, b0, results0)
    requires curr in Scored(rows, query, b0.frontier) && rest == Scored(rows, query, b0.frontier) - {curr}
    requires visited.Length == |rows| && Marks(visited, b0.seen) && farthest0 == b0.farthest
    modifies visited
    ensures 0 <= curr.value < |rows| && curr.value !in popped
    ensures SearchInv(g, rows, query, k, passes, entry, ef >= |rows|, popped + {curr.value}, b, results)
    ensures Marks(visited, b.seen) && candidates == Scored(rows, query, b.frontier) && farthest == b.farthest
    ensures AreNodes(g.neighbors[curr.value], |rows|)
    ensures b == OfferedAll(rows, query, ef, b0.(frontier := b0.frontier - {curr.value}), g.neighbors[curr.value])
  {
    hide Reach, SquaredDistance, SameWidth, Scored, Frontier, Flatten, IsTopK, Expanded, Marks, OfferedAll, FirstBeam;
    ghost var wide := ef >= |rows|;
    ScoredWithout(rows, query, b0.frontier, curr);
    ghost var x: nat := curr.value;
    PopOne(g, entry, wide, popped, b0.frontier, b0.seen, x);
    PushEvict(rows, query, popped, x, passes, results0, k);
    results := results0;
    if passes(curr.value) {
      results := Push(results, curr, k);
    }
    ghost var popped', b1 := popped + {x}, b0.(frontier := b0.frontier - {x});
    InsideFrontier(g, entry, wide, popped', b1.frontier, b1.seen);
    NeighborsAreNodes(g, rows, x);
    candidates, farthest, b := Expand(g, rows, query, ef, curr.value, visited, rest, farthest0, b1);
    OfferedKeepsFrontier(g, rows, query, ef, entry, popped', b1, x, g.neighbors[x]);
    assert popped' - {x} == popped;
    ExpandedOneMore(g, popped', x, b1.seen, b.seen);
    InsideFrontier(g, entry, wide, popped', b.frontier, b.seen);
    EntryPopped(rows, query, popped, b0, entry, x);
  }

  lemma EntryPopped(rows: seq<seq<real>>, query: seq<real>, popped: set<nat>, b: Beam, entry: nat, x: nat)
    requires SameWidth(rows, query)
    requires if popped == {} then b == FirstBeam(rows, query, entry) else entry in popped
    requires x in b.frontier
    ensures entry in popped + {x}
  {
  }

  /** The nodes waiting after the entry has been expanded. */
  ghost function AfterEntry(g: AcornGraph, rows: seq<seq<real>>, query: seq<real>, ef: nat, entry: nat): set<nat>
    requires g.Holds(rows) && SameWidth(rows, query) && entry < |rows|
  {
    NeighborsAreNodes(g, rows, entry);
    OfferedAll(rows, query, ef, FirstBeam(rows, query, entry).(frontier := {}), g.neighbors[entry]).frontier
  }

  // ---------------------------------------------------------------- the search as a walk

  /** The beam after the nodes of a path have been expanded, one after the other. */
  ghost function Walked(g: AcornGraph, rows: seq<seq<real>>, query: seq<real>, ef: nat, entry: nat, path: seq<nat>): Beam
    requires g.Holds(rows) && SameWidth(rows, query) && AreNodes(path, |rows|)
  {
    if path == [] then FirstBeam(rows, query, entry)
    else
      var b, x := Walked(g, rows, query, ef, entry, path[..|path| - 1]), path[|path| - 1];
      NeighborsAreNodes(g, rows, x);
      OfferedAll(rows, query, ef, b.(frontier := b.frontier - {x}), g.neighbors[x])
  }

  /** x is the nearest of the waiting nodes; of several at one distance, the one with the smallest id. */
  ghost predicate IsNearest(rows: seq<seq<real>>, query: seq<real>, waiting: set<nat>, x: nat)
    requires SameWidth(rows, query) && Within(waiting, |rows|)
  {
    && x in waiting
    && forall y :: y in waiting && y != x ==>
         || SquaredDistance(rows[x], query) < SquaredDistance(rows[y], query)
         || (SquaredDistance(rows[x], query) == SquaredDistance(rows[y], query) && x < y)
  }

  /** The members of ids that pass and are nearer to the query than x. */
  ghost function Nearer(rows: seq<seq<real>>, query: seq<real>, passes: nat -> bool, ids: set<nat>, x: nat): set<nat>
    requires SameWidth(rows, query) && Within(ids, |rows|) && x < |rows|
  {
    set i | i in ids && passes(i) && SquaredDistance(rows[i], query) < SquaredDistance(rows[x], query)
  }

  /** k results are wanted, and k were found that are nearer than x. */
  ghost predicate Enough(rows: seq<seq<real>>, query: seq<real>, k: nat, passes: nat -> bool, path: seq<nat>, x: nat)
    requires SameWidth(rows, query) && AreNodes(path, |rows|) && x < |rows|
  {
    k > 0 && |Nearer(rows, query, passes, ToSet(path), x)| >= k
  }

  /** After path, x is the next node to be looked at. */
  ghost predicate ComesNext(g: AcornGraph, rows: seq<seq<real>>, query: seq<real>, ef: nat, entry: nat, path: seq<nat>,
                            x: nat)
    requires g.Holds(rows) && SameWidth(rows, query) && AreNodes(path, |rows|)
  {
    var waiting := Walked(g, rows, query, ef, entry, path).frontier;
    Within(waiting, |rows|) && IsNearest(rows, query, waiting, x)
  }

  /** The path goes from the entry always to the nearest waiting node, as long as there are not enough results. */
  ghost predicate IsWalk(g: AcornGraph, rows: seq<seq<real>>, query: seq<real>, k: nat, ef: nat, passes: nat -> bool,
                         entry: nat, path: seq<nat>)
    requires g.Holds(rows) && SameWidth(rows, query)
  {
    && AreNodes(path, |rows|)
    && forall i :: 0 <= i < |path| ==>
         ComesNext(g, rows, query, ef, entry, path[..i], path[i]) && !Enough(rows, query, k, passes, path[..i], path[i])
  }

  /** The walk ends when no node waits, or when there are enough results nearer than the nearest one. */
  ghost predicate IsWholeWalk(g: AcornGraph, rows: seq<seq<real>>, query: seq<real>, k: nat, ef: nat,
                              passes: nat -> bool, entry: nat, path: seq<nat>)
    requires g.Holds(rows) && SameWidth(rows, query)
  {
    && IsWalk(g, rows, query, k, ef, passes, entry, path)
    && (|| Walked(g, rows, query, ef, entry, path).frontier == {}
        || exists x: nat :: x < |rows| && ComesNext(g, rows, query, ef, entry, path, x)
                            && Enough(rows, query, k, passes, path, x))
  }

  lemma NearestUnique(rows: seq<seq<real>>, query: seq<real>, waiting: set<nat>, x: nat, y: nat)
    requires SameWidth(rows, query) && Within(waiting, |rows|)
    requires IsNearest(rows, query, waiting, x) && IsNearest(rows, query, waiting, y)
    ensures x == y
  {
    hide SquaredDistance;
  }

  lemma {:induction false} WalksShare(g: AcornGraph, rows: seq<seq<real>>, query: seq<real>, k: nat, ef: nat,
                                      passes: nat -> bool, entry: nat, path: seq<nat>, path': seq<nat>, n: nat)
    requires g.Holds(rows) && SameWidth(rows, query)
    requires IsWalk(g, rows, query, k, ef, passes, entry, path) && IsWalk(g, rows, query, k, ef, passes, entry, path')
    requires n <= |path| && n <= |path'|
    ensures path[..n] == path'[..n]
  {
    hide Walked, IsNearest, Enough;
    if n > 0 {
      var i := n - 1;
      WalksShare(g, rows, query, k, ef, passes, entry, path, path', i);
      NearestUnique(rows, query, Walked(g, rows, query, ef, entry, path[..i]).frontier, path[i], path'[i]);
      assert path[..n] == path[..i] + [path[i]] && path'[..n] == path'[..i] + [path'[i]];
    }
  }

  /** Graph, query, k, ef, predicate and entry determine the whole search. */
  lemma WholeWalkUnique(g: AcornGraph, rows: seq<seq<real>>, query: seq<real>, k: nat, ef: nat, passes: nat -> bool,
                        entry: nat, path: seq<nat>, path': seq<nat>)
    requires g.Holds(rows) && SameWidth(rows, query)
    requires IsWholeWalk(g, rows, query, k, ef, passes, entry, path)
    requires IsWholeWalk(g, rows, query, k, ef, passes, entry, path')
    ensures path == path'
  {
    if |path| <= |path'| {
      NoLongerWalk(g, rows, query, k, ef, passes, entry, path, path');
    } else {
      NoLongerWalk(g, rows, query, k, ef, passes, entry, path', path);
    }
  }

  lemma NoLongerWalk(g: AcornGraph, rows: seq<seq<real>>, query: seq<real>, k: nat, ef: nat, passes: nat -> bool,
                     entry: nat, path: seq<nat>, path': seq<nat>)
    requires g.Holds(rows) && SameWidth(rows, query) && |path| <= |path'|
    requires IsWholeWalk(g, rows, query, k, ef, passes, entry, path)
    requires IsWalk(g, rows, query, k, ef, passes, entry, path')
    ensures path == path'
  {
    hide Walked, Enough;
    var n := |path|;
    WalksShare(g, rows, query, k, ef, passes, entry, path, path', n);
    assert path[..n] == path && path'[..n] == path;
    if n < |path'| {
      assert ComesNext(g, rows, query, ef, entry, path'[..n], path'[n]);
      if x: nat :| x < |rows| && ComesNext(g, rows, query, ef, entry, path, x) && Enough(rows, query, k, passes, path, x) {
        NearestUnique(rows, query, Walked(g, rows, query, ef, entry, path).frontier, path'[n], x);
      }
    } else {
      assert path' == path'[..n];
    }
  }

  /** Nothing is found if and only if nothing is wanted or no expanded node passes. */
  lemma EmptyExactlyWhen(rows: seq<seq<real>>, query: seq<real>, k: nat, passes: nat -> bool, path: seq<nat>,
                         out: seq<Cand>)
    requires SameWidth(rows, query) && AreNodes(path, |rows|)
    requires IsTopK(ToSet(out), Scored(rows, query, PassingOf(ToSet(path), passes)), k)
    ensures out == [] <==> k == 0 || forall x :: x in path ==> !passes(x)
  {
    hide SquaredDistance;
    var s := Scored(rows, query, PassingOf(ToSet(path), passes));
    assert out == [] <==> ToSet(out) == {} by {
      assert out != [] ==> out[0] in ToSet(out);
    }
    if x :| x in path && passes(x) {
      assert Score(rows, query, x) in s;
    } else {
      assert s == {};
    }
  }

  // ---------------------------------------------------------------- the loop takes the walk

  lemma NearestIsMin(rows: seq<seq<real>>, query: seq<real>, waiting: set<nat>, c: Cand)
    requires SameWidth(rows, query) && Within(waiting, |rows|) && IsMin(Scored(rows, query, waiting), c)
    ensures 0 <= c.value < |rows| && IsNearest(rows, query, waiting, c.value) && c == Score(rows, query, c.value)
  {
    hide SquaredDistance;
    var x :| x in waiting && c == Score(rows, query, x);
    forall y | y in waiting && y != x
      ensures SquaredDistance(rows[x], query) < SquaredDistance(rows[y], query)
              || (SquaredDistance(rows[x], query) == SquaredDistance(rows[y], query) && x < y)
    {
      assert Score(rows, query, y) in Scored(rows, query, waiting);
    }
  }

  /** The test on the heap of results is a test on the nodes expanded. */
  lemma EnoughExactlyWhen(rows: seq<seq<real>>, query: seq<real>, k: nat, passes: nat -> bool, path: seq<nat>,
                          results: set<Cand>, x: nat)
    requires SameWidth(rows, query) && AreNodes(path, |rows|) && x < |rows|
    requires IsTopK(results, Scored(rows, query, PassingOf(ToSet(path), passes)), k)
    ensures
      Enough(rows, query, k, passes, path, x)
      <==> |results| >= k && results != {} && forall w :: IsMax(results, w) ==> Score(rows, query, x).key > w.key
  {
    hide SquaredDistance, SameWidth, Scored;
    var near, s := Nearer(rows, query, passes, ToSet(path), x), Scored(rows, query, PassingOf(ToSet(path), passes));
    ScoredCardinality(rows, query, near);
    NearerScored(rows, query, passes, ToSet(path), x);
    if |results| >= k && results != {} {
      MaxExists(results);
      var w :| IsMax(results, w);
      if Score(rows, query, x).key > w.key {
        assert results <= Scored(rows, query, near);
        SubsetCardinality(results, Scored(rows, query, near));
      } else if |near| >= k {
        assert Scored(rows, query, near) <= results - {w};
        SubsetCardinality(Scored(rows, query, near), results - {w});
      }
    } else if k > 0 && |near| >= k {
      SubsetCardinality(Scored(rows, query, near), s);
    }
  }

  lemma NearerScored(rows: seq<seq<real>>, query: seq<real>, passes: nat -> bool, ids: set<nat>, x: nat)
    requires SameWidth(rows, query) && Within(ids, |rows|) && x < |rows|
    ensures
      forall c :: c in Scored(rows, query, Nearer(rows, query, passes, ids, x)) <==>
                  c in Scored(rows, query, PassingOf(ids, passes)) && c.key < Score(rows, query, x).key
  {
    hide SquaredDistance, SameWidth;
  }

  /** What the loop has done so far. */
  ghost predicate SoFar(g: AcornGraph, rows: seq<seq<real>>, query: seq<real>, k: nat, ef: nat, passes: nat -> bool,
                        entry: nat, path: seq<nat>, popped: set<nat>, b: Beam)
    requires g.Holds(rows) && SameWidth(rows, query)
  {
    && IsWalk(g, rows, query, k, ef, passes, entry, path)
    && ToSet(path) == popped && b == Walked(g, rows, query, ef, entry, path)
  }

  lemma StartsWalk(g: AcornGraph, rows: seq<seq<real>>, query: seq<real>, k: nat, ef: nat, passes: nat -> bool,
                   entry: nat)
    requires g.Holds(rows) && SameWidth(rows, query)
    ensures SoFar(g, rows, query, k, ef, passes, entry, [], {}, FirstBeam(rows, query, entry))
  {
  }

  /** One more node is expanded. */
  lemma WalksOn(g: AcornGraph, rows: seq<seq<real>>, query: seq<real>, k: nat, ef: nat, passes: nat -> bool,
                entry: nat, path: seq<nat>, x: nat)
    requires g.Holds(rows) && SameWidth(rows, query) && x < |rows|
    requires IsWalk(g, rows, query, k, ef, passes, entry, path)
    requires ComesNext(g, rows, query, ef, entry, path, x) && !Enough(rows, query, k, passes, path, x)
    requires AreNodes(g.neighbors[x], |rows|)
    ensures IsWalk(g, rows, query, k, ef, passes, entry, path + [x])
    ensures
      var b := Walked(g, rows, query, ef, entry, path);
      Walked(g, rows, query, ef, entry, path + [x])
      == OfferedAll(rows, query, ef, b.(frontier := b.frontier - {x}), g.neighbors[x])
    ensures ToSet(path + [x]) == ToSet(path) + {x}
  {
    hide SquaredDistance, SameWidth, OfferedAll, Enough, ComesNext, Flatten, FirstBeam;
    var path' := path + [x];
    assert path'[..|path|] == path;
    forall i | 0 <= i < |path'|
      ensures ComesNext(g, rows, query, ef, entry, path'[..i], path'[i])
              && !Enough(rows, query, k, passes, path'[..i], path'[i])
    {
      if i < |path| {
        assert path'[..i] == path[..i];
      }
    }
  }

  lemma WalkOfNodes(g: AcornGraph, rows: seq<seq<real>>, query: seq<real>, k: nat, ef: nat, passes: nat -> bool,
                    entry: nat, path: seq<nat>)
    requires g.Holds(rows) && SameWidth(rows, query) && IsWalk(g, rows, query, k, ef, passes, entry, path)
    ensures AreNodes(path, |rows|)
  {
  }

  lemma WalkStops(g: AcornGraph, rows: seq<seq<real>>, query: seq<real>, k: nat, ef: nat, passes: nat -> bool,
                  entry: nat, path: seq<nat>, popped: set<nat>, b: Beam, results: set<Cand>, c: Cand)
    requires g.Holds(rows) && SameWidth(rows, query) && Within(b.frontier, |rows|)
    requires SoFar(g, rows, query, k, ef, passes, entry, path, popped, b)
    requires Within(popped, |rows|) && IsTopK(results, Scored(rows, query, PassingOf(popped, passes)), k)
    requires IsMin(Scored(rows, query, b.frontier), c)
    requires |results| >= k && results != {} && forall w :: IsMax(results, w) ==> c.key > w.key
    ensures IsWholeWalk(g, rows, query, k, ef, passes, entry, path)
  {
    hide SquaredDistance, SameWidth, OfferedAll, IsTopK, Scored, Enough, IsNearest, IsMin, IsMax;
    NearestIsMin(rows, query, b.frontier, c);
    EnoughExactlyWhen(rows, query, k, passes, path, results, c.value);
    assert ComesNext(g, rows, query, ef, entry, path, c.value);
  }

  /** The search.  rootN stands for the rounded square root of the number of nodes; the number of probes is rootN, clamped
      to 4..64, and the beam is at least k.  path lists the nodes in the order in which they were expanded, peak is the most
      that waited after an expansion. */
  method AcornSearch(g: AcornGraph, ghost rows: seq<seq<real>>, query: seq<real>, k: nat, ef0: nat, rootN: nat,
                     passes: nat -> bool)
    returns (out: seq<Cand>, ghost entry: nat, ghost seen: set<nat>, ghost path: seq<nat>, ghost peak: nat)
    requires g.Holds(rows) && SameWidth(rows, query)
    ensures g.dim == 0 ==> out == []
    ensures |path| <= |rows| && peak < |rows|
    ensures g.dim > 0 ==>
      var ef := if ef0 < k then k else ef0;
      && IsBestProbe(rows, query, if rootN < 4 then 4 else if rootN > 64 then 64 else rootN, entry)
      && IsWholeWalk(g, rows, query, k, ef, passes, entry, path) && seen == Walked(g, rows, query, ef, entry, path).seen
      && Sorted(out) && Enumerates(out, ToSet(out))
      && IsTopK(ToSet(out), Scored(rows, query, PassingOf(ToSet(path), passes)), k)
      && Answer(g, rows, query, k, passes, entry, seen, ef >= |rows|, ToSet(out))
      && |AfterEntry(g, rows, query, ef, entry)| <= peak
  {
    hide Reach, SquaredDistance, SameWidth, Scored, Flatten, IsTopK, Answer, IsBestProbe, IsWholeWalk, Walked, Promised,
         AfterEntry;
    LenOfHeld(g, rows);
    out, entry, seen, path, peak := [], 0, {}, [], 0;
    if g.Len() == 0 {
      return;
    }
    var ef := if ef0 < k then k else ef0;
    var probes := if rootN < 4 then 4 else if rootN > 64 then 64 else rootN;
    var start := BestProbe(g, rows, query, probes);
    entry := start;
    assert start < |rows| by {
      ProbeIsNode(rows, query, probes, start);
    }
    var results;
    ghost var b;
    results, path, b, peak := SearchFrom(g, rows, query, k, ef, passes, start);
    Kept(g, rows, query, k, ef, passes, entry, path, b, results);
    seen := b.seen;
    out := SortByDistance(results);
  }

  /** The search from its entry on. */
  method SearchFrom(g: AcornGraph, ghost rows: seq<seq<real>>, query: seq<real>, k: nat, ef: nat, passes: nat -> bool,
                    start: nat)
    returns (results: set<Cand>, ghost path: seq<nat>, ghost b: Beam, ghost peak: nat)
    requires g.Holds(rows) && SameWidth(rows, query) && start < |rows| && g.Len() > 0
    ensures Promised(g, rows, query, k, ef, passes, start, path, b, results)
    ensures |path| <= |rows| && peak < |rows| && |AfterEntry(g, rows, query, ef, start)| <= peak
  {
    hide Reach, SquaredDistance, SameWidth, Scored, Flatten, IsTopK, Marks, OfferedAll, Promised, AfterEntry, IsMin, LoopInv,
         SearchInv;
    LenOfHeld(g, rows);
    var visited := new bool[g.Len()](_ => false);
    var row := Row(g, start, rows);
    RowWidth(rows, query, start);
    var d0 := L2Sq(row, query);
    var first: Cand := Keyed(d0, start);
    var candidates: set<Cand> := {first};
    results, path, peak := {}, [], 0;
    var farthest := multiset{OrdF32(d0)};
    visited[start] := true;
    ghost var popped: set<nat> := {};
    b := FirstBeam(rows, query, start);
    LoopStarts(g, rows, query, k, ef, passes, start);
    assert Marks(visited, b.seen) by {
      MarkedStart(visited, start);
    }
    while candidates != {}
      invariant visited.Length == |rows| && Marks(visited, b.seen)
      invariant LoopInv(g, rows, query, k, ef, passes, start, path, popped, b, results, peak)
      invariant Within(b.frontier, |rows|) && candidates == Scored(rows, query, b.frontier) && farthest == b.farthest
      invariant candidates == {} ==> Promised(g, rows, query, k, ef, passes, start, path, b, results)
      invariant |path| <= |rows| && peak < |rows| && (path != [] ==> |AfterEntry(g, rows, query, ef, start)| <= peak)
      decreases |rows| - |path|
    {
      var curr, rest := PopMin(candidates);
      if |results| >= k && results != {} {
        var worst, _ := PopMax(results);
        if curr.key > worst.key {
          StoppedAnswer(g, rows, query, k, ef, passes, start, path, popped, b, results, peak, curr, worst);
          break;
        }
      }
      ghost var before, found := b, results;
      LoopKeepsSearchInv(g, rows, query, k, ef, passes, start, path, popped, b, results, peak);
      candidates, farthest, results, b :=
        Visit(g, rows, query, k, ef, passes, curr, rest, results, visited, farthest, start, popped, before);
      ghost var x: nat := curr.value;
      LoopGoesOn(g, rows, query, k, ef, passes, start, path, popped, before, found, peak, curr, x, b, results);
      path, popped, peak := path + [x], popped + {x}, if |b.frontier| > peak then |b.frontier| else peak;
      if candidates == {} {
        ExhaustedAnswer(g, rows, query, k, ef, passes, start, path, popped, b, results, peak);
      }
    }
    PathNotEmpty(g, rows, query, k, ef, passes, start, path, b, results);
  }

  lemma PathNotEmpty(g: AcornGraph, rows: seq<seq<real>>, query: seq<real>, k: nat, ef: nat, passes: nat -> bool,
                     entry: nat, path: seq<nat>, b: Beam, results: set<Cand>)
    requires g.Holds(rows) && SameWidth(rows, query)
    requires Promised(g, rows, query, k, ef, passes, entry, path, b, results)
    ensures path != []
  {
  }

  /** What the loop keeps: its invariant, the walk so far, and the most that waited. */
  ghost predicate LoopInv(g: AcornGraph, rows: seq<seq<real>>, query: seq<real>, k: nat, ef: nat, passes: nat -> bool,
                          entry: nat, path: seq<nat>, popped: set<nat>, b: Beam, results: set<Cand>, peak: nat)
    requires g.Holds(rows) && SameWidth(rows, query)
  {
    && entry < |rows| && SearchInv(g, rows, query, k, passes, entry, ef >= |rows|, popped, b, results)
    && SoFar(g, rows, query, k, ef, passes, entry, path, popped, b) && |path| == |popped|
    && (popped != {} ==> |AfterEntry(g, rows, query, ef, entry)| <= peak)
  }

  lemma LoopKeepsSearchInv(g: AcornGraph, rows: seq<seq<real>>, query: seq<real>, k: nat, ef: nat, passes: nat -> bool,
                           entry: nat, path: seq<nat>, popped: set<nat>, b: Beam, results: set<Cand>, peak: nat)
    requires g.Holds(rows) && SameWidth(rows, query)
    requires LoopInv(g, rows, query, k, ef, passes, entry, path, popped, b, results, peak)
    ensures SearchInv(g, rows, query, k, passes, entry, ef >= |rows|, popped, b, results)
  {
  }

  lemma LoopStarts(g: AcornGraph, rows: seq<seq<real>>, query: seq<real>, k: nat, ef: nat, passes: nat -> bool,
                   start: nat)
    requires g.Holds(rows) && SameWidth(rows, query) && start < |rows|
    ensures LoopInv(g, rows, query, k, ef, passes, start, [], {}, FirstBeam(rows, query, start), {}, 0)
    ensures Scored(rows, query, {start}) == {Score(rows, query, start)}
  {
    hide SearchInv, SoFar, AfterEntry;
    StartSearch(g, rows, query, k, passes, start, ef >= |rows|);
    StartsWalk(g, rows, query, k, ef, passes, start);
  }

  /** One more round of the loop. */
  lemma LoopGoesOn(g: AcornGraph, rows: seq<seq<real>>, query: seq<real>, k: nat, ef: nat, passes: nat -> bool,
                   entry: nat, path: seq<nat>, popped: set<nat>, b: Beam, results: set<Cand>, peak: nat, c: Cand, x: nat,
                   b': Beam, results': set<Cand>)
    requires g.Holds(rows) && SameWidth(rows, query) && Within(b.frontier, |rows|)
    requires LoopInv(g, rows, query, k, ef, passes, entry, path, popped, b, results, peak)
    requires IsMin(Scored(rows, query, b.frontier), c) && c.value == x < |rows| && x !in popped
    requires AreNodes(g.neighbors[x], |rows|)
    requires |results| >= k && results != {} ==> exists w :: IsMax(results, w) && c.key <= w.key
    requires b' == OfferedAll(rows, query, ef, b.(frontier := b.frontier - {x}), g.neighbors[x])
    requires SearchInv(g, rows, query, k, passes, entry, ef >= |rows|, popped + {x}, b', results')
    ensures
      LoopInv(g, rows, query, k, ef, passes, entry, path + [x], popped + {x}, b', results',
              if |b'.frontier| > peak then |b'.frontier| else peak)
    ensures |path| < |rows| && |b'.frontier| < |rows| && |AfterEntry(g, rows, query, ef, entry)| <=
            if |b'.frontier| > peak then |b'.frontier| else peak
    ensures Within(b'.frontier, |rows|)
  {
    hide SearchInv, SoFar, AfterEntry, OfferedAll, IsMax, Scored, SquaredDistance, FirstBeam, SameWidth, Flatten;
    StepsOn(g, rows, query, k, ef, passes, entry, path, popped, b, results, c, x, b');
    BeamBounds(g, rows, query, k, passes, entry, ef >= |rows|, popped + {x}, b', results');
    if popped == {} {
      StartsAtFirst(g, rows, query, k, passes, entry, ef >= |rows|, b, results);
      FirstVisit(g, rows, query, ef, entry, b, c, b');
    }
  }

  lemma StartsAtFirst(g: AcornGraph, rows: seq<seq<real>>, query: seq<real>, k: nat, passes: nat -> bool, entry: nat,
                      wide: bool, b: Beam, results: set<Cand>)
    requires g.Holds(rows) && SameWidth(rows, query)
    requires SearchInv(g, rows, query, k, passes, entry, wide, {}, b, results)
    ensures b == FirstBeam(rows, query, entry)
  {
  }

  /** What the search has to show for itself when it ends. */
  ghost predicate Promised(g: AcornGraph, rows: seq<seq<real>>, query: seq<real>, k: nat, ef: nat, passes: nat -> bool,
                           entry: nat, path: seq<nat>, b: Beam, results: set<Cand>)
    requires g.Holds(rows) && SameWidth(rows, query)
  {
    && path != []
    && IsWholeWalk(g, rows, query, k, ef, passes, entry, path) && b == Walked(g, rows, query, ef, entry, path)
    && IsTopK(results, Scored(rows, query, PassingOf(ToSet(path), passes)), k)
    && Answer(g, rows, query, k, passes, entry, b.seen, ef >= |rows|, results)
  }

  /** The frontier and the popped nodes are all different. */
  lemma BeamBounds(g: AcornGraph, rows: seq<seq<real>>, query: seq<real>, k: nat, passes: nat -> bool, entry: nat,
                   wide: bool, popped: set<nat>, b: Beam, results: set<Cand>)
    requires g.Holds(rows) && SameWidth(rows, query) && popped != {}
    requires SearchInv(g, rows, query, k, passes, entry, wide, popped, b, results)
    ensures |popped| <= |rows| && |b.frontier| < |rows| && Within(b.frontier, |rows|)
  {
    hide Reach, SquaredDistance, SameWidth, Scored, IsTopK, Flatten, Expanded;
    FrontierFits(rows, query, popped, b.frontier);
    assert |popped| > 0;
  }

  lemma FirstVisit(g: AcornGraph, rows: seq<seq<real>>, query: seq<real>, ef: nat, entry: nat, before: Beam, curr: Cand,
                   b: Beam)
    requires g.Holds(rows) && SameWidth(rows, query) && entry < |rows| && before == FirstBeam(rows, query, entry)
    requires curr in Scored(rows, query, before.frontier) && 0 <= curr.value < |rows|
    requires AreNodes(g.neighbors[curr.value], |rows|)
    requires b == OfferedAll(rows, query, ef, before.(frontier := before.frontier - {curr.value}),
                             g.neighbors[curr.value])
    ensures b.frontier == AfterEntry(g, rows, query, ef, entry)
  {
    hide SquaredDistance, OfferedAll, Flatten;
    assert curr.value == entry;
    assert before.frontier - {curr.value} == {};
  }

  lemma NoneScored(rows: seq<seq<real>>, query: seq<real>, ids: set<nat>)
    requires SameWidth(rows, query) && Within(ids, |rows|) && Scored(rows, query, ids) == {}
    ensures ids == {}
  {
    forall i | i in ids
      ensures Score(rows, query, i) in Scored(rows, query, ids)
    {
    }
  }

  lemma MarkedStart(visited: array<bool>, start: nat)
    requires start < visited.Length && visited[start]
    requires forall i :: 0 <= i < visited.Length && i != start ==> !visited[i]
    ensures Marks(visited, {start})
  {
  }

  lemma StartSearch(g: AcornGraph, rows: seq<seq<real>>, query: seq<real>, k: nat, passes: nat -> bool, start: nat,
                    wide: bool)
    requires g.Holds(rows) && SameWidth(rows, query) && start < |rows|
    ensures SearchInv(g, rows, query, k, passes, start, wide, {}, FirstBeam(rows, query, start), {})
    ensures Scored(rows, query, {start}) == {Score(rows, query, start)}
  {
    hide SquaredDistance;
    ReachRefl(Links(g), start);
    assert PassingOf({}, passes) == {};
    assert Scored(rows, query, {}) == {};
  }

  lemma SubsetScored(rows: seq<seq<real>>, query: seq<real>, a: set<nat>, b: set<nat>)
    requires SameWidth(rows, query) && Within(b, |rows|) && a <= b
    ensures Scored(rows, query, a) <= Scored(rows, query, b)
  {
    hide SquaredDistance;
  }

  /** The search ran out of candidates: it has expanded everything it saw. */
  lemma ExhaustedAnswer(g: AcornGraph, rows: seq<seq<real>>, query: seq<real>, k: nat, ef: nat, passes: nat -> bool,
                        entry: nat, path: seq<nat>, popped: set<nat>, b: Beam, results: set<Cand>, peak: nat)
    requires g.Holds(rows) && SameWidth(rows, query) && popped != {}
    requires LoopInv(g, rows, query, k, ef, passes, entry, path, popped, b, results, peak)
    requires Scored(rows, query, b.frontier) == {}
    ensures Promised(g, rows, query, k, ef, passes, entry, path, b, results)
  {
    hide Reach, SquaredDistance, SameWidth, Scored, Flatten, IsTopK, IsWalk, Walked;
    NoneScored(rows, query, b.frontier);
    SubsetScored(rows, query, PassingOf(popped, passes), PassingOf(b.seen, passes));
    assert |results| <= k && results <= Scored(rows, query, PassingOf(popped, passes)) by {
      TopKSubset(results, Scored(rows, query, PassingOf(popped, passes)), k);
    }
    if ef >= |rows| {
      assert b.seen == popped;
      assert Closed(Links(g), b.seen);
    }
  }

  lemma TopKSubset(t: set<Cand>, s: set<Cand>, k: nat)
    requires IsTopK(t, s, k)
    ensures t <= s && |t| <= k
  {
  }

  /** The search stopped early: it has k results that nothing waiting can improve. */
  lemma StoppedAnswer(g: AcornGraph, rows: seq<seq<real>>, query: seq<real>, k: nat, ef: nat, passes: nat -> bool,
                      entry: nat, path: seq<nat>, popped: set<nat>, b: Beam, results: set<Cand>, peak: nat, curr: Cand,
                      worst: Cand)
    requires g.Holds(rows) && SameWidth(rows, query) && Within(b.frontier, |rows|)
    requires LoopInv(g, rows, query, k, ef, passes, entry, path, popped, b, results, peak) && |results| >= k
    requires IsMin(Scored(rows, query, b.frontier), curr) && IsMax(results, worst) && curr.key > worst.key
    ensures Promised(g, rows, query, k, ef, passes, entry, path, b, results)
  {
    hide Reach, SquaredDistance, SameWidth, Scored, Flatten, IsMin, IsTopK, IsWholeWalk, IsWalk, Walked;
    SubsetScored(rows, query, PassingOf(popped, passes), PassingOf(b.seen, passes));
    TopKSubset(results, Scored(rows, query, PassingOf(popped, passes)), k);
    StopIsSafe(rows, query, popped, b.frontier, passes, results, k, curr, worst);
    WalkStops(g, rows, query, k, ef, passes, entry, path, popped, b, results, curr);
    if ef >= |rows| {
      assert b.seen == popped + b.frontier;
    }
  }

  /** One more step of the loop is one more step of the walk. */
  lemma StepsOn(g: AcornGraph, rows: seq<seq<real>>, query: seq<real>, k: nat, ef: nat, passes: nat -> bool, entry: nat,
                path: seq<nat>, popped: set<nat>, b: Beam, results: set<Cand>, c: Cand, x: nat,
                b': Beam)
    requires g.Holds(rows) && SameWidth(rows, query)
    requires SearchInv(g, rows, query, k, passes, entry, ef >= |rows|, popped, b, results)
    requires SoFar(g, rows, query, k, ef, passes, entry, path, popped, b)
    requires IsMin(Scored(rows, query, b.frontier), c) && c.value == x < |rows| && AreNodes(g.neighbors[x], |rows|)
    requires |results| >= k && results != {} ==> exists w :: IsMax(results, w) && c.key <= w.key
    requires b' == OfferedAll(rows, query, ef, b.(frontier := b.frontier - {x}), g.neighbors[x])
    requires x !in popped
    ensures SoFar(g, rows, query, k, ef, passes, entry, path + [x], popped + {x}, b')
    ensures |path + [x]| == |path| + 1 && |popped + {x}| == |popped| + 1
  {
    hide SquaredDistance, SameWidth, OfferedAll, IsTopK, Scored, Frontier, Expanded, FirstBeam, Walked, IsWalk, Enough,
         IsNearest, IsMin, IsMax, Flatten;
    WalkOfNodes(g, rows, query, k, ef, passes, entry, path);
    NearestIsMin(rows, query, b.frontier, c);
    EnoughExactlyWhen(rows, query, k, passes, path, results, x);
    WalksOn(g, rows, query, k, ef, passes, entry, path, x);
  }

  lemma Kept(g: AcornGraph, rows: seq<seq<real>>, query: seq<real>, k: nat, ef: nat, passes: nat -> bool, entry: nat,
             path: seq<nat>, b: Beam, results: set<Cand>)
    requires g.Holds(rows) && SameWidth(rows, query)
    requires Promised(g, rows, query, k, ef, passes, entry, path, b, results)
    ensures path != [] && IsWholeWalk(g, rows, query, k, ef, passes, entry, path)
    ensures b.seen == Walked(g, rows, query, ef, entry, path).seen
    ensures IsTopK(results, Scored(rows, query, PassingOf(ToSet(path), passes)), k)
    ensures Answer(g, rows, query, k, passes, entry, b.seen, ef >= |rows|, results)
  {
  }

  // ---------------------------------------------------------------- when the answer is exact

  /** On a complete graph a wide search sees every node. */
  lemma CompleteGraphAllSeen(g: AcornGraph, rows: seq<seq<real>>, query: seq<real>, k: nat, passes: nat -> bool,
                             entry: nat, seen: set<nat>, found: set<Cand>)
    requires g.Holds(rows) && SameWidth(rows, query) && entry < |rows|
    requires Answer(g, rows, query, k, passes, entry, seen, true, found)
    requires ToSet(g.neighbors[entry]) == Others(|rows|, entry)
    ensures IsTopK(found, Scored(rows, query, Passing(|rows|, passes)), k)
  {
    hide Reach, SquaredDistance, SameWidth, Scored, IsTopK, Flatten;
    forall i: nat | i < |rows|
      ensures i in seen
    {
      if i != entry {
        assert i in Others(|rows|, entry);
        assert i in g.neighbors[entry];
      }
    }
    assert PassingOf(seen, passes) == Passing(|rows|, passes);
  }

  ghost function ReachablePassing(g: AcornGraph, entry: nat, passes: nat -> bool): set<nat> {
    set i: nat | i < |g.neighbors| && passes(i) && Reach(Links(g), entry, i)
  }

  /** On any graph, a wide search finds every passing node reachable from its entry when there are at most k of them. */
  lemma FewReachableAllFound(g: AcornGraph, rows: seq<seq<real>>, query: seq<real>, k: nat, passes: nat -> bool,
                             entry: nat, seen: set<nat>, found: set<Cand>)
    requires g.Holds(rows) && SameWidth(rows, query) && entry < |rows|
    requires Answer(g, rows, query, k, passes, entry, seen, true, found)
    requires |ReachablePassing(g, entry, passes)| <= k
    ensures found == Scored(rows, query, ReachablePassing(g, entry, passes))
  {
    hide SquaredDistance, SameWidth, Flatten;
    var all := ReachablePassing(g, entry, passes);
    assert PassingOf(seen, passes) <= all;
    if Closed(Links(g), seen) {
      forall i | i in all
        ensures i in seen
      {
        ReachStaysInClosed(Links(g), seen, entry, i);
      }
      assert PassingOf(seen, passes) == all;
      ScoredCardinality(rows, query, all);
      TopKOfSmall(found, Scored(rows, query, all), k);
    } else {
      SubsetScored(rows, query, PassingOf(seen, passes), all);
      ScoredCardinality(rows, query, all);
      SubsetCardinality(found, Scored(rows, query, all));
    }
  }

  /** Every result is a passing node reachable from the entry, with its true distance. */
  lemma ResultsAreSound(g: AcornGraph, rows: seq<seq<real>>, query: seq<real>, k: nat, passes: nat -> bool,
                        entry: nat, seen: set<nat>, wide: bool, out: seq<Cand>, c: Cand)
    requires g.Holds(rows) && SameWidth(rows, query) && entry < |rows|
    requires Answer(g, rows, query, k, passes, entry, seen, wide, ToSet(out)) && Enumerates(out, ToSet(out)) && c in out
    ensures |out| <= k && 0 <= c.value < |rows| && passes(c.value)
    ensures c == Score(rows, query, c.value) && Reach<nat>(Links(g), entry, c.value)
  {
    hide Reach, SquaredDistance, SameWidth, IsTopK;
    EnumeratesCardinality(out, ToSet(out));
    assert c in ToSet(out);
    var i :| i in PassingOf(seen, passes) && c == Score(rows, query, i);
    assert i in seen && i == c.value;
  }

  lemma NothingFoundExactlyWhen(rows: seq<seq<real>>, query: seq<real>, k: nat, passes: nat -> bool, found: set<Cand>)
    requires SameWidth(rows, query) && IsTopK(found, Scored(rows, query, Passing(|rows|, passes)), k)
    ensures found == {} <==> k == 0 || Passing(|rows|, passes) == {}
  {
    ScoredCardinality(rows, query, Passing(|rows|, passes));
  }

  /** Built with an edge budget of n - 1 and searched with a beam of n, the graph search and the filtered flat scan find
      the same nodes, and so does sorting everything: exactly when the vectors have coordinates or there is nothing to
      find.  Without coordinates the graph counts as empty and the graph search finds nothing. */
  method SearchesAgree(rows: seq<seq<real>>, query: seq<real>, k: nat, budget: nat, ef: nat, rootN: nat,
                       passes: nat -> bool)
    returns (fromGraph: seq<Cand>, fromScan: seq<Cand>)
    requires rows != [] && SameWidth(rows, query) && budget >= |rows| - 1 && ef >= |rows|
    ensures SortedAnswer(fromScan, Scored(rows, query, Passing(|rows|, passes)), k)
    ensures ToSet(fromScan) == ToSet(Take(Sort(ScoredList(rows, query, 0, passes)), k))
    ensures ToSet(fromGraph) == ToSet(fromScan) <==> |query| > 0 || k == 0 || Passing(|rows|, passes) == {}
    ensures Sorted(fromGraph)
  {
    hide SquaredDistance, Scored, IsTopK, Answer, ScoredList;
    var built := Build(rows, budget);
    assert built.Ok?;
    var g := built.value;
    fromScan := FlatFilteredSearch(rows, query, k, passes);
    ghost var all := Scored(rows, query, Passing(|rows|, passes));
    ExactIsTopK(rows, query, k, passes);
    TopKUnique(ToSet(fromScan), ToSet(Take(Sort(ScoredList(rows, query, 0, passes)), k)), all, k);
    ghost var entry, seen, path, peak;
    fromGraph, entry, seen, path, peak := AcornSearch(g, rows, query, k, ef, rootN, passes);
    BuiltHolds(g, rows, budget);
    NothingFoundExactlyWhen(rows, query, k, passes, ToSet(fromScan));
    if g.dim > 0 {
      GenerousBuildIsComplete(g, rows, budget, entry);
      CompleteGraphAllSeen(g, rows, query, k, passes, entry, seen, ToSet(fromGraph));
      TopKUnique(ToSet(fromGraph), ToSet(fromScan), all, k);
    } else {
      assert fromScan != [] ==> fromScan[0] in ToSet(fromScan);
    }
  }

  lemma BuiltHolds(g: AcornGraph, rows: seq<seq<real>>, budget: nat)
    requires IsBuilt(g, rows, budget)
    ensures g.Holds(rows) && g.dim == |rows[0]|
  {
  }
}
