/** Finite directed graphs and reachability along paths.

    A graph maps a vertex to the set of its successors.  A vertex that is not a key has no successors, which is how
    the repository treats the id of a missing task or an unknown parent.
 */
module Paths {
  import opened Collections

  type Graph<!T> = map<T, set<T>>

  ghost predicate Edge<T>(g: Graph<T>, u: T, v: T) {
    u in g && v in g[u]
  }

  ghost predicate Path<T>(g: Graph<T>, p: seq<T>) {
    && |p| > 0
    && forall i :: 0 <= i < |p| - 1 ==> Edge(g, p[i], p[i + 1])
  }

  /** p is a path from u to v; a single vertex is a path from itself to itself. */
  ghost predicate PathFrom<T>(g: Graph<T>, p: seq<T>, u: T, v: T) {
    Path(g, p) && p[0] == u && p[|p| - 1] == v
  }

  ghost predicate Reach<T(!new)>(g: Graph<T>, u: T, v: T) {
    exists p: seq<T> :: PathFrom(g, p, u, v)
  }

  /** No vertex reaches itself through at least one edge. */
  ghost predicate Acyclic<T(!new)>(g: Graph<T>) {
    forall u, v :: Edge(g, u, v) ==> !Reach(g, v, u)
  }

  /** s contains every successor of its members. */
  ghost predicate Closed<T>(g: Graph<T>, s: set<T>) {
    forall u :: u in s && u in g ==> g[u] <= s
  }

  lemma ReachRefl<T(!new)>(g: Graph<T>, u: T)
    ensures Reach(g, u, u)
  {
    assert PathFrom(g, [u], u, u);
  }

  lemma ReachEdge<T(!new)>(g: Graph<T>, u: T, v: T)
    requires Edge(g, u, v)
    ensures Reach(g, u, v)
  {
    assert PathFrom(g, [u, v], u, v);
  }

  lemma ReachTrans<T(!new)>(g: Graph<T>, u: T, v: T, w: T)
    requires Reach(g, u, v) && Reach(g, v, w)
    ensures Reach(g, u, w)
  {
    var p: seq<T> :| PathFrom(g, p, u, v);
    var q: seq<T> :| PathFrom(g, q, v, w);
    var r := p + q[1..];
    forall i | 0 <= i < |r| - 1
      ensures Edge(g, r[i], r[i + 1])
    {
      if i < |p| - 1 {
        assert Edge(g, p[i], p[i + 1]);
      } else {
        assert r[i] == q[i - (|p| - 1)];
        assert Edge(g, q[i - (|p| - 1)], q[i - (|p| - 1) + 1]);
      }
    }
    assert PathFrom(g, r, u, w);
  }

  /** A path is empty of edges or starts with one. */
  lemma ReachUnfold<T(!new)>(g: Graph<T>, u: T, v: T)
    requires Reach(g, u, v)
    ensures u == v || exists w :: Edge(g, u, w) && Reach(g, w, v)
  {
    var p: seq<T> :| PathFrom(g, p, u, v);
    if |p| > 1 {
      assert Edge(g, p[0], p[1]);
      forall i | 0 <= i < |p[1..]| - 1
        ensures Edge(g, p[1..][i], p[1..][i + 1])
      {
        assert Edge(g, p[i + 1], p[i + 2]);
      }
      assert PathFrom(g, p[1..], p[1], v);
    }
  }

  /** What a closed set contains, it keeps along every path. */
  lemma {:induction false} PathStaysInClosed<T(!new)>(g: Graph<T>, s: set<T>, p: seq<T>, i: nat)
    requires Path(g, p) && i < |p|
    requires Closed(g, s) && p[0] in s
    ensures p[i] in s
  {
    if i > 0 {
      PathStaysInClosed(g, s, p, i - 1);
      assert Edge(g, p[i - 1], p[i - 1 + 1]);
    }
  }

  lemma ReachStaysInClosed<T(!new)>(g: Graph<T>, s: set<T>, u: T, v: T)
    requires Reach(g, u, v)
    requires Closed(g, s) && u in s
    ensures v in s
  {
    var p: seq<T> :| PathFrom(g, p, u, v);
    PathStaysInClosed(g, s, p, |p| - 1);
  }

  /** A graph with more edges reaches at least as much. */
  lemma ReachMonotone<T(!new)>(g: Graph<T>, g': Graph<T>, u: T, v: T)
    requires forall x, y :: Edge(g, x, y) ==> Edge(g', x, y)
    requires Reach(g, u, v)
    ensures Reach(g', u, v)
  {
    var p: seq<T> :| PathFrom(g, p, u, v);
    forall i | 0 <= i < |p| - 1
      ensures Edge(g', p[i], p[i + 1])
    {
      assert Edge(g, p[i], p[i + 1]);
    }
    assert PathFrom(g', p, u, v);
  }

  /** Every edge of g climbs in rank, hence so does every path with at least one edge. */
  ghost predicate Ranked<T(!new)>(g: Graph<T>, rank: map<T, nat>) {
    forall u, v :: Edge(g, u, v) ==> u in rank && v in rank && rank[v] < rank[u]
  }

  lemma {:induction false} PathDescends<T(!new)>(g: Graph<T>, rank: map<T, nat>, p: seq<T>, i: nat)
    requires Ranked(g, rank) && Path(g, p) && i < |p|
    ensures i > 0 ==> p[0] in rank && p[i] in rank && rank[p[i]] < rank[p[0]]
  {
    if i > 0 {
      PathDescends(g, rank, p, i - 1);
      assert Edge(g, p[i - 1], p[i - 1 + 1]);
    }
  }

  lemma ReachDescends<T(!new)>(g: Graph<T>, rank: map<T, nat>, u: T, v: T)
    requires Ranked(g, rank) && Reach(g, u, v)
    ensures u == v || (u in rank && v in rank && rank[v] < rank[u])
  {
    var p: seq<T> :| PathFrom(g, p, u, v);
    PathDescends(g, rank, p, |p| - 1);
  }

  lemma RankedIsAcyclic<T(!new)>(g: Graph<T>, rank: map<T, nat>)
    requires Ranked(g, rank)
    ensures Acyclic(g)
  {
    forall u, v | Edge(g, u, v)
      ensures !Reach(g, v, u)
    {
      if Reach(g, v, u) {
        ReachDescends(g, rank, v, u);
      }
    }
  }

  /** Adding a vertex x that nothing points at changes no path between the old vertices, and x itself reaches exactly
      what its successors reach. */
  lemma ReachAfterNewSource<T(!new)>(g: Graph<T>, x: T, succs: set<T>, u: T, w: T)
    requires x !in g && succs <= g.Keys && Closed(g, g.Keys)
    ensures u in g ==> (Reach(g[x := succs], u, w) <==> Reach(g, u, w))
    ensures Reach(g[x := succs], x, w) <==> w == x || exists s :: s in succs && Reach(g, s, w)
  {
    var g' := g[x := succs];
    forall y, z | Edge(g, y, z) ensures Edge(g', y, z) {}
    forall y | y in g && Reach(g', y, w)
      ensures Reach(g, y, w)
    {
      var p: seq<T> :| PathFrom(g', p, y, w);
      forall i | 0 <= i < |p| - 1
        ensures Edge(g, p[i], p[i + 1])
      {
        PathStaysInClosed(g', g.Keys, p, i);
        assert Edge(g', p[i], p[i + 1]);
      }
      assert PathFrom(g, p, y, w);
    }
    if u in g && Reach(g, u, w) {
      ReachMonotone(g, g', u, w);
    }
    if Reach(g', x, w) {
      ReachUnfold(g', x, w);
    }
    ReachRefl(g', x);
    if s :| s in succs && Reach(g, s, w) {
      ReachMonotone(g, g', s, w);
      assert Edge(g', x, s);
      ReachEdge(g', x, s);
      ReachTrans(g', x, s, w);
    }
  }

  // ---------------------------------------------------------------- adding an edge

  ghost function WithEdge<T>(g: Graph<T>, u: T, v: T): Graph<T>
    requires u in g
  {
    g[u := g[u] + {v}]
  }

  /** A path through the new edge splits there. */
  lemma {:induction false} PathWithEdge<T(!new)>(g: Graph<T>, u: T, v: T, p: seq<T>, i: nat)
    requires u in g && Path(WithEdge(g, u, v), p) && i < |p|
    ensures Reach(g, p[0], p[i]) || (Reach(g, p[0], u) && Reach(g, v, p[i]))
  {
    hide Reach;
    if i == 0 {
      ReachRefl(g, p[0]);
    } else {
      PathWithEdge(g, u, v, p, i - 1);
      assert Edge(WithEdge(g, u, v), p[i - 1], p[i - 1 + 1]);
      if Edge(g, p[i - 1], p[i]) {
        ReachEdge(g, p[i - 1], p[i]);
        if Reach(g, p[0], p[i - 1]) {
          ReachTrans(g, p[0], p[i - 1], p[i]);
        } else {
          ReachTrans(g, v, p[i - 1], p[i]);
        }
      } else {
        ReachRefl(g, v);
      }
    }
  }

  lemma ReachWithEdge<T(!new)>(g: Graph<T>, u: T, v: T, x: T, y: T)
    requires u in g && Reach(WithEdge(g, u, v), x, y)
    ensures Reach(g, x, y) || (Reach(g, x, u) && Reach(g, v, y))
  {
    var p: seq<T> :| PathFrom(WithEdge(g, u, v), p, x, y);
    PathWithEdge(g, u, v, p, |p| - 1);
  }

  /** Adding the edge u to v to an acyclic graph closes a cycle exactly when v already reaches u. */
  lemma AcyclicWithEdge<T(!new)>(g: Graph<T>, u: T, v: T)
    requires u in g && Acyclic(g)
    ensures Acyclic(WithEdge(g, u, v)) <==> !Reach(g, v, u)
  {
    hide Reach;
    var g' := WithEdge(g, u, v);
    assert Edge(g', u, v);
    if Reach(g, v, u) {
      forall x, y | Edge(g, x, y) ensures Edge(g', x, y) {}
      ReachMonotone(g, g', v, u);
    } else {
      forall x, y | Edge(g', x, y)
        ensures !Reach(g', y, x)
      {
        if Reach(g', y, x) {
          ReachWithEdge(g, u, v, y, x);
          if Edge(g, x, y) {
            ReachEdge(g, x, y);
            if Reach(g, v, x) && Reach(g, y, u) {
              ReachTrans(g, v, x, y);
              ReachTrans(g, v, y, u);
            }
          }
        }
      }
    }
  }

  // ---------------------------------------------------------------- sinks

  /** In an acyclic graph every non-empty finite set has a member none of whose successors is in the set. */
  lemma {:induction false} SinkExists<T(!new)>(g: Graph<T>, s: set<T>) returns (sink: T)
    requires Acyclic(g) && s != {}
    ensures sink in s && forall y :: y in s ==> !Edge(g, sink, y)
    decreases |s|
  {
    hide Reach;
    var x :| x in s;
    var below := set y | y in s && y != x && Reach(g, x, y);
    forall y | Edge(g, x, y)
      ensures Reach(g, x, y) && y != x
    {
      ReachEdge(g, x, y);
      ReachRefl(g, x);
    }
    assert forall y :: y in s && Edge(g, x, y) ==> y in below;
    if below == {} {
      sink := x;
    } else {
      assert below <= s - {x};
      assert |s - {x}| == |s| - 1;
      SubsetCardinality(below, s - {x});
      sink := SinkExists(g, below);
      forall y | y in s
        ensures !Edge(g, sink, y)
      {
        if Edge(g, sink, y) {
          ReachEdge(g, sink, y);
          ReachTrans(g, x, sink, y);
        }
      }
    }
  }

  /** If everything that has an edge into s is in s, so is everything that reaches s. */
  lemma {:induction false} PathEndsInBackwardClosed<T(!new)>(g: Graph<T>, s: set<T>, p: seq<T>, i: nat)
    requires Path(g, p) && i < |p| && p[|p| - 1] in s
    requires forall x, y :: Edge(g, x, y) && y in s ==> x in s
    ensures p[i] in s
    decreases |p| - i
  {
    if i < |p| - 1 {
      PathEndsInBackwardClosed(g, s, p, i + 1);
      assert Edge(g, p[i], p[i + 1]);
    }
  }

  lemma ReachesIntoBackwardClosed<T(!new)>(g: Graph<T>, s: set<T>, u: T, v: T)
    requires Reach(g, u, v) && v in s
    requires forall x, y :: Edge(g, x, y) && y in s ==> x in s
    ensures u in s
  {
    var p: seq<T> :| PathFrom(g, p, u, v);
    PathEndsInBackwardClosed(g, s, p, 0);
  }
}
