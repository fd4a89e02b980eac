/** Many consensus nodes exchanging vertices in any order, with loss, duplication, finalization and pruning; and what
    their vector clocks mean in every such run.

    The history is the set of all vertices ever created.  No node holds it; it is what "ancestor" refers to. */
module ConsensusRuns {
  import opened Collections
  import opened Paths
  import opened Consensus

  type History = map<Id, Vertex>

  datatype Network = Network(nodes: map<NodeId, Node>, history: History, rank: map<Id, nat>)

  datatype Event =
    | Join(n: NodeId, quorum: nat)
    | Submit(n: NodeId, txId: Id, txType: TransactionType, data: seq<bv8>)
    | Create(n: NodeId, v: Vertex)
    | Deliver(n: NodeId, id: Id)
    | Finalize(n: NodeId)
    | Prune(n: NodeId, keep: nat)

  const EMPTY := Network(map[], map[], map[])

  /** Ids of new vertices are fresh, and a delivered vertex is one that some node created; it is refused when a parent
      is missing. */
  ghost predicate Next(s: Network, e: Event, s': Network) {
    match e
    case Join(n, quorum) =>
      n !in s.nodes && s' == s.(nodes := s.nodes[n := NewNode(n, quorum)])
    case Submit(n, txId, txType, data) =>
      n in s.nodes && s' == s.(nodes := s.nodes[n := Submitted(s.nodes[n], txId, txType, data)])
    case Create(n, v) =>
      && n in s.nodes && v.id !in s.history && IsNextVertex(s.nodes[n], v)
      && s' == Network(s.nodes[n := Created(s.nodes[n], v)], s.history[v.id := v], s.rank[v.id := |s.history|])
    case Deliver(n, id) =>
      && n in s.nodes && id in s.history
      && s' == if Deliverable(s.nodes[n], s.history[id])
               then s.(nodes := s.nodes[n := Delivered(s.nodes[n], s.history[id])]) else s
    case Finalize(n) =>
      n in s.nodes && s' == s.(nodes := s.nodes[n := Finalized(s.nodes[n])])
    case Prune(n, keep) =>
      && n in s.nodes && n in s'.nodes
      && IsPruned(s.nodes[n], keep, s'.nodes[n]) && s' == s.(nodes := s.nodes[n := s'.nodes[n]])
  }

  ghost predicate Run(states: seq<Network>, events: seq<Event>) {
    && |states| == |events| + 1
    && states[0] == EMPTY
    && forall i :: 0 <= i < |events| ==> Next(states[i], events[i], states[i + 1])
  }

  // ---------------------------------------------------------------- ancestry

  /** Edges lead from a vertex to its parents. */
  ghost function ParentGraph(h: History): Graph<Id> {
    map x | x in h :: ToSet(h[x].parents)
  }

  ghost predicate AncestorOrSelf(h: History, u: Id, v: Id) {
    Reach(ParentGraph(h), v, u)
  }

  ghost predicate StrictAncestor(h: History, u: Id, v: Id) {
    u != v && AncestorOrSelf(h, u, v)
  }

  /** A vertex's own entry in its clock: the how-manieth vertex of its creator it is. */
  function Number(v: Vertex): nat {
    Count(v.clock, v.nodeId)
  }

  // ---------------------------------------------------------------- invariant

  /** Parents were created earlier. */
  ghost predicate RankInv(h: History, rank: map<Id, nat>) {
    && rank.Keys == h.Keys
    && (forall x :: x in h ==> rank[x] < |h|)
    && (forall x, p :: x in h && p in h[x].parents ==> p in h && rank[p] < rank[x])
  }

  /** A vertex counts itself, and at least everything its parents count. */
  ghost predicate CountsParents(h: History, v: Vertex) {
    && 1 <= Number(v)
    && forall p :: p in v.parents && p in h ==> ClockLeq(h[p].clock, v.clock)
  }

  ghost predicate VertexInv(h: History) {
    forall x :: x in h ==> h[x].id == x && CountsParents(h, h[x])
  }

  ghost predicate HistoryInv(h: History, rank: map<Id, nat>) {
    RankInv(h, rank) && VertexInv(h)
  }

  ghost predicate ClocksMatchAncestry(h: History) {
    forall u, v :: u in h && v in h ==>
      (AncestorOrSelf(h, u, v) <==> Number(h[u]) <= Count(h[v].clock, h[u].nodeId))
  }

  /** What a node stores is what was created, and it never misses a parent. */
  ghost predicate StoreInv(h: History, n: NodeId, s: Node) {
    && s.nodeId == n
    && Known(s) <= h.Keys
    && (forall x :: x in s.vertices ==> s.vertices[x] == h[x])
    && (forall x, p :: x in Known(s) && p in h[x].parents ==> p in Known(s))
  }

  /** A node's clock covers the clocks of the vertices it knows, and tells which vertices those are. */
  ghost predicate ClockInv(h: History, s: Node) {
    && (forall x :: x in h && x in Known(s) ==> ClockLeq(h[x].clock, s.clock))
    && (forall u :: u in h ==> (u in Known(s) <==> Number(h[u]) <= Count(s.clock, h[u].nodeId)))
  }

  ghost predicate HasKnownChild(h: History, s: Node, x: Id) {
    exists y :: y in Known(s) && y in h && x in h[y].parents
  }

  ghost predicate FinalizedInv(h: History, s: Node) {
    forall x {:trigger HasKnownChild(h, s, x)} :: x in s.finalized ==> HasKnownChild(h, s, x)
  }

  ghost predicate NodeInv(h: History, n: NodeId, s: Node) {
    StoreInv(h, n, s) && ClockInv(h, s) && FinalizedInv(h, s)
  }

  ghost predicate Numbered(h: History, k: NodeId, i: nat) {
    exists u :: u in h && h[u].nodeId == k && Number(h[u]) == i
  }

  /** How many vertices node k has created. */
  ghost function Total(s: Network, k: NodeId): nat {
    if k in s.nodes then Count(s.nodes[k].clock, k) else 0
  }

  ghost predicate KnownToCreator(s: Network, u: Id) {
    u in s.history && s.history[u].nodeId in s.nodes && u in Known(s.nodes[s.history[u].nodeId])
  }

  /** Creators know their own vertices, nobody is ahead of a creator's count, and no number is skipped. */
  ghost predicate GlobalInv(s: Network) {
    && (forall u {:trigger KnownToCreator(s, u)} :: u in s.history ==> KnownToCreator(s, u))
    && (forall m, k :: m in s.nodes ==> Count(s.nodes[m].clock, k) <= Total(s, k))
    && (forall k, i {:trigger Numbered(s.history, k, i)} :: 1 <= i <= Total(s, k) ==> Numbered(s.history, k, i))
  }

  ghost predicate Inv(s: Network) {
    && HistoryInv(s.history, s.rank)
    && ClocksMatchAncestry(s.history)
    && (forall n {:trigger s.nodes[n]} :: n in s.nodes ==> NodeInv(s.history, n, s.nodes[n]))
    && GlobalInv(s)
  }

  lemma UnfoldNodeInv(h: History, n: NodeId, s: Node)
    requires NodeInv(h, n, s)
    ensures StoreInv(h, n, s) && ClockInv(h, s) && FinalizedInv(h, s)
  {
  }

  lemma ParentGraphClosed(h: History, rank: map<Id, nat>)
    requires RankInv(h, rank)
    ensures Closed(ParentGraph(h), h.Keys)
    ensures Ranked(ParentGraph(h), rank)
  {
  }

  // ---------------------------------------------------------------- steps that leave the history alone

  /** The ancestors of a deliverable vertex are known, or it itself. */
  lemma DeliverableAncestorsKnown(h: History, n: NodeId, s: Node, v: Vertex, u: Id)
    requires StoreInv(h, n, s) && v.id in h && h[v.id] == v && Deliverable(s, v)
    requires AncestorOrSelf(h, u, v.id)
    ensures u == v.id || u in Known(s)
  {
    hide Reach;
    var g, k := ParentGraph(h), Known(s) + {v.id};
    assert Closed(g, k);
    ReachStaysInClosed(g, k, v.id, u);
  }

  lemma DeliveredClock(s: Node, v: Vertex, k: NodeId)
    ensures Count(Delivered(s, v).clock, k) == Max(Count(s.clock, k), Count(v.clock, k))
  {
  }

  /** After delivery the clock still tells exactly which vertices are known. */
  lemma DeliverKeepsKnownByClock(h: History, n: NodeId, s: Node, v: Vertex, u: Id)
    requires StoreInv(h, n, s) && v.id in h && h[v.id] == v && Deliverable(s, v)
    requires u in h && (u in Known(s) <==> Number(h[u]) <= Count(s.clock, h[u].nodeId))
    requires AncestorOrSelf(h, u, v.id) <==> Number(h[u]) <= Count(v.clock, h[u].nodeId)
    ensures u in Known(s) + {v.id} <==> Number(h[u]) <= Count(Delivered(s, v).clock, h[u].nodeId)
  {
    hide Reach, StoreInv, Deliverable;
    DeliveredClock(s, v, h[u].nodeId);
    ReachRefl(ParentGraph(h), v.id);
    if AncestorOrSelf(h, u, v.id) {
      DeliverableAncestorsKnown(h, n, s, v, u);
    }
  }

  lemma DeliverKeepsClockInv(h: History, n: NodeId, s: Node, v: Vertex)
    requires StoreInv(h, n, s) && ClockInv(h, s) && v.id in h && h[v.id] == v && Deliverable(s, v)
    requires ClocksMatchAncestry(h)
    ensures ClockInv(h, Delivered(s, v))
  {
    hide AncestorOrSelf, StoreInv;
    var s' := Delivered(s, v);
    assert Known(s') == Known(s) + {v.id};
    forall u | u in h
      ensures u in Known(s') <==> Number(h[u]) <= Count(s'.clock, h[u].nodeId)
    {
      assert AncestorOrSelf(h, u, v.id) <==> Number(h[u]) <= Count(v.clock, h[u].nodeId);
      DeliverKeepsKnownByClock(h, n, s, v, u);
    }
  }

  /** Storing more keeps every known child. */
  lemma FinalizedInvGrows(h: History, s: Node, s': Node)
    requires FinalizedInv(h, s) && Known(s) <= Known(s') && s'.finalized == s.finalized
    ensures FinalizedInv(h, s')
  {
    forall x | x in s'.finalized
      ensures HasKnownChild(h, s', x)
    {
      assert HasKnownChild(h, s, x);
    }
  }

  lemma DeliverKeepsNodeInv(h: History, n: NodeId, s: Node, v: Vertex)
    requires NodeInv(h, n, s) && v.id in h && h[v.id] == v && Deliverable(s, v)
    requires ClocksMatchAncestry(h)
    ensures NodeInv(h, n, Delivered(s, v))
  {
    hide HasKnownChild, ClocksMatchAncestry;
    DeliverKeepsClockInv(h, n, s, v);
    FinalizedInvGrows(h, s, Delivered(s, v));
  }

  lemma FinalizeKeepsNodeInv(h: History, n: NodeId, s: Node)
    requires NodeInv(h, n, s)
    ensures NodeInv(h, n, Finalized(s)) && Known(Finalized(s)) == Known(s)
  {
    var s' := Finalized(s);
    assert Known(s') == Known(s);
    forall x | x in s'.finalized
      ensures HasKnownChild(h, s', x)
    {
      if x in s.finalized {
        assert HasKnownChild(h, s, x);
      } else {
        var y :| y in Children(s.vertices, x);
        assert y in Known(s') && x in h[y].parents;
      }
    }
  }

  lemma PruneKeepsKnown(s: Node, keep: nat, s': Node)
    requires IsPruned(s, keep, s')
    ensures Known(s') == Known(s)
  {
    forall x | x in Known(s)
      ensures x in Known(s')
    {
      if x in s.vertices && x !in s'.vertices {
        assert x in s.vertices.Keys - s'.vertices.Keys;
      }
    }
  }

  lemma PruneKeepsRest(s: Node, keep: nat, s': Node)
    requires IsPruned(s, keep, s')
    ensures s'.nodeId == s.nodeId && s'.clock == s.clock && s'.finalized == s.finalized
    ensures forall x :: x in s'.vertices ==> x in s.vertices && s'.vertices[x] == s.vertices[x]
  {
  }

  lemma PruneKeepsNodeInv(h: History, n: NodeId, s: Node, keep: nat, s': Node)
    requires NodeInv(h, n, s) && IsPruned(s, keep, s')
    ensures NodeInv(h, n, s') && Known(s') == Known(s)
  {
    hide IsPruned, Known, FinalizedInv, ClockLeq;
    PruneKeepsKnown(s, keep, s');
    PruneKeepsRest(s, keep, s');
    FinalizedInvGrows(h, s, s');
  }

  // ---------------------------------------------------------------- creating a vertex

  /** Every known vertex has a tip among its descendants, whatever has been pruned. */
  lemma {:induction false} KnownBelowSomeTip(h: History, rank: map<Id, nat>, n: NodeId, s: Node, x: Id)
    requires RankInv(h, rank) && StoreInv(h, n, s) && FinalizedInv(h, s) && x in Known(s)
    ensures exists t :: t in Tips(s.vertices) && AncestorOrSelf(h, x, t)
    decreases |h| - rank[x]
  {
    hide Reach;
    if HasKnownChild(h, s, x) {
      var y :| y in Known(s) && y in h && x in h[y].parents;
      assert rank[x] < rank[y];
      KnownBelowSomeTip(h, rank, n, s, y);
      var t :| t in Tips(s.vertices) && AncestorOrSelf(h, y, t);
      ReachEdge(ParentGraph(h), y, x);
      ReachTrans(ParentGraph(h), t, y, x);
    } else {
      assert x !in s.finalized;
      assert Children(s.vertices, x) == {};
      ReachRefl(ParentGraph(h), x);
      assert x in Tips(s.vertices);
    }
  }

  /** Creating a vertex changes no ancestry among the old ones. */
  lemma NewVertexKeepsAncestry(h: History, rank: map<Id, nat>, v: Vertex, u: Id, w: Id)
    requires RankInv(h, rank) && v.id !in h && ToSet(v.parents) <= h.Keys && w in h
    ensures AncestorOrSelf(h[v.id := v], u, w) <==> AncestorOrSelf(h, u, w)
  {
    hide Reach;
    var g, ps := ParentGraph(h), ToSet(v.parents);
    assert ParentGraph(h[v.id := v]) == g[v.id := ps];
    ParentGraphClosed(h, rank);
    ReachAfterNewSource(g, v.id, ps, w, u);
  }

  lemma NewVertexBelowParents(h: History, rank: map<Id, nat>, v: Vertex, ps: set<Id>, u: Id)
    requires RankInv(h, rank) && v.id !in h && ToSet(v.parents) == ps <= h.Keys
    ensures AncestorOrSelf(h[v.id := v], u, v.id) <==> u == v.id || exists t :: t in ps && AncestorOrSelf(h, u, t)
  {
    hide Reach;
    var g := ParentGraph(h);
    assert ParentGraph(h[v.id := v]) == g[v.id := ps];
    ParentGraphClosed(h, rank);
    ReachAfterNewSource(g, v.id, ps, v.id, u);
  }

  /** The ancestors of a newly created vertex are exactly what its creator knew. */
  lemma NewVertexAncestors(h: History, rank: map<Id, nat>, n: NodeId, s: Node, v: Vertex, u: Id)
    requires RankInv(h, rank) && StoreInv(h, n, s) && FinalizedInv(h, s)
    requires v.id !in h && Enumerates(v.parents, Tips(s.vertices))
    ensures AncestorOrSelf(h[v.id := v], u, v.id) <==> u == v.id || u in Known(s)
  {
    assert ToSet(v.parents) == Tips(s.vertices) <= Known(s) <= h.Keys;
    hide *;
    NewVertexBelowParents(h, rank, v, Tips(s.vertices), u);
    if u in Known(s) {
      KnownBelowSomeTip(h, rank, n, s, u);
    } else if t :| t in Tips(s.vertices) && AncestorOrSelf(h, u, t) {
      KnownIsClosed(h, n, s, t, u);
    }
  }

  lemma KnownIsClosed(h: History, n: NodeId, s: Node, t: Id, u: Id)
    requires StoreInv(h, n, s) && t in Known(s) && AncestorOrSelf(h, u, t)
    ensures u in Known(s)
  {
    hide Reach;
    assert Closed(ParentGraph(h), Known(s));
    ReachStaysInClosed(ParentGraph(h), Known(s), t, u);
  }

  lemma ClosedAncestry(h: History, rank: map<Id, nat>, u: Id, w: Id)
    requires RankInv(h, rank) && w in h && AncestorOrSelf(h, u, w)
    ensures u in h
  {
    hide Reach;
    ParentGraphClosed(h, rank);
    ReachStaysInClosed(ParentGraph(h), h.Keys, w, u);
  }

  /** No clock in the history is ahead of a node's own count of its vertices. */
  lemma CreatorKnowsMost(s: Network, n: NodeId, w: Id)
    requires Inv(s) && w in s.history
    ensures Count(s.history[w].clock, n) <= Total(s, n)
  {
    hide NodeInv, HistoryInv, ClocksMatchAncestry, Numbered;
    assert KnownToCreator(s, w);
    var c := s.history[w].nodeId;
    NodeOfInv(s, c);
    hide Inv;
    KnownClockLeq(s.history, c, s.nodes[c], w, n);
  }

  lemma KnownClockLeq(h: History, n: NodeId, s: Node, w: Id, k: NodeId)
    requires NodeInv(h, n, s) && w in h && w in Known(s)
    ensures Count(h[w].clock, k) <= Count(s.clock, k)
  {
    hide StoreInv, FinalizedInv;
    assert ClockLeq(h[w].clock, s.clock);
  }

  /** A clock advanced from the node's counts exactly what the node knows. */
  lemma AdvancedClockCountsKnown(s: Network, n: NodeId, v: Vertex, u: Id)
    requires Inv(s) && n in s.nodes && AdvancesClock(s.nodes[n], v) && u in s.history
    ensures Number(s.history[u]) <= Count(v.clock, s.history[u].nodeId) <==> u in Known(s.nodes[n])
  {
    hide FinalizedInv, RankInv, VertexInv, ClocksMatchAncestry, Numbered;
    assert NodeInv(s.history, n, s.nodes[n]);
    if s.history[u].nodeId == n {
      assert KnownToCreator(s, u);
    }
  }

  /** The new vertex's clock tells its ancestors. */
  lemma NewVertexClockMatches(s: Network, n: NodeId, v: Vertex, u: Id)
    requires Inv(s) && n in s.nodes && v.id !in s.history && IsNextVertex(s.nodes[n], v)
    requires u in s.history
    ensures AncestorOrSelf(s.history[v.id := v], u, v.id) <==>
            Number(s.history[u]) <= Count(v.clock, s.history[u].nodeId)
  {
    hide AncestorOrSelf, FinalizedInv, RankInv, VertexInv, ClocksMatchAncestry, Numbered;
    assert NodeInv(s.history, n, s.nodes[n]);
    NewVertexAncestors(s.history, s.rank, n, s.nodes[n], v, u);
    AdvancedClockCountsKnown(s, n, v, u);
  }

  /** No old vertex descends from the new one, and no old clock has reached its number. */
  lemma OldVertexClockMatches(s: Network, n: NodeId, v: Vertex, w: Id)
    requires Inv(s) && n in s.nodes && v.id !in s.history && AdvancesClock(s.nodes[n], v)
    requires w in s.history
    ensures !AncestorOrSelf(s.history, v.id, w) && !(Number(v) <= Count(s.history[w].clock, n))
  {
    hide NodeInv, AncestorOrSelf, RankInv, VertexInv, ClocksMatchAncestry, GlobalInv;
    NodeOfInv(s, n);
    UnfoldNodeInv(s.history, n, s.nodes[n]);
    CreatorKnowsMost(s, n, w);
    if AncestorOrSelf(s.history, v.id, w) {
      ClosedAncestry(s.history, s.rank, v.id, w);
    }
  }

  lemma CreateKeepsAncestry(s: Network, n: NodeId, v: Vertex, s': Network)
    requires Inv(s) && Next(s, Create(n, v), s') && ToSet(v.parents) <= s.history.Keys && v.nodeId == n
    ensures ClocksMatchAncestry(s'.history)
  {
    hide AncestorOrSelf, NodeInv, RankInv, VertexInv, GlobalInv;
    var h, h' := s.history, s'.history;
    forall u, w | u in h' && w in h'
      ensures AncestorOrSelf(h', u, w) <==> Number(h'[u]) <= Count(h'[w].clock, h'[u].nodeId)
    {
      if w != v.id {
        NewVertexKeepsAncestry(h, s.rank, v, u, w);
        if u == v.id {
          OldVertexClockMatches(s, n, v, w);
        }
      } else if u != v.id {
        NewVertexClockMatches(s, n, v, u);
      } else {
        AncestorOfItself(h', u);
      }
    }
  }

  lemma AncestorOfItself(h: History, u: Id)
    ensures AncestorOrSelf(h, u, u)
  {
    ReachRefl(ParentGraph(h), u);
  }

  lemma CreateKeepsRankInv(h: History, rank: map<Id, nat>, v: Vertex)
    requires RankInv(h, rank) && v.id !in h && ToSet(v.parents) <= h.Keys
    ensures RankInv(h[v.id := v], rank[v.id := |h|])
  {
    assert |h[v.id := v]| == |h| + 1;
    forall p | p in v.parents
      ensures p in h
    {
      assert p in ToSet(v.parents);
    }
  }

  lemma NewVertexCountsParents(h: History, n: NodeId, s: Node, v: Vertex)
    requires StoreInv(h, n, s) && ClockInv(h, s)
    requires v.id !in h && IsNextVertex(s, v)
    ensures ToSet(v.parents) <= h.Keys
    ensures CountsParents(h, v)
  {
    hide ClockLeq;
    forall p | p in v.parents
      ensures p in h && ClockLeq(h[p].clock, v.clock)
    {
      assert p in Tips(s.vertices);
      AdvancedClockLeq(h[p].clock, s.clock, v.clock, n);
    }
  }

  lemma ClockLeqRefl(c: Clock)
    ensures ClockLeq(c, c)
  {
  }

  lemma AdvancedClockLeq(c: Clock, a: Clock, b: Clock, n: NodeId)
    requires ClockLeq(c, a) && b == a[n := Count(a, n) + 1]
    ensures ClockLeq(c, b)
  {
  }

  lemma CreateKeepsVertexInv(h: History, rank: map<Id, nat>, v: Vertex)
    requires RankInv(h, rank) && VertexInv(h) && v.id !in h && CountsParents(h, v) && ToSet(v.parents) <= h.Keys
    ensures VertexInv(h[v.id := v])
  {
    hide ClockLeq;
    var h' := h[v.id := v];
    assert v.id !in v.parents by {
      assert v.id !in ToSet(v.parents);
    }
    forall x | x in h
      ensures CountsParents(h', h[x])
    {
      assert CountsParents(h, h[x]);
    }
    assert CountsParents(h', v);
  }

  lemma LongerHistoryKeepsFinalized(h: History, t: Node, v: Vertex, t': Node)
    requires FinalizedInv(h, t) && v.id !in h && Known(t) <= Known(t') && t'.finalized == t.finalized
    ensures FinalizedInv(h[v.id := v], t')
  {
    forall x | x in t'.finalized
      ensures HasKnownChild(h[v.id := v], t', x)
    {
      assert HasKnownChild(h, t, x);
    }
  }

  /** A vertex numbered above a node's count of its creator is unknown to the node. */
  lemma NewVertexKeepsNode(h: History, m: NodeId, t: Node, v: Vertex)
    requires NodeInv(h, m, t) && v.id !in h && Count(t.clock, v.nodeId) < Number(v)
    ensures NodeInv(h[v.id := v], m, t)
  {
    hide FinalizedInv, ClockLeq;
    LongerHistoryKeepsFinalized(h, t, v, t);
  }

  lemma CreateKeepsClockInv(h: History, n: NodeId, t: Node, v: Vertex)
    requires ClockInv(h, t) && v.id !in h && IsNextVertex(t, v) && t.nodeId == n
    requires forall u :: u in h && h[u].nodeId == n ==> u in Known(t)
    ensures ClockInv(h[v.id := v], Created(t, v))
  {
    hide ClockLeq;
    var h', t' := h[v.id := v], Created(t, v);
    assert Known(t') == Known(t) + {v.id};
    forall x | x in h' && x in Known(t')
      ensures ClockLeq(h'[x].clock, t'.clock)
    {
      if x == v.id {
        ClockLeqRefl(v.clock);
      } else {
        AdvancedClockLeq(h[x].clock, t.clock, t'.clock, n);
      }
    }
  }

  lemma CreateKeepsCreator(h: History, n: NodeId, t: Node, v: Vertex)
    requires NodeInv(h, n, t) && v.id !in h && IsNextVertex(t, v) && ToSet(v.parents) <= Known(t)
    requires forall u :: u in h && h[u].nodeId == n ==> u in Known(t)
    ensures NodeInv(h[v.id := v], n, Created(t, v))
  {
    hide FinalizedInv, ClockInv;
    var t' := Created(t, v);
    assert Known(t') == Known(t) + {v.id};
    CreateKeepsClockInv(h, n, t, v);
    LongerHistoryKeepsFinalized(h, t, v, t');
    forall p | p in v.parents
      ensures p in Known(t')
    {
      assert p in ToSet(v.parents);
    }
  }

  lemma CreateKeepsGlobal(s: Network, n: NodeId, v: Vertex, s': Network)
    requires GlobalInv(s) && Next(s, Create(n, v), s') && s.nodes[n].nodeId == n
    ensures GlobalInv(s')
  {
    assert Total(s', n) == Total(s, n) + 1;
    forall k, i: nat | 1 <= i <= Total(s', k)
      ensures Numbered(s'.history, k, i)
    {
      if k == n && i == Total(s', n) {
        assert s'.history[v.id].nodeId == k && Number(s'.history[v.id]) == i;
      } else {
        assert Numbered(s.history, k, i);
        var u :| u in s.history && s.history[u].nodeId == k && Number(s.history[u]) == i;
        assert u in s'.history && s'.history[u].nodeId == k && Number(s'.history[u]) == i;
      }
    }
    forall m, k | m in s'.nodes
      ensures Count(s'.nodes[m].clock, k) <= Total(s', k)
    {
      assert Count(s.nodes[m].clock, k) <= Total(s, k);
    }
    forall u | u in s'.history
      ensures KnownToCreator(s', u)
    {
      if u != v.id {
        assert KnownToCreator(s, u);
      }
    }
  }

  lemma CreateKeepsInv(s: Network, n: NodeId, v: Vertex, s': Network)
    requires Inv(s) && Next(s, Create(n, v), s')
    ensures Inv(s')
  {
    hide NodeInv, RankInv, VertexInv, ClocksMatchAncestry, Numbered;
    assert NodeInv(s.history, n, s.nodes[n]);
    UnfoldNodeInv(s.history, n, s.nodes[n]);
    NewVertexCountsParents(s.history, n, s.nodes[n], v);
    CreateKeepsVertexInv(s.history, s.rank, v);
    CreateKeepsRankInv(s.history, s.rank, v);
    CreateKeepsAncestry(s, n, v, s');
    CreateKeepsGlobal(s, n, v, s');
    forall m | m in s'.nodes
      ensures NodeInv(s'.history, m, s'.nodes[m])
    {
      if m == n {
        forall u | u in s.history && s.history[u].nodeId == n
          ensures u in Known(s.nodes[n])
        {
          assert KnownToCreator(s, u);
        }
        assert ToSet(v.parents) <= Known(s.nodes[n]);
        CreateKeepsCreator(s.history, n, s.nodes[n], v);
      } else {
        assert Count(s.nodes[m].clock, n) <= Total(s, n);
        NewVertexKeepsNode(s.history, m, s.nodes[m], v);
      }
    }
  }

  // ---------------------------------------------------------------- every step, every run

  /** Replacing one node by one that knows as much and counts no further than the creators keeps the invariant. */
  lemma ReplaceNodeKeepsInv(s: Network, n: NodeId, t': Node)
    requires Inv(s) && n in s.nodes && NodeInv(s.history, n, t')
    requires Known(s.nodes[n]) <= Known(t')
    requires forall k :: Count(s.nodes[n].clock, k) <= Count(t'.clock, k) <= Total(s, k)
    ensures Inv(s.(nodes := s.nodes[n := t']))
  {
    hide NodeInv, ClocksMatchAncestry, HistoryInv, Numbered;
    var s' := s.(nodes := s.nodes[n := t']);
    assert Count(s.nodes[n].clock, n) <= Count(t'.clock, n) <= Total(s, n);
    assert forall k :: Total(s', k) == Total(s, k);
    forall m, k | m in s'.nodes
      ensures Count(s'.nodes[m].clock, k) <= Total(s', k)
    {
      if m != n {
        assert Count(s.nodes[m].clock, k) <= Total(s, k);
      }
    }
    forall k, i: nat | 1 <= i <= Total(s', k)
      ensures Numbered(s'.history, k, i)
    {
      assert Numbered(s.history, k, i);
    }
    forall u | u in s'.history
      ensures KnownToCreator(s', u)
    {
      assert KnownToCreator(s, u);
    }
    forall m | m in s'.nodes
      ensures NodeInv(s'.history, m, s'.nodes[m])
    {
      assert m != n ==> NodeInv(s.history, m, s.nodes[m]);
    }
  }

  lemma NewNodeInv(h: History, n: NodeId, quorum: nat)
    requires VertexInv(h)
    ensures NodeInv(h, n, NewNode(n, quorum))
  {
    assert Known(NewNode(n, quorum)) == {};
    assert forall k :: Count(NewNode(n, quorum).clock, k) == 0;
  }

  lemma JoinKeepsInv(s: Network, n: NodeId, quorum: nat, s': Network)
    requires Inv(s) && Next(s, Join(n, quorum), s')
    ensures Inv(s')
  {
    hide NodeInv, RankInv, VertexInv, ClocksMatchAncestry, Numbered;
    NewNodeInv(s.history, n, quorum);
    assert forall k :: Count(s'.nodes[n].clock, k) == 0;
    assert forall k :: Total(s', k) == Total(s, k);
    forall m | m in s'.nodes
      ensures NodeInv(s'.history, m, s'.nodes[m])
    {
      assert m != n ==> NodeInv(s.history, m, s.nodes[m]);
    }
    forall u | u in s'.history
      ensures KnownToCreator(s', u)
    {
      assert KnownToCreator(s, u);
    }
    forall m, k | m in s'.nodes
      ensures Count(s'.nodes[m].clock, k) <= Total(s', k)
    {
      if m != n {
        assert Count(s.nodes[m].clock, k) <= Total(s, k);
      }
    }
    forall k, i: nat | 1 <= i <= Total(s', k)
      ensures Numbered(s'.history, k, i)
    {
      assert Numbered(s.history, k, i);
    }
  }

  lemma DeliverKeepsInv(s: Network, n: NodeId, id: Id, s': Network)
    requires Inv(s) && Next(s, Deliver(n, id), s')
    ensures Inv(s')
  {
    hide NodeInv, RankInv, ClocksMatchAncestry, GlobalInv;
    var v, t := s.history[id], s.nodes[n];
    NodeOfInv(s, n);
    if Deliverable(t, v) {
      DeliverKeepsNodeInv(s.history, n, t, v);
      forall k
        ensures Count(t.clock, k) <= Count(Delivered(t, v).clock, k) <= Total(s, k)
      {
        CreatorKnowsMost(s, k, id);
      }
      assert Known(t) <= Known(Delivered(t, v));
      ReplaceNodeKeepsInv(s, n, Delivered(t, v));
    }
  }

  lemma NextKeepsInv(s: Network, e: Event, s': Network)
    requires Inv(s) && Next(s, e, s')
    ensures Inv(s')
  {
    hide Inv, NodeInv;
    if !e.Join? {
      assert (forall k :: Count(s.nodes[e.n].clock, k) <= Total(s, k)) && NodeInv(s.history, e.n, s.nodes[e.n]) by {
        NodeOfInv(s, e.n);
      }
    }
    match e
    case Join(n, quorum) => JoinKeepsInv(s, n, quorum, s');
    case Submit(n, txId, txType, data) =>
      SubmitKeepsNodeInv(s.history, n, s.nodes[n], txId, txType, data);
      ReplaceNodeKeepsInv(s, n, s'.nodes[n]);
    case Create(n, v) => CreateKeepsInv(s, n, v, s');
    case Deliver(n, id) => DeliverKeepsInv(s, n, id, s');
    case Finalize(n) =>
      FinalizeKeepsNodeInv(s.history, n, s.nodes[n]);
      ReplaceNodeKeepsInv(s, n, s'.nodes[n]);
    case Prune(n, keep) =>
      PruneKeepsNodeInv(s.history, n, s.nodes[n], keep, s'.nodes[n]);
      ReplaceNodeKeepsInv(s, n, s'.nodes[n]);
  }

  lemma NodeOfInv(s: Network, n: NodeId)
    requires Inv(s) && n in s.nodes
    ensures NodeInv(s.history, n, s.nodes[n])
    ensures forall k :: Count(s.nodes[n].clock, k) <= Total(s, k)
  {
    hide NodeInv, HistoryInv, ClocksMatchAncestry, Numbered;
  }

  lemma SubmitKeepsNodeInv(h: History, n: NodeId, s: Node, id: Id, txType: TransactionType, data: seq<bv8>)
    requires NodeInv(h, n, s)
    ensures NodeInv(h, n, Submitted(s, id, txType, data))
  {
    hide HasKnownChild;
    FinalizedInvGrows(h, s, Submitted(s, id, txType, data));
  }

  lemma {:induction false} RunKeepsInv(states: seq<Network>, events: seq<Event>, i: nat)
    requires Run(states, events) && i < |states|
    ensures Inv(states[i])
  {
    hide NodeInv, HasKnownChild, Numbered;
    if i == 0 {
      assert forall k :: Total(EMPTY, k) == 0;
    } else {
      RunKeepsInv(states, events, i - 1);
      assert Next(states[i - 1], events[i - 1], states[i - 1 + 1]);
      NextKeepsInv(states[i - 1], events[i - 1], states[i]);
    }
  }
}
