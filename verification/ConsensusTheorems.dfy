/** What holds in every run of the consensus nodes. */
module ConsensusTheorems {
  import opened Collections
  import opened Paths
  import opened Consensus
  import opened ConsensusRuns

  // ---------------------------------------------------------------- clocks and ancestry

  /** Clocks characterise ancestry: u is v or an ancestor of v exactly when v's clock has counted u. */
  lemma ClockCharacterizesAncestry(states: seq<Network>, events: seq<Event>, i: nat, u: Id, v: Id)
    requires Run(states, events) && i < |states|
    requires u in states[i].history && v in states[i].history
    ensures
      var h := states[i].history;
      AncestorOrSelf(h, u, v) <==> Number(h[u]) <= Count(h[v].clock, h[u].nodeId)
  {
    hide AncestorOrSelf, HistoryInv, NodeInv, GlobalInv;
    RunKeepsInv(states, events, i);
  }

  lemma HistoryOfRun(states: seq<Network>, events: seq<Event>, i: nat)
    requires Run(states, events) && i < |states|
    ensures HistoryInv(states[i].history, states[i].rank) && ClocksMatchAncestry(states[i].history)
  {
    RunKeepsInv(states, events, i);
  }

  lemma EdgeIsParent(h: History, x: Id, p: Id)
    requires Edge(ParentGraph(h), x, p)
    ensures x in h && p in h[x].parents
  {
  }

  lemma OwnEntry(h: History, rank: map<Id, nat>, u: Id)
    requires HistoryInv(h, rank) && u in h
    ensures h[u].nodeId in h[u].clock && 1 <= Number(h[u])
  {
    assert CountsParents(h, h[u]);
  }

  lemma MatchesAncestry(h: History, u: Id, v: Id)
    requires ClocksMatchAncestry(h) && u in h && v in h
    ensures AncestorOrSelf(h, u, v) <==> Number(h[u]) <= Count(h[v].clock, h[u].nodeId)
  {
  }

  lemma ParentClockLeq(h: History, rank: map<Id, nat>, x: Id, p: Id, k: NodeId)
    requires HistoryInv(h, rank) && Edge(ParentGraph(h), x, p)
    ensures p in h && Count(h[p].clock, k) <= Count(h[x].clock, k)
  {
    hide Edge, ParentGraph;
    EdgeIsParent(h, x, p);
    assert CountsParents(h, h[x]) && p in h;
    hide RankInv, VertexInv;
    assert ClockLeq(h[p].clock, h[x].clock);
  }

  lemma {:induction false} PathClocksGrow(h: History, rank: map<Id, nat>, p: seq<Id>, i: nat, k: NodeId)
    requires HistoryInv(h, rank) && Path(ParentGraph(h), p) && i < |p| && p[0] in h
    ensures p[i] in h && Count(h[p[i]].clock, k) <= Count(h[p[0]].clock, k)
  {
    hide HistoryInv, Edge;
    if i > 0 {
      PathClocksGrow(h, rank, p, i - 1, k);
      assert Edge(ParentGraph(h), p[i - 1], p[i - 1 + 1]);
      ParentClockLeq(h, rank, p[i - 1], p[i], k);
    }
  }

  /** An ancestor's clock is nowhere ahead. */
  lemma AncestorClockLeq(h: History, rank: map<Id, nat>, u: Id, v: Id, k: NodeId)
    requires HistoryInv(h, rank) && v in h && AncestorOrSelf(h, u, v)
    ensures u in h && Count(h[u].clock, k) <= Count(h[v].clock, k)
  {
    var p: seq<Id> :| PathFrom(ParentGraph(h), p, v, u);
    PathClocksGrow(h, rank, p, |p| - 1, k);
  }

  lemma NotAncestorOfItsAncestor(h: History, rank: map<Id, nat>, u: Id, v: Id)
    requires RankInv(h, rank) && StrictAncestor(h, u, v)
    ensures !AncestorOrSelf(h, v, u)
  {
    hide Reach;
    ParentGraphClosed(h, rank);
    ReachDescends(ParentGraph(h), rank, v, u);
    if Reach(ParentGraph(h), u, v) {
      ReachDescends(ParentGraph(h), rank, u, v);
    }
  }

  /** The comparison never gets two related vertices wrong. */
  lemma AncestorIsDominated(states: seq<Network>, events: seq<Event>, i: nat, u: Id, v: Id)
    requires Run(states, events) && i < |states|
    requires v in states[i].history && StrictAncestor(states[i].history, u, v)
    ensures u in states[i].history
    ensures Dominates(states[i].history[v].clock, states[i].history[u].clock)
    ensures !Dominates(states[i].history[u].clock, states[i].history[v].clock)
  {
    var h, rank := states[i].history, states[i].rank;
    hide Run, HistoryInv, ClocksMatchAncestry, Reach;
    HistoryOfRun(states, events, i);
    AncestorClockLeq(h, rank, u, v, h[v].nodeId);
    forall k
      ensures Count(h[u].clock, k) <= Count(h[v].clock, k)
    {
      AncestorClockLeq(h, rank, u, v, k);
    }
    assert !AncestorOrSelf(h, v, u) by {
      RankOf(h, rank);
      NotAncestorOfItsAncestor(h, rank, u, v);
    }
    MatchesAncestry(h, v, u);
    OwnEntry(h, rank, v);
  }

  lemma RankOf(h: History, rank: map<Id, nat>)
    requires HistoryInv(h, rank)
    ensures RankInv(h, rank)
  {
  }

  /** Of two vertices v is an ancestor of u exactly when u's clock has an entry for v's creator and u dominates v.  So the
      comparison errs only where that entry is missing: there it may take what u has never heard of for an ancestor. */
  lemma DominanceIsAncestryExactlyWhen(states: seq<Network>, events: seq<Event>, i: nat, u: Id, v: Id)
    requires Run(states, events) && i < |states|
    requires u in states[i].history && v in states[i].history && u != v
    ensures
      var h := states[i].history;
      StrictAncestor(h, v, u) <==> h[v].nodeId in h[u].clock && Dominates(h[u].clock, h[v].clock)
  {
    var h, rank := states[i].history, states[i].rank;
    hide Run, HistoryInv, ClocksMatchAncestry, AncestorOrSelf;
    HistoryOfRun(states, events, i);
    OwnEntry(h, rank, u);
    OwnEntry(h, rank, v);
    MatchesAncestry(h, u, v);
    MatchesAncestry(h, v, u);
    if StrictAncestor(h, v, u) {
      AncestorIsDominated(states, events, i, v, u);
    } else if StrictAncestor(h, u, v) {
      AncestorIsDominated(states, events, i, u, v);
    }
  }

  /** A new node creates its first vertex. */
  function FirstVertex(n: NodeId, x: Id, now: int): Vertex {
    Vertex(x, n, Transaction(x, Write, [], 1), [], now, map[n := 1])
  }

  lemma FirstVertexIsNext(n: NodeId, x: Id, now: int)
    ensures IsNextVertex(Submitted(NewNode(n, 2), x, Write, []), FirstVertex(n, x, now))
  {
    assert Tips(map[]) == {};
    assert map[n := 0][n := 1] == map[n := 1];
  }

  /** Node n joins, submits one transaction and creates vertex x, having heard of nothing. */
  lemma JoinAndCreate(states: seq<Network>, events: seq<Event>, n: NodeId, x: Id, now: int)
    returns (states': seq<Network>, events': seq<Event>)
    requires Run(states, events)
    requires n !in states[|events|].nodes && x !in states[|events|].history
    ensures Run(states', events')
    ensures states'[|events'|].history == states[|events|].history[x := FirstVertex(n, x, now)]
    ensures
      var t := Submitted(NewNode(n, 2), x, Write, []);
      states'[|events'|].nodes == states[|events|].nodes[n := Created(t, FirstVertex(n, x, now))]
  {
    var s, t := states[|events|], NewNode(n, 2);
    var t', v := Submitted(t, x, Write, []), FirstVertex(n, x, now);
    var s1 := s.(nodes := s.nodes[n := t]);
    var s2 := s1.(nodes := s1.nodes[n := t']);
    var s3 := Network(s2.nodes[n := Created(t', v)], s2.history[x := v], s2.rank[x := |s2.history|]);
    FirstVertexIsNext(n, x, now);
    assert Next(s, Join(n, 2), s1);
    assert Next(s1, Submit(n, x, Write, []), s2);
    assert Next(s2, Create(n, v), s3);
    hide Next;
    AppendStep(states, events, Join(n, 2), s1);
    AppendStep(states + [s1], events + [Join(n, 2)], Submit(n, x, Write, []), s2);
    AppendStep(states + [s1] + [s2], events + [Join(n, 2)] + [Submit(n, x, Write, [])], Create(n, v), s3);
    states' := states + [s1] + [s2] + [s3];
    events' := events + [Join(n, 2)] + [Submit(n, x, Write, [])] + [Create(n, v)];
  }

  lemma AppendStep(states: seq<Network>, events: seq<Event>, e: Event, s': Network)
    requires Run(states, events) && Next(states[|events|], e, s')
    ensures Run(states + [s'], events + [e])
  {
    hide Next;
    var ss, es := states + [s'], events + [e];
    forall i | 0 <= i < |es|
      ensures Next(ss[i], es[i], ss[i + 1])
    {
      if i < |events| {
        assert Next(states[i], events[i], states[i + 1]);
      }
    }
  }

  /** Two nodes that never talked: each one's first vertex "dominates" the other's. */
  lemma ConcurrentVerticesDominateEachOther(a: NodeId, b: NodeId, x: Id, y: Id)
    returns (states: seq<Network>, events: seq<Event>)
    requires a != b && x != y
    ensures Run(states, events)
    ensures
      var h := states[|events|].history;
      && x in h && y in h
      && Dominates(h[x].clock, h[y].clock) && Dominates(h[y].clock, h[x].clock)
      && !AncestorOrSelf(h, x, y) && !AncestorOrSelf(h, y, x)
  {
    states, events := JoinAndCreate([EMPTY], [], a, x, 0);
    states, events := JoinAndCreate(states, events, b, y, 0);
    hide Next, AncestorOrSelf;
    var i := |events|;
    assert a in FirstVertex(a, x, 0).clock && b in FirstVertex(b, y, 0).clock;
    ClockCharacterizesAncestry(states, events, i, x, y);
    ClockCharacterizesAncestry(states, events, i, y, x);
  }

  // ---------------------------------------------------------------- clocks count

  ghost function ByCreator(h: History, ids: set<Id>, k: NodeId, upTo: nat): set<Id> {
    set u | u in ids && u in h && h[u].nodeId == k && Number(h[u]) <= upTo
  }

  /** Two vertices of one creator never share a number. */
  lemma NumbersAreUnique(h: History, rank: map<Id, nat>, u: Id, v: Id)
    requires RankInv(h, rank) && ClocksMatchAncestry(h) && u in h && v in h
    requires h[u].nodeId == h[v].nodeId && Number(h[u]) == Number(h[v])
    ensures u == v
  {
    hide RankInv, Reach;
    if u != v {
      assert AncestorOrSelf(h, u, v) && AncestorOrSelf(h, v, u);
      NotAncestorOfItsAncestor(h, rank, u, v);
    }
  }

  lemma {:induction false} ByCreatorCardinality(h: History, rank: map<Id, nat>, k: NodeId, upTo: nat)
    requires HistoryInv(h, rank) && ClocksMatchAncestry(h)
    requires forall i: nat :: 1 <= i <= upTo ==> Numbered(h, k, i)
    ensures |ByCreator(h, h.Keys, k, upTo)| == upTo
  {
    hide RankInv, Reach;
    if upTo == 0 {
      assert ByCreator(h, h.Keys, k, 0) == {};
    } else {
      ByCreatorCardinality(h, rank, k, upTo - 1);
      assert Numbered(h, k, upTo);
      var u :| u in h && h[u].nodeId == k && Number(h[u]) == upTo;
      forall w | w in ByCreator(h, h.Keys, k, upTo) && Number(h[w]) == upTo
        ensures w == u
      {
        NumbersAreUnique(h, rank, u, w);
      }
      assert ByCreator(h, h.Keys, k, upTo) == ByCreator(h, h.Keys, k, upTo - 1) + {u};
    }
  }

  /** A vertex's clock counts, creator by creator, the vertex itself and its ancestors. */
  lemma ClockCountsAncestors(states: seq<Network>, events: seq<Event>, i: nat, v: Id, k: NodeId)
    requires Run(states, events) && i < |states| && v in states[i].history
    ensures
      var h := states[i].history;
      Count(h[v].clock, k) == |set u | u in h && h[u].nodeId == k && AncestorOrSelf(h, u, v)|
  {
    var s := states[i];
    var h, c := s.history, Count(s.history[v].clock, k);
    assert ClocksMatchAncestry(h) && |ByCreator(h, h.Keys, k, c)| == c by {
      RunKeepsInv(states, events, i);
      CreatorKnowsMost(s, k, v);
      ByCreatorOf(s, k, c);
    }
    hide Run, Reach;
    assert ByCreator(h, h.Keys, k, c) == set u | u in h && h[u].nodeId == k && AncestorOrSelf(h, u, v);
  }

  lemma ByCreatorOf(s: Network, k: NodeId, c: nat)
    requires Inv(s) && c <= Total(s, k)
    ensures |ByCreator(s.history, s.history.Keys, k, c)| == c
  {
    hide HistoryInv, ClocksMatchAncestry, NodeInv, Numbered, ByCreator;
    assert forall i: nat :: 1 <= i <= c ==> Numbered(s.history, k, i);
    ByCreatorCardinality(s.history, s.rank, k, c);
  }

  predicate Filled(c: Clock) {
    forall k :: k in c ==> c[k] > 0
  }

  predicate FilledBut(c: Clock, n: NodeId) {
    forall k :: k in c && k != n ==> c[k] > 0
  }

  /** Apart from a node's own entry, clocks have entries only for creators of vertices. */
  ghost predicate NoEmptyEntries(s: Network) {
    && (forall x :: x in s.history ==> Filled(s.history[x].clock))
    && (forall n :: n in s.nodes ==> s.nodes[n].nodeId == n && FilledBut(s.nodes[n].clock, n))
  }

  lemma AdvancedIsFilled(s: Node, v: Vertex)
    requires FilledBut(s.clock, s.nodeId) && AdvancesClock(s, v)
    ensures Filled(v.clock) && FilledBut(v.clock, s.nodeId)
  {
  }

  lemma MergedIsFilled(a: Clock, b: Clock, n: NodeId)
    requires FilledBut(a, n) && Filled(b)
    ensures FilledBut(MergeClocks(a, b), n)
  {
  }

  lemma OneMoreEntry(s: Network, n: NodeId, t: Node, h: History, rank: map<Id, nat>)
    requires NoEmptyEntries(s) && t.nodeId == n && FilledBut(t.clock, n)
    requires forall x :: x in h && x !in s.history ==> Filled(h[x].clock)
    requires forall x :: x in h && x in s.history ==> h[x] == s.history[x]
    ensures NoEmptyEntries(Network(s.nodes[n := t], h, rank))
  {
    hide Filled, FilledBut;
  }

  lemma EntriesOf(s: Network, n: NodeId)
    requires NoEmptyEntries(s) && n in s.nodes
    ensures s.nodes[n].nodeId == n && FilledBut(s.nodes[n].clock, n)
    ensures forall x :: x in s.history ==> Filled(s.history[x].clock)
  {
  }

  lemma PrunedClock(s: Node, keep: nat, s': Node)
    requires IsPruned(s, keep, s')
    ensures s'.nodeId == s.nodeId && s'.clock == s.clock
  {
  }

  lemma NextKeepsEntries(s: Network, e: Event, s': Network)
    requires Next(s, e, s') && NoEmptyEntries(s)
    ensures NoEmptyEntries(s')
  {
    hide Tips, Deliverable, Filled, FilledBut, AdvancesClock, MergeClocks, Enumerates, NoEmptyEntries, IsPruned;
    match e
    case Join(n, quorum) =>
      NewClock(n);
      OneMoreEntry(s, n, s'.nodes[n], s'.history, s'.rank);
    case Create(n, v) =>
      EntriesOf(s, n);
      AdvancedIsFilled(s.nodes[n], v);
      OneMoreEntry(s, n, s'.nodes[n], s'.history, s'.rank);
    case Deliver(n, id) =>
      EntriesOf(s, n);
      MergedIsFilled(s.nodes[n].clock, s.history[id].clock, n);
      OneMoreEntry(s, n, s'.nodes[n], s'.history, s'.rank);
    case Submit(n, _, _, _) =>
      EntriesOf(s, n);
      OneMoreEntry(s, n, s'.nodes[n], s'.history, s'.rank);
    case Finalize(n) =>
      EntriesOf(s, n);
      OneMoreEntry(s, n, s'.nodes[n], s'.history, s'.rank);
    case Prune(n, keep) =>
      EntriesOf(s, n);
      PrunedClock(s.nodes[n], keep, s'.nodes[n]);
      OneMoreEntry(s, n, s'.nodes[n], s'.history, s'.rank);
  }

  lemma NewClock(n: NodeId)
    ensures FilledBut(map[n := 0], n)
  {
  }

  lemma {:induction false} RunKeepsEntries(states: seq<Network>, events: seq<Event>, i: nat)
    requires Run(states, events) && i < |states|
    ensures NoEmptyEntries(states[i])
  {
    if i > 0 {
      RunKeepsEntries(states, events, i - 1);
      assert Next(states[i - 1], events[i - 1], states[i - 1 + 1]);
      hide Next, NoEmptyEntries;
      NextKeepsEntries(states[i - 1], events[i - 1], states[i]);
    }
  }

  /** A creator's vertices among v and its ancestors. */
  ghost function AboveBy(h: History, v: Id, k: NodeId): set<Id> {
    set u | u in h && h[u].nodeId == k && AncestorOrSelf(h, u, v)
  }

  /** What the comparison says of any two vertices, whatever entries their clocks have: of every creator that has a vertex
      among u and its ancestors, v and its ancestors have no more vertices, and of one of them fewer. */
  lemma DominanceMeans(states: seq<Network>, events: seq<Event>, i: nat, u: Id, v: Id)
    requires Run(states, events) && i < |states| && u in states[i].history && v in states[i].history
    ensures
      var h := states[i].history;
      Dominates(h[u].clock, h[v].clock)
      <==> && (forall k :: AboveBy(h, u, k) != {} ==> |AboveBy(h, v, k)| <= |AboveBy(h, u, k)|)
           && (exists k :: |AboveBy(h, v, k)| < |AboveBy(h, u, k)|)
  {
    var h := states[i].history;
    RunKeepsEntries(states, events, i);
    assert Filled(h[u].clock);
    forall k
      ensures Count(h[u].clock, k) == |AboveBy(h, u, k)| && Count(h[v].clock, k) == |AboveBy(h, v, k)|
    {
      ClockCountsAncestors(states, events, i, u, k);
      ClockCountsAncestors(states, events, i, v, k);
    }
    hide Run, AboveBy, NoEmptyEntries;
    assert forall k :: AboveBy(h, u, k) != {} <==> |AboveBy(h, u, k)| > 0;
    assert forall k :: k in h[u].clock <==> |AboveBy(h, u, k)| > 0;
  }

  /** Convergence: a node's clock counts the vertices it has stored, so nodes that have received the same vertices, in
      whatever order and however often, agree on their clocks. */
  lemma ClockCountsKnown(states: seq<Network>, events: seq<Event>, i: nat, n: NodeId, k: NodeId)
    requires Run(states, events) && i < |states| && n in states[i].nodes
    ensures
      var h, t := states[i].history, states[i].nodes[n];
      Count(t.clock, k) == |set u | u in h && h[u].nodeId == k && u in Known(t)|
  {
    var s := states[i];
    var h, t := s.history, s.nodes[n];
    var c := Count(t.clock, k);
    assert ClockInv(h, t) && |ByCreator(h, h.Keys, k, c)| == c by {
      RunKeepsInv(states, events, i);
      NodeOfInv(s, n);
      ByCreatorOf(s, k, c);
    }
    hide Run, ClockLeq;
    assert ByCreator(h, h.Keys, k, c) == set u | u in h && h[u].nodeId == k && u in Known(t);
  }

  lemma SameVerticesSameClock(states: seq<Network>, events: seq<Event>, i: nat, n: NodeId, m: NodeId, k: NodeId)
    requires Run(states, events) && i < |states| && n in states[i].nodes && m in states[i].nodes
    requires Known(states[i].nodes[n]) == Known(states[i].nodes[m])
    ensures Count(states[i].nodes[n].clock, k) == Count(states[i].nodes[m].clock, k)
  {
    ClockCountsKnown(states, events, i, n, k);
    ClockCountsKnown(states, events, i, m, k);
  }

  // ---------------------------------------------------------------- the store

  /** A stored vertex's parents are stored or were finalized, and the parent relation has no cycle. */
  lemma StoreIsClosedAndAcyclic(states: seq<Network>, events: seq<Event>, i: nat, n: NodeId)
    requires Run(states, events) && i < |states| && n in states[i].nodes
    ensures
      var t := states[i].nodes[n];
      forall x, p :: x in t.vertices && p in t.vertices[x].parents ==> p in t.vertices || p in t.finalized
    ensures Acyclic(ParentGraph(states[i].history))
    ensures forall x :: x in states[i].nodes[n].vertices ==>
      x in states[i].history && states[i].nodes[n].vertices[x] == states[i].history[x]
  {
    var s := states[i];
    assert StoreInv(s.history, n, s.nodes[n]) && RankInv(s.history, s.rank) by {
      RunKeepsInv(states, events, i);
      NodeOfInv(s, n);
    }
    hide Reach, Run;
    ParentGraphClosed(s.history, s.rank);
    RankedIsAcyclic(ParentGraph(s.history), s.rank);
    var t := s.nodes[n];
    forall x, p | x in t.vertices && p in t.vertices[x].parents
      ensures p in t.vertices || p in t.finalized
    {
      assert t.vertices[x] == s.history[x];
      assert x in Known(t) && p in s.history[x].parents;
      assert p in Known(t);
    }
  }

  // ---------------------------------------------------------------- finality

  lemma StepGrows(s: Network, e: Event, s': Network, n: NodeId)
    requires Next(s, e, s') && n in s.nodes
    ensures n in s'.nodes && s.nodes[n].finalized <= s'.nodes[n].finalized
  {
    hide Next;
    NextOfOtherNode(s, e, s', n);
  }

  /** Nothing is ever un-finalized. */
  lemma {:induction false} FinalizedGrows(states: seq<Network>, events: seq<Event>, i: nat, j: nat, n: NodeId)
    requires Run(states, events) && i <= j < |states| && n in states[i].nodes
    ensures n in states[j].nodes && states[i].nodes[n].finalized <= states[j].nodes[n].finalized
  {
    hide Next;
    if i < j {
      FinalizedGrows(states, events, i, j - 1, n);
      assert Next(states[j - 1], events[j - 1], states[j - 1 + 1]);
      StepGrows(states[j - 1], events[j - 1], states[j], n);
    }
  }

  /** The creators of all children of x ever created. */
  ghost function EverConfirmed(h: History, x: Id): set<NodeId> {
    set y | y in h && x in h[y].parents :: h[y].nodeId
  }

  ghost predicate QuorumInv(h: History, t: Node) {
    forall x :: x in t.finalized ==> |EverConfirmed(h, x)| >= t.quorum && EverConfirmed(h, x) != {}
  }

  lemma MoreHistoryMoreConfirmed(h: History, h': History, x: Id)
    requires forall y :: y in h ==> y in h' && h'[y] == h[y]
    ensures EverConfirmed(h, x) <= EverConfirmed(h', x)
    ensures |EverConfirmed(h, x)| <= |EverConfirmed(h', x)|
  {
    forall c | c in EverConfirmed(h, x)
      ensures c in EverConfirmed(h', x)
    {
      var y :| y in h && x in h[y].parents && h[y].nodeId == c;
      assert y in h' && x in h'[y].parents && h'[y].nodeId == c;
    }
    SubsetCardinality(EverConfirmed(h, x), EverConfirmed(h', x));
  }

  lemma FinalizeKeepsQuorum(h: History, n: NodeId, t: Node)
    requires StoreInv(h, n, t) && QuorumInv(h, t)
    ensures QuorumInv(h, Finalized(t))
  {
    forall x | x in Finalized(t).finalized && x !in t.finalized
      ensures |EverConfirmed(h, x)| >= t.quorum && EverConfirmed(h, x) != {}
    {
      assert Confirmed(t, x);
      ConfirmedByChildren(t.vertices, x);
      forall c | c in Confirmers(t.vertices, x)
        ensures c in EverConfirmed(h, x)
      {
        var y :| y in t.vertices && x in t.vertices[y].parents && t.vertices[y].nodeId == c;
        assert y in h && x in h[y].parents && h[y].nodeId == c;
      }
      SubsetCardinality(Confirmers(t.vertices, x), EverConfirmed(h, x));
    }
  }

  lemma LongerHistoryKeepsQuorum(h: History, h': History, t: Node, t': Node)
    requires forall y :: y in h ==> y in h' && h'[y] == h[y]
    requires QuorumInv(h, t) && t'.finalized == t.finalized && t'.quorum == t.quorum
    ensures QuorumInv(h', t')
  {
    forall x | x in t'.finalized
      ensures |EverConfirmed(h', x)| >= t'.quorum && EverConfirmed(h', x) != {}
    {
      MoreHistoryMoreConfirmed(h, h', x);
    }
  }

  lemma NextOfOtherNode(s: Network, e: Event, s': Network, n: NodeId)
    requires Next(s, e, s') && n in s.nodes
    ensures n in s'.nodes
    ensures forall y :: y in s.history ==> y in s'.history && s'.history[y] == s.history[y]
    ensures s'.nodes[n].quorum == s.nodes[n].quorum
    ensures s'.nodes[n].finalized == s.nodes[n].finalized ||
            (e == Finalize(n) && s'.nodes[n] == Finalized(s.nodes[n]) && s'.history == s.history)
  {
    hide Finalized, Deliverable, Tips, AdvancesClock;
    SameQuorum(s.nodes[n]);
  }

  lemma SameQuorum(t: Node)
    ensures Finalized(t).quorum == t.quorum
  {
  }

  /** Whatever a node has finalized, pruned or not, at least a quorum of distinct creators, and at least one, has built
      directly on it. */
  lemma {:induction false} FinalizedHasQuorum(states: seq<Network>, events: seq<Event>, i: nat, n: NodeId, x: Id)
    requires Run(states, events) && i < |states| && n in states[i].nodes && x in states[i].nodes[n].finalized
    ensures |EverConfirmed(states[i].history, x)| >= states[i].nodes[n].quorum
    ensures EverConfirmed(states[i].history, x) != {}
  {
    QuorumHolds(states, events, i, n);
  }

  lemma {:induction false} QuorumHolds(states: seq<Network>, events: seq<Event>, i: nat, n: NodeId)
    requires Run(states, events) && i < |states| && n in states[i].nodes
    ensures QuorumInv(states[i].history, states[i].nodes[n])
  {
    if i > 0 {
      var s, e, s' := states[i - 1], events[i - 1], states[i];
      assert Next(states[i - 1], events[i - 1], states[i - 1 + 1]);
      hide QuorumInv;
      if n in s.nodes {
        QuorumHolds(states, events, i - 1, n);
        NextOfOtherNode(s, e, s', n);
        if s'.nodes[n].finalized == s.nodes[n].finalized {
          LongerHistoryKeepsQuorum(s.history, s'.history, s.nodes[n], s'.nodes[n]);
        } else {
          assert StoreInv(s.history, n, s.nodes[n]) by {
            RunKeepsInv(states, events, i - 1);
            NodeOfInv(s, n);
          }
          FinalizeKeepsQuorum(s.history, n, s.nodes[n]);
        }
      } else {
        NothingFinalizedYet(s'.history, n, s'.nodes[n]);
      }
    }
  }

  lemma NothingFinalizedYet(h: History, n: NodeId, t: Node)
    requires t.finalized == {}
    ensures QuorumInv(h, t)
  {
  }

  // ---------------------------------------------------------------- finality without pruning

  ghost predicate NeverPrunes(events: seq<Event>, n: NodeId) {
    forall i :: 0 <= i < |events| ==> !(events[i].Prune? && events[i].n == n)
  }

  /** The vertices the store itself justifies finalizing. */
  ghost function FinalizableIn(t: Node): set<Id> {
    set x | x in t.vertices && Confirmed(t, x)
  }

  ghost predicate StoresMore(t: Node, t': Node) {
    && t'.quorum == t.quorum
    && forall x :: x in t.vertices ==> x in t'.vertices && t'.vertices[x] == t.vertices[x]
  }

  /** A larger store justifies at least as much. */
  lemma LargerStoreFinalizesMore(t: Node, t': Node)
    requires StoresMore(t, t')
    ensures FinalizableIn(t) <= FinalizableIn(t')
  {
    forall x | x in FinalizableIn(t)
      ensures x in FinalizableIn(t')
    {
      forall c | c in Confirmers(t.vertices, x)
        ensures c in Confirmers(t'.vertices, x)
      {
        var y :| y in t.vertices && x in t.vertices[y].parents && t.vertices[y].nodeId == c;
        assert y in t'.vertices && x in t'.vertices[y].parents && t'.vertices[y].nodeId == c;
      }
      SubsetCardinality(Confirmers(t.vertices, x), Confirmers(t'.vertices, x));
      var y :| y in Children(t.vertices, x);
      assert y in Children(t'.vertices, x);
    }
  }

  lemma StoredIsCreated(s: Network, n: NodeId)
    requires Inv(s) && n in s.nodes
    ensures forall x :: x in s.nodes[n].vertices ==> x in s.history && s.nodes[n].vertices[x] == s.history[x]
    ensures forall x :: x in s.history ==> s.history[x].id == x
  {
    NodeOfInv(s, n);
  }

  /** Apart from pruning, a step leaves a node's store alone or adds one vertex to it. */
  lemma NextStore(s: Network, e: Event, s': Network, n: NodeId)
    requires Next(s, e, s') && n in s.nodes && !(e.Prune? && e.n == n)
    ensures n in s'.nodes && s'.nodes[n].quorum == s.nodes[n].quorum
    ensures
      || s'.nodes[n].vertices == s.nodes[n].vertices
      || (e.Create? && e.v.id !in s.history && s'.nodes[n].vertices == s.nodes[n].vertices[e.v.id := e.v])
      || (e.Deliver? && e.id in s.history
          && s'.nodes[n].vertices == s.nodes[n].vertices[s.history[e.id].id := s.history[e.id]])
  {
    hide IsPruned, IsNextVertex, Deliverable, Confirmed;
  }

  lemma NextStoresMore(s: Network, e: Event, s': Network, n: NodeId)
    requires Inv(s) && Next(s, e, s') && n in s.nodes && !(e.Prune? && e.n == n)
    ensures n in s'.nodes && StoresMore(s.nodes[n], s'.nodes[n])
  {
    hide Inv, Next;
    StoredIsCreated(s, n);
    NextStore(s, e, s', n);
  }

  lemma {:induction false} FinalizedIsJustified(states: seq<Network>, events: seq<Event>, i: nat, n: NodeId)
    requires Run(states, events) && NeverPrunes(events, n) && i < |states| && n in states[i].nodes
    ensures states[i].nodes[n].finalized <= FinalizableIn(states[i].nodes[n])
  {
    if i > 0 {
      var s, e, s' := states[i - 1], events[i - 1], states[i];
      assert Next(states[i - 1], events[i - 1], states[i - 1 + 1]);
      hide FinalizableIn, StoresMore;
      if n in s.nodes {
        FinalizedIsJustified(states, events, i - 1, n);
        assert n in s'.nodes && StoresMore(s.nodes[n], s'.nodes[n]) by {
          hide Next;
          RunKeepsInv(states, events, i - 1);
          NextStoresMore(s, e, s', n);
        }
        LargerStoreFinalizesMore(s.nodes[n], s'.nodes[n]);
        NextOfOtherNode(s, e, s', n);
        if s'.nodes[n].finalized != s.nodes[n].finalized {
          FinalizeIsJustified(s.nodes[n]);
        }
      }
    }
  }

  lemma FinalizeIsJustified(t: Node)
    ensures Finalized(t).finalized == t.finalized + FinalizableIn(t)
    ensures FinalizableIn(Finalized(t)) == FinalizableIn(t)
  {
    assert forall x :: Confirmed(Finalized(t), x) <==> Confirmed(t, x);
  }

  /** A node that never prunes has, right after finalizing, finalized exactly the stored vertices whose children come
      from a quorum of distinct creators: its finalized set is a function of its store. */
  lemma FinalizedExactly(states: seq<Network>, events: seq<Event>, i: nat, n: NodeId)
    requires Run(states, events) && NeverPrunes(events, n)
    requires i < |events| && n in states[i].nodes && events[i] == Finalize(n)
    ensures n in states[i + 1].nodes
    ensures states[i + 1].nodes[n].finalized == FinalizableIn(states[i + 1].nodes[n])
    ensures
      var t := states[i + 1].nodes[n];
      forall x :: x in t.finalized <==> x in t.vertices && HasQuorum(t.vertices, t.quorum, x)
  {
    assert Next(states[i], events[i], states[i + 1]);
    FinalizedIsJustified(states, events, i, n);
    FinalizeIsJustified(states[i].nodes[n]);
    var t := states[i + 1].nodes[n];
    forall x: Id
      ensures Confirmed(t, x) <==> x in t.vertices && HasQuorum(t.vertices, t.quorum, x)
    {
      ConfirmedExactlyWhen(t, x);
    }
  }

  /** So when two such nodes finalize, the one whose store contains the other's finalizes at least as much; with equal
      stores they finalize equally. */
  lemma LargerStoreHasFinalizedMore(states: seq<Network>, events: seq<Event>, i: nat, j: nat, n: NodeId, m: NodeId)
    requires Run(states, events) && NeverPrunes(events, n) && NeverPrunes(events, m)
    requires i < |events| && n in states[i].nodes && events[i] == Finalize(n)
    requires j < |events| && m in states[j].nodes && events[j] == Finalize(m)
    requires StoresMore(states[i].nodes[n], states[j].nodes[m])
    ensures n in states[i + 1].nodes && m in states[j + 1].nodes
    ensures states[i + 1].nodes[n].finalized <= states[j + 1].nodes[m].finalized
    ensures states[i].nodes[n].vertices == states[j].nodes[m].vertices ==>
              states[i + 1].nodes[n].finalized == states[j + 1].nodes[m].finalized
  {
    FinalizedExactly(states, events, i, n);
    FinalizedExactly(states, events, j, m);
    assert Next(states[i], events[i], states[i + 1]) && Next(states[j], events[j], states[j + 1]);
    LargerStoreFinalizesMore(states[i + 1].nodes[n], states[j + 1].nodes[m]);
    if states[i].nodes[n].vertices == states[j].nodes[m].vertices {
      LargerStoreFinalizesMore(states[j + 1].nodes[m], states[i + 1].nodes[n]);
    }
  }
}
