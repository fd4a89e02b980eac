/** Creating a vertex reads the tips of the store first and the clock later; vertices may arrive in between.  What that
    does to the meaning of clocks. */
module ConsensusRaces {
  import opened Collections
  import opened Consensus
  import opened ConsensusRuns
  import opened ConsensusTheorems

  /** v has the tips of one store as parents and the advanced clock of a later state of the node. */
  ghost predicate IsLateVertex(before: Node, after: Node, v: Vertex) {
    Enumerates(v.parents, Tips(before.vertices)) && AdvancesClock(after, v)
  }

  // ---------------------------------------------------------------- nothing is forgotten

  predicate Extends(h: History, h': History) {
    forall x :: x in h ==> x in h' && h'[x] == h[x]
  }

  lemma StepForgetsNothing(s: Network, e: Event, s': Network, n: NodeId)
    requires Next(s, e, s') && n in s.nodes
    ensures n in s'.nodes && Extends(s.history, s'.history) && Known(s.nodes[n]) <= Known(s'.nodes[n])
  {
    hide Deliverable, Tips, AdvancesClock, IsPruned, Finalized;
    match e
    case Prune(m, keep) =>
      PruneKeepsKnown(s.nodes[m], keep, s'.nodes[m]);
    case Finalize(m) =>
      FinalizeForgetsNothing(s.nodes[m]);
    case _ =>
  }

  lemma FinalizeForgetsNothing(t: Node)
    ensures Known(t) <= Known(Finalized(t))
  {
  }

  lemma {:induction false} RunForgetsNothing(states: seq<Network>, events: seq<Event>, i: nat, j: nat, n: NodeId)
    requires Run(states, events) && i <= j < |states| && n in states[i].nodes
    ensures n in states[j].nodes && Extends(states[i].history, states[j].history)
    ensures Known(states[i].nodes[n]) <= Known(states[j].nodes[n])
    decreases j
  {
    hide Next, Known;
    if i < j {
      RunForgetsNothing(states, events, i, j - 1, n);
      assert Next(states[j - 1], events[j - 1], states[j - 1 + 1]);
      StepForgetsNothing(states[j - 1], events[j - 1], states[j], n);
    }
  }

  // ---------------------------------------------------------------- what the late vertex counts

  /** What a node stored earlier can be looked up in a later history. */
  lemma EarlierStore(h: History, h': History, n: NodeId, t: Node)
    requires NodeInv(h, n, t) && Extends(h, h')
    ensures StoreInv(h', n, t) && FinalizedInv(h', t)
  {
    hide ClockInv;
    forall x | x in t.finalized
      ensures HasKnownChild(h', t, x)
    {
      assert HasKnownChild(h, t, x);
    }
  }

  lemma LateVertexAncestors(s0: Network, s: Network, n: NodeId, v: Vertex, u: Id)
    requires Inv(s0) && Inv(s) && n in s0.nodes && n in s.nodes && Extends(s0.history, s.history)
    requires v.id !in s.history && Enumerates(v.parents, Tips(s0.nodes[n].vertices))
    ensures AncestorOrSelf(s.history[v.id := v], u, v.id) <==> u == v.id || u in Known(s0.nodes[n])
    ensures ToSet(v.parents) <= s.history.Keys
  {
    hide NodeInv, AncestorOrSelf, ClocksMatchAncestry, GlobalInv, VertexInv;
    NodeOfInv(s0, n);
    EarlierStore(s0.history, s.history, n, s0.nodes[n]);
    assert ToSet(v.parents) == Tips(s0.nodes[n].vertices);
    NewVertexAncestors(s.history, s.rank, n, s0.nodes[n], v, u);
  }

  /** The clock of the new vertex counts, beyond its ancestors, exactly what arrived in between. */
  lemma LateVertexMatches(s0: Network, s: Network, n: NodeId, v: Vertex, u: Id)
    requires Inv(s0) && Inv(s) && n in s0.nodes && n in s.nodes && Extends(s0.history, s.history)
    requires Known(s0.nodes[n]) <= Known(s.nodes[n])
    requires v.id !in s.history && IsLateVertex(s0.nodes[n], s.nodes[n], v) && u in s.history
    ensures
      (AncestorOrSelf(s.history[v.id := v], u, v.id) <==>
       Number(s.history[u]) <= Count(v.clock, s.history[u].nodeId))
      <==> !(u in Known(s.nodes[n]) && u !in Known(s0.nodes[n]))
  {
    hide Inv, AncestorOrSelf, Known, AdvancesClock;
    LateVertexAncestors(s0, s, n, v, u);
    AdvancedClockCountsKnown(s, n, v, u);
  }

  /** After a vertex was created from the tips of the i-th state and the clock of the j-th, clocks still characterise
      ancestry if and only if its creator got to know nothing in between. */
  lemma RacingCreateExactlyWhen(states: seq<Network>, events: seq<Event>, i: nat, j: nat, n: NodeId, v: Vertex)
    requires Run(states, events) && i <= j < |states| && n in states[i].nodes
    requires n in states[j].nodes && v.id !in states[j].history
    requires IsLateVertex(states[i].nodes[n], states[j].nodes[n], v)
    ensures
      ClocksMatchAncestry(states[j].history[v.id := v])
      <==> Known(states[j].nodes[n]) == Known(states[i].nodes[n])
  {
    hide Run, Inv, IsLateVertex, ClocksMatchAncestry, Known, Extends;
    RunKeepsInv(states, events, i);
    RunKeepsInv(states, events, j);
    RunForgetsNothing(states, events, i, j, n);
    LateCreateExactlyWhen(states[i], states[j], n, v);
  }

  lemma LateCreateExactlyWhen(s0: Network, s: Network, n: NodeId, v: Vertex)
    requires Inv(s0) && Inv(s) && n in s0.nodes && n in s.nodes && Extends(s0.history, s.history)
    requires Known(s0.nodes[n]) <= Known(s.nodes[n])
    requires v.id !in s.history && IsLateVertex(s0.nodes[n], s.nodes[n], v)
    ensures ClocksMatchAncestry(s.history[v.id := v]) <==> Known(s.nodes[n]) == Known(s0.nodes[n])
  {
    hide Inv, IsLateVertex, ClocksMatchAncestry, Known, AncestorOrSelf;
    if Known(s.nodes[n]) == Known(s0.nodes[n]) {
      QuietCreateMatches(s0, s, n, v);
    } else {
      var u :| u in Known(s.nodes[n]) && u !in Known(s0.nodes[n]);
      KnownIsHistory(s, n, u);
      LateVertexMatches(s0, s, n, v, u);
      if ClocksMatchAncestry(s.history[v.id := v]) {
        MatchesAncestry(s.history[v.id := v], u, v.id);
      }
    }
  }

  lemma KnownIsHistory(s: Network, n: NodeId, u: Id)
    requires Inv(s) && n in s.nodes && u in Known(s.nodes[n])
    ensures u in s.history
  {
    hide ClocksMatchAncestry, GlobalInv, HistoryInv;
    assert NodeInv(s.history, n, s.nodes[n]);
  }

  lemma QuietCreateMatches(s0: Network, s: Network, n: NodeId, v: Vertex)
    requires Inv(s0) && Inv(s) && n in s0.nodes && n in s.nodes && Extends(s0.history, s.history)
    requires Known(s0.nodes[n]) == Known(s.nodes[n])
    requires v.id !in s.history && IsLateVertex(s0.nodes[n], s.nodes[n], v)
    ensures ClocksMatchAncestry(s.history[v.id := v])
  {
    var h' := s.history[v.id := v];
    hide AncestorOrSelf, Inv, Known, IsLateVertex, Extends;
    forall u, w | u in h' && w in h'
      ensures AncestorOrSelf(h', u, w) <==> Number(h'[u]) <= Count(h'[w].clock, h'[u].nodeId)
    {
      if w != v.id {
        OldPairMatches(s0, s, n, v, u, w);
      } else if u != v.id {
        LateVertexMatches(s0, s, n, v, u);
      } else {
        AncestorOfItself(h', u);
      }
    }
  }

  lemma OldPairMatches(s0: Network, s: Network, n: NodeId, v: Vertex, u: Id, w: Id)
    requires Inv(s0) && Inv(s) && n in s0.nodes && n in s.nodes && Extends(s0.history, s.history)
    requires v.id !in s.history && IsLateVertex(s0.nodes[n], s.nodes[n], v)
    requires u in s.history[v.id := v] && w in s.history
    ensures
      var h' := s.history[v.id := v];
      AncestorOrSelf(h', u, w) <==> Number(h'[u]) <= Count(h'[w].clock, h'[u].nodeId)
  {
    hide AncestorOrSelf, Inv, RankInv, ClocksMatchAncestry, Known, AdvancesClock;
    CreatorOf(s, n, v);
    HistoryOfInv(s);
    LateVertexAncestors(s0, s, n, v, u);
    NewVertexKeepsAncestry(s.history, s.rank, v, u, w);
    if u == v.id {
      OldVertexClockMatches(s, n, v, w);
    } else {
      MatchesAncestry(s.history, u, w);
    }
  }

  lemma HistoryOfInv(s: Network)
    requires Inv(s)
    ensures RankInv(s.history, s.rank) && ClocksMatchAncestry(s.history)
  {
  }

  lemma CreatorOf(s: Network, n: NodeId, v: Vertex)
    requires Inv(s) && n in s.nodes && AdvancesClock(s.nodes[n], v)
    ensures v.nodeId == n
  {
    hide ClocksMatchAncestry, GlobalInv, HistoryInv;
    assert NodeInv(s.history, n, s.nodes[n]);
  }

  // ---------------------------------------------------------------- a run in which it goes wrong

  /** Node b's vertex y as created when a's vertex x arrives after the tips were read. */
  function LateVertex(a: NodeId, b: NodeId, y: Id): Vertex {
    Vertex(y, b, Transaction(y, Write, [], 1), [], 0, map[a := 1, b := 1])
  }

  /** Node a creates x; node b reads its tips, none, receives x, and creates y: y's clock counts x, which is no ancestor
      of y. */
  lemma RacingCreateMiscounts(a: NodeId, b: NodeId, x: Id, y: Id)
    returns (states: seq<Network>, events: seq<Event>)
    requires a != b && x != y
    ensures Run(states, events) && |events| > 0 && events[|events| - 1] == Deliver(b, x)
    ensures
      var i, j := |events| - 1, |events|;
      && b in states[i].nodes && b in states[j].nodes
      && IsLateVertex(states[i].nodes[b], states[j].nodes[b], LateVertex(a, b, y))
      && !ClocksMatchAncestry(states[j].history[y := LateVertex(a, b, y)])
  {
    states, events := JoinAndCreate([EMPTY], [], a, x, 0);
    var s, t := states[|events|], NewNode(b, 2);
    var t1 := Submitted(t, y, Write, []);
    var t2 := Delivered(t1, FirstVertex(a, x, 0));
    var s1 := s.(nodes := s.nodes[b := t]);
    var s2 := s1.(nodes := s1.nodes[b := t1]);
    var s3 := s2.(nodes := s2.nodes[b := t2]);
    assert Next(s, Join(b, 2), s1);
    assert Next(s1, Submit(b, y, Write, []), s2);
    assert Next(s2, Deliver(b, x), s3);
    LateVertexIsLate(a, b, x, y);
    hide Next, Submitted, Delivered, IsLateVertex, ClocksMatchAncestry;
    AppendStep(states, events, Join(b, 2), s1);
    states, events := states + [s1], events + [Join(b, 2)];
    AppendStep(states, events, Submit(b, y, Write, []), s2);
    states, events := states + [s2], events + [Submit(b, y, Write, [])];
    AppendStep(states, events, Deliver(b, x), s3);
    states, events := states + [s3], events + [Deliver(b, x)];
    RacingCreateExactlyWhen(states, events, |events| - 1, |events|, b, LateVertex(a, b, y));
  }

  lemma LateVertexIsLate(a: NodeId, b: NodeId, x: Id, y: Id)
    requires a != b && x != y
    ensures
      var t1 := Submitted(NewNode(b, 2), y, Write, []);
      var t2 := Delivered(t1, FirstVertex(a, x, 0));
      && IsLateVertex(t1, t2, LateVertex(a, b, y))
      && Known(t1) == {} && Known(t2) == {x} && Deliverable(t1, FirstVertex(a, x, 0))
  {
    assert Tips(map[]) == {};
    assert map[b := 0].Keys + map[a := 1].Keys == {a, b};
  }
}
