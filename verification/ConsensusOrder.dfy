/** The order in which finalized transactions are reported: sorted by dominance of clocks, then by time. */
module ConsensusOrder {
  import opened Collections
  import opened Consensus
  import opened ConsensusRuns
  import opened ConsensusTheorems
  import opened Paths

  datatype Ordering = Before | Same | After

  function CompareTimes(a: int, b: int): Ordering {
    if a < b then Before else if a > b then After else Same
  }

  /** The comparator of the sort. */
  function Compare(a: Vertex, b: Vertex): Ordering {
    if Dominates(a.clock, b.clock) && !Dominates(b.clock, a.clock) then Before
    else if Dominates(b.clock, a.clock) && !Dominates(a.clock, b.clock) then After
    else CompareTimes(a.timestamp, b.timestamp)
  }

  /** In every run a vertex comes before its ancestors, whatever the timestamps: the sort is topological backwards. */
  lemma DescendantComesFirst(states: seq<Network>, events: seq<Event>, i: nat, u: Id, v: Id)
    requires Run(states, events) && i < |states|
    requires v in states[i].history && StrictAncestor(states[i].history, u, v)
    ensures u in states[i].history
    ensures Compare(states[i].history[v], states[i].history[u]) == Before
    ensures Compare(states[i].history[u], states[i].history[v]) == After
  {
    hide Run, AncestorOrSelf, Dominates;
    AncestorIsDominated(states, events, i, u, v);
  }

  predicate InOrder(vs: seq<Vertex>) {
    forall i, j :: 0 <= i < j < |vs| ==> Compare(vs[i], vs[j]) != After
  }

  /** Node a's second vertex. */
  function SecondVertex(a: NodeId, x: Id, y: Id, now: int): Vertex {
    Vertex(y, a, Transaction(y, Write, [], 2), [x], now, map[a := 2])
  }

  lemma SecondVertexIsNext(a: NodeId, x: Id, y: Id, at: int, now: int)
    requires x != y
    ensures
      var t := Created(Submitted(NewNode(a, 2), x, Write, []), FirstVertex(a, x, at));
      IsNextVertex(Submitted(t, y, Write, []), SecondVertex(a, x, y, now))
  {
    var vs := map[x := FirstVertex(a, x, at)];
    assert Children(vs, x) == {};
    assert Tips(vs) == {x};
  }

  /** Node a creates x at time 1 and y on top of it at time 3; node b, having heard of nothing, creates z at time 2. */
  lemma ThreeVertices(a: NodeId, b: NodeId, x: Id, y: Id, z: Id) returns (states: seq<Network>, events: seq<Event>)
    requires a != b && x != y && y != z && z != x
    ensures Run(states, events)
    ensures
      states[|events|].history
      == map[x := FirstVertex(a, x, 1), z := FirstVertex(b, z, 2), y := SecondVertex(a, x, y, 3)]
  {
    states, events := JoinAndCreate([EMPTY], [], a, x, 1);
    states, events := JoinAndCreate(states, events, b, z, 2);
    var s := states[|events|];
    var t := s.nodes[a];
    assert t == Created(Submitted(NewNode(a, 2), x, Write, []), FirstVertex(a, x, 1));
    hide Created, Submitted, FirstVertex;
    SecondVertexIsNext(a, x, y, 1, 3);
    states, events := SubmitAndCreate(states, events, a, y, SecondVertex(a, x, y, 3));
  }

  lemma SubmitAndCreate(states: seq<Network>, events: seq<Event>, n: NodeId, y: Id, v: Vertex)
    returns (states': seq<Network>, events': seq<Event>)
    requires Run(states, events) && n in states[|events|].nodes && v.id !in states[|events|].history
    requires IsNextVertex(Submitted(states[|events|].nodes[n], y, Write, []), v)
    ensures Run(states', events') && states'[|events'|].history == states[|events|].history[v.id := v]
  {
    var s := states[|events|];
    var t := Submitted(s.nodes[n], y, Write, []);
    var s1 := s.(nodes := s.nodes[n := t]);
    var s2 := Network(s1.nodes[n := Created(t, v)], s1.history[v.id := v], s1.rank[v.id := |s1.history|]);
    assert Next(s, Submit(n, y, Write, []), s1);
    assert Next(s1, Create(n, v), s2);
    hide Next, Created, Submitted;
    AppendStep(states, events, Submit(n, y, Write, []), s1);
    AppendStep(states + [s1], events + [Submit(n, y, Write, [])], Create(n, v), s2);
    states', events' := states + [s1] + [s2], events + [Submit(n, y, Write, [])] + [Create(n, v)];
  }

  /** A run in which y sorts before x, x before z and z before y: no order of the three agrees with the comparator. */
  lemma ComparatorGoesRound(a: NodeId, b: NodeId, x: Id, y: Id, z: Id)
    returns (states: seq<Network>, events: seq<Event>)
    requires a != b && x != y && y != z && z != x
    ensures Run(states, events)
    ensures
      var h := states[|events|].history;
      && x in h && y in h && z in h
      && Compare(h[y], h[x]) == Before && Compare(h[x], h[z]) == Before && Compare(h[z], h[y]) == Before
      && forall order :: multiset(order) == multiset{h[x], h[y], h[z]} ==> !InOrder(order)
  {
    hide Next, Compare, InOrder, FirstVertex, SecondVertex;
    states, events := ThreeVertices(a, b, x, y, z);
    ThreeGoRound(a, b, x, y, z);
    var h := states[|events|].history;
    forall order | multiset(order) == multiset{h[x], h[y], h[z]}
      ensures !InOrder(order)
    {
      NoOrderOfThree(h[y], h[x], h[z], order);
    }
  }

  lemma ThreeGoRound(a: NodeId, b: NodeId, x: Id, y: Id, z: Id)
    requires a != b
    ensures
      var p, q, r := SecondVertex(a, x, y, 3), FirstVertex(a, x, 1), FirstVertex(b, z, 2);
      Compare(p, q) == Before && Compare(q, r) == Before && Compare(r, p) == Before
  {
    var p, q, r := SecondVertex(a, x, y, 3), FirstVertex(a, x, 1), FirstVertex(b, z, 2);
    assert a in p.clock && a in q.clock && b in r.clock;
  }

  lemma Reversed(a: Vertex, b: Vertex)
    requires Compare(a, b) == Before
    ensures Compare(b, a) == After
  {
    hide Dominates;
  }

  lemma NoOrderOfThree(p: Vertex, q: Vertex, r: Vertex, order: seq<Vertex>)
    requires Compare(p, q) == Before && Compare(q, r) == Before && Compare(r, p) == Before
    requires multiset(order) == multiset{p, q, r}
    ensures !InOrder(order)
  {
    Reversed(p, q);
    Reversed(q, r);
    Reversed(r, p);
    hide Compare;
    assert |order| == |multiset(order)| == 3;
    assert order == [order[0], order[1], order[2]];
    assert p in multiset(order) && q in multiset(order) && r in multiset(order);
  }

  // ---------------------------------------------------------------- which vertices can be sorted at all

  /** Edges lead from a vertex to those of the set that it sorts before. */
  function SortsBefore(vs: set<Vertex>): Graph<Vertex> {
    map a | a in vs :: set b | b in vs && Compare(a, b) == Before
  }

  lemma CompareMirrored(a: Vertex, b: Vertex)
    ensures Compare(a, b) == Before <==> Compare(b, a) == After
    ensures Compare(a, b) == Same <==> Compare(b, a) == Same
    ensures Compare(a, a) == Same
  {
    SelfDominance(a.clock);
    hide Dominates;
  }

  lemma SelfDominance(c: Clock)
    ensures !Dominates(c, c)
  {
  }

  ghost predicate Sortable(vs: set<Vertex>) {
    exists order :: Enumerates(order, vs) && InOrder(order)
  }

  /** There is an order of a set of vertices that agrees with the comparator if and only if no chain of vertices each of
      which sorts before the next leads back to its start. */
  lemma SortableExactlyWhen(vs: set<Vertex>)
    ensures Sortable(vs) <==> Acyclic(SortsBefore(vs))
  {
    hide InOrder, Acyclic, SortsBefore;
    if order :| Enumerates(order, vs) && InOrder(order) {
      OrderIsAcyclic(vs, order);
    }
    if Acyclic(SortsBefore(vs)) {
      var order := AcyclicHasOrder(vs);
    }
  }

  ghost function Places(order: seq<Vertex>): map<Vertex, nat> {
    map v | v in order :: PlaceFromEnd(order, v)
  }

  ghost function PlaceFromEnd(order: seq<Vertex>, v: Vertex): (n: nat)
    requires v in order
    ensures n < |order| && order[|order| - 1 - n] == v
  {
    var i :| 0 <= i < |order| && order[i] == v;
    |order| - 1 - i
  }

  lemma OrderIsAcyclic(vs: set<Vertex>, order: seq<Vertex>)
    requires Enumerates(order, vs) && InOrder(order)
    ensures Acyclic(SortsBefore(vs))
  {
    hide Compare, Acyclic;
    var g, rank := SortsBefore(vs), Places(order);
    forall a, b | Edge(g, a, b)
      ensures a in rank && b in rank && rank[b] < rank[a]
    {
      CompareMirrored(a, b);
      var i, j := |order| - 1 - rank[a], |order| - 1 - rank[b];
      assert order[i] == a && order[j] == b;
    }
    RankedIsAcyclic(g, rank);
  }

  lemma {:induction false} AcyclicHasOrder(vs: set<Vertex>) returns (order: seq<Vertex>)
    requires Acyclic(SortsBefore(vs))
    ensures Enumerates(order, vs) && InOrder(order)
    decreases |vs|
  {
    hide Compare, Acyclic;
    if vs == {} {
      order := [];
    } else {
      var x := SinkExists(SortsBefore(vs), vs);
      FewerAreAcyclic(vs, vs - {x});
      var init := AcyclicHasOrder(vs - {x});
      EnumeratesAppend(init, vs - {x}, x);
      assert vs - {x} + {x} == vs;
      order := init + [x];
      forall i, j | 0 <= i < j < |order|
        ensures Compare(order[i], order[j]) != After
      {
        if j == |init| {
          assert init[i] in vs - {x};
          assert !Edge(SortsBefore(vs), x, init[i]);
          CompareMirrored(x, init[i]);
        }
      }
    }
  }

  lemma FewerAreAcyclic(vs: set<Vertex>, less: set<Vertex>)
    requires Acyclic(SortsBefore(vs)) && less <= vs
    ensures Acyclic(SortsBefore(less))
  {
    hide Compare, Reach;
    var g, g' := SortsBefore(less), SortsBefore(vs);
    forall u, v | Edge(g, u, v)
      ensures !Reach(g, v, u)
    {
      assert Edge(g', u, v);
      if Reach(g, v, u) {
        ReachMonotone(g, g', v, u);
      }
    }
  }

  predicate GoRound(p: Vertex, q: Vertex, r: Vertex) {
    Compare(p, q) == Before && Compare(q, r) == Before && Compare(r, p) == Before
  }

  predicate AllDecided(vs: set<Vertex>) {
    forall p, q :: p in vs && q in vs && p != q ==> Compare(p, q) != Same
  }

  /** If no two of the vertices compare as equal, as when all times differ, it is enough to look at three at a time. */
  lemma SortableExactlyWhenNoThreeGoRound(vs: set<Vertex>)
    requires AllDecided(vs)
    ensures Sortable(vs) <==> forall p, q, r :: p in vs && q in vs && r in vs ==> !GoRound(p, q, r)
  {
    hide Acyclic, Sortable, GoRound, AllDecided;
    SortableExactlyWhen(vs);
    if Acyclic(SortsBefore(vs)) {
      forall p, q, r | p in vs && q in vs && r in vs
        ensures !GoRound(p, q, r)
      {
        AcyclicDoesNotGoRound(vs, p, q, r);
      }
    } else if forall p, q, r :: p in vs && q in vs && r in vs ==> !GoRound(p, q, r) {
      NoThreeIsAcyclic(vs);
    }
  }

  lemma AcyclicDoesNotGoRound(vs: set<Vertex>, p: Vertex, q: Vertex, r: Vertex)
    requires Acyclic(SortsBefore(vs)) && p in vs && q in vs && r in vs
    ensures !GoRound(p, q, r)
  {
    hide Compare, Reach;
    var g := SortsBefore(vs);
    if GoRound(p, q, r) {
      assert Edge(g, p, q) && Edge(g, q, r) && Edge(g, r, p);
      ReachEdge(g, q, r);
      ReachEdge(g, r, p);
      ReachTrans(g, q, r, p);
    }
  }

  lemma NoThreeIsAcyclic(vs: set<Vertex>)
    requires AllDecided(vs)
    requires forall p, q, r :: p in vs && q in vs && r in vs ==> !GoRound(p, q, r)
    ensures Acyclic(SortsBefore(vs))
  {
    hide Compare, Reach;
    var g := SortsBefore(vs);
    forall a, b, c | Edge(g, a, b) && Edge(g, b, c)
      ensures Edge(g, a, c)
    {
      assert !GoRound(a, b, c);
      CompareMirrored(a, c);
      CompareMirrored(a, b);
    }
    forall u, v | Edge(g, u, v)
      ensures !Reach(g, v, u)
    {
      CompareMirrored(u, v);
      if Reach(g, v, u) {
        TransitiveReach(g, v, u);
        CompareMirrored(u, u);
      }
    }
  }

  lemma TransitiveReach(g: Graph<Vertex>, u: Vertex, v: Vertex)
    requires forall a, b, c :: Edge(g, a, b) && Edge(g, b, c) ==> Edge(g, a, c)
    requires Reach(g, u, v)
    ensures u == v || Edge(g, u, v)
  {
    var p: seq<Vertex> :| PathFrom(g, p, u, v);
    TransitivePath(g, p, |p| - 1);
  }

  lemma {:induction false} TransitivePath(g: Graph<Vertex>, p: seq<Vertex>, i: nat)
    requires forall a, b, c :: Edge(g, a, b) && Edge(g, b, c) ==> Edge(g, a, c)
    requires Path(g, p) && i < |p|
    ensures i == 0 || Edge(g, p[0], p[i])
  {
    hide Edge;
    if i > 0 {
      TransitivePath(g, p, i - 1);
      assert Edge(g, p[i - 1], p[i - 1 + 1]);
    }
  }
}
