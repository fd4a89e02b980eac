/** One node of the DAG consensus engine: a store of vertices, the finalized ids, a vector clock and a queue of pending
    transactions.  The functions say what each operation does to a node seen as a value; the class performs it in place.
 */
module Consensus {
  import opened Collections
  import opened Wrappers
  import Sorting

  datatype Id = Id(text: string)

  datatype NodeId = NodeId(text: string)

  type Clock = map<NodeId, nat>

  datatype TransactionType = Write | Read | Delete | Batch | System

  datatype Transaction = Transaction(id: Id, txType: TransactionType, data: seq<bv8>, nonce: nat)

  datatype Vertex = Vertex(
    id: Id,
    nodeId: NodeId,
    transaction: Transaction,
    parents: seq<Id>,
    timestamp: int,
    clock: Clock)

  datatype Error = ParentNotFound(id: Id)

  datatype Node = Node(
    nodeId: NodeId,
    quorum: nat,
    vertices: map<Id, Vertex>,
    finalized: set<Id>,
    clock: Clock,
    pending: seq<Transaction>,
    nonce: nat)

  // ---------------------------------------------------------------- vector clocks

  function Count(c: Clock, n: NodeId): nat {
    if n in c then c[n] else 0
  }

  function Max(a: nat, b: nat): nat {
    if a < b then b else a
  }

  function MergeClocks(a: Clock, b: Clock): Clock {
    map n | n in a.Keys + b.Keys :: Max(Count(a, n), Count(b, n))
  }

  predicate ClockLeq(a: Clock, b: Clock) {
    forall n :: n in a ==> a[n] <= Count(b, n)
  }

  /** a is at least b on every key of a, and larger on one of them.  Keys that only b has are not looked at. */
  predicate Dominates(a: Clock, b: Clock) {
    && (forall n :: n in a ==> Count(b, n) <= a[n])
    && (exists n :: n in a && Count(b, n) < a[n])
  }

  method VectorClockDominates(a: Clock, b: Clock) returns (dominates: bool)
    ensures dominates <==> Dominates(a, b)
  {
    dominates := false;
    var rest := a.Keys;
    while rest != {}
      invariant rest <= a.Keys
      invariant forall n :: n in a && n !in rest ==> Count(b, n) <= a[n]
      invariant dominates <==> exists n :: n in a && n !in rest && Count(b, n) < a[n]
      decreases rest
    {
      var n :| n in rest;
      if a[n] < Count(b, n) {
        return false;
      }
      if a[n] > Count(b, n) {
        dominates := true;
      }
      rest := rest - {n};
    }
  }

  // ---------------------------------------------------------------- a node as a value

  function Children(vs: map<Id, Vertex>, x: Id): set<Id> {
    set y | y in vs && x in vs[y].parents
  }

  function Tips(vs: map<Id, Vertex>): set<Id> {
    set x | x in vs && Children(vs, x) == {}
  }

  /** The nodes that created a stored child of x. */
  function Confirmers(vs: map<Id, Vertex>, x: Id): set<NodeId> {
    set y | y in vs && x in vs[y].parents :: vs[y].nodeId
  }

  lemma ConfirmedByChildren(vs: map<Id, Vertex>, x: Id)
    ensures Confirmers(vs, x) == {} <==> Children(vs, x) == {}
  {
    assert forall y :: y in Children(vs, x) ==> vs[y].nodeId in Confirmers(vs, x);
    if n :| n in Confirmers(vs, x) {
      var y :| y in vs && x in vs[y].parents && vs[y].nodeId == n;
      assert y in Children(vs, x);
    }
  }

  /** Everything the node has ever stored, since only finalized vertices are pruned. */
  function Known(s: Node): set<Id> {
    s.vertices.Keys + s.finalized
  }

  function NewNode(nodeId: NodeId, quorum: nat): Node {
    Node(nodeId, quorum, map[], {}, map[nodeId := 0], [], 0)
  }

  function Submitted(s: Node, id: Id, txType: TransactionType, data: seq<bv8>): Node {
    s.(nonce := s.nonce + 1, pending := s.pending + [Transaction(id, txType, data, s.nonce + 1)])
  }

  /** v carries the node's clock with the own counter advanced. */
  predicate AdvancesClock(s: Node, v: Vertex) {
    v.nodeId == s.nodeId && v.clock == s.clock[s.nodeId := Count(s.clock, s.nodeId) + 1]
  }

  /** v is the vertex the node creates next: first pending transaction, all tips as parents, own counter advanced. */
  ghost predicate IsNextVertex(s: Node, v: Vertex) {
    && s.pending != []
    && v.transaction == s.pending[0]
    && Enumerates(v.parents, Tips(s.vertices))
    && AdvancesClock(s, v)
  }

  function Created(s: Node, v: Vertex): Node
    requires s.pending != []
  {
    s.(vertices := s.vertices[v.id := v], clock := v.clock, pending := s.pending[1..])
  }

  predicate Deliverable(s: Node, v: Vertex) {
    forall p :: p in v.parents ==> p in Known(s)
  }

  function Delivered(s: Node, v: Vertex): Node {
    s.(vertices := s.vertices[v.id := v], clock := MergeClocks(s.clock, v.clock))
  }

  predicate Confirmed(s: Node, x: Id) {
    x in s.vertices && Children(s.vertices, x) != {} && |Confirmers(s.vertices, x)| >= s.quorum
  }

  /** Stored children of x by different creators. */
  predicate AreConfirmations(vs: map<Id, Vertex>, x: Id, ys: seq<Id>) {
    && (forall i :: 0 <= i < |ys| ==> ys[i] in vs && x in vs[ys[i]].parents)
    && forall i, j :: 0 <= i < j < |ys| ==> vs[ys[i]].nodeId != vs[ys[j]].nodeId
  }

  /** At least a quorum of stored children by different creators, and at least one. */
  ghost predicate HasQuorum(vs: map<Id, Vertex>, quorum: nat, x: Id) {
    exists ys: seq<Id> :: AreConfirmations(vs, x, ys) && |ys| >= quorum && |ys| >= 1
  }

  lemma {:induction false} OnePerCreator(vs: map<Id, Vertex>, x: Id, creators: set<NodeId>) returns (ys: seq<Id>)
    requires creators <= Confirmers(vs, x)
    ensures AreConfirmations(vs, x, ys) && |ys| == |creators|
    ensures forall i :: 0 <= i < |ys| ==> vs[ys[i]].nodeId in creators
  {
    if creators == {} {
      ys := [];
    } else {
      var n :| n in creators;
      var y :| y in vs && x in vs[y].parents && vs[y].nodeId == n;
      ys := OnePerCreator(vs, x, creators - {n});
      ys := ys + [y];
    }
  }

  lemma {:induction false} CreatorsOf(vs: map<Id, Vertex>, x: Id, ys: seq<Id>)
    requires AreConfirmations(vs, x, ys)
    ensures |ys| <= |Confirmers(vs, x)|
  {
    var creators := seq(|ys|, i requires 0 <= i < |ys| => vs[ys[i]].nodeId);
    assert Enumerates(creators, ToSet(creators));
    EnumeratesCardinality(creators, ToSet(creators));
    SubsetCardinality(ToSet(creators), Confirmers(vs, x));
  }

  /** Counting creators is looking for a quorum of children. */
  lemma ConfirmedExactlyWhen(s: Node, x: Id)
    ensures Confirmed(s, x) <==> x in s.vertices && HasQuorum(s.vertices, s.quorum, x)
  {
    ConfirmedByChildren(s.vertices, x);
    if Confirmed(s, x) {
      var ys := OnePerCreator(s.vertices, x, Confirmers(s.vertices, x));
      assert |ys| >= 1;
    }
    if ys: seq<Id> :| AreConfirmations(s.vertices, x, ys) && |ys| >= s.quorum && |ys| >= 1 {
      CreatorsOf(s.vertices, x, ys);
      assert ys[0] in Children(s.vertices, x);
    }
  }

  function Finalized(s: Node): Node {
    s.(finalized := s.finalized + set x | x in s.vertices && Confirmed(s, x))
  }

  function Prunable(s: Node): set<Id> {
    s.finalized * s.vertices.Keys
  }

  /** Pruning removes the oldest stored finalized vertices until at most keep of them are left; when no more than keep
      ids are finalized, stored or not, it removes nothing. */
  ghost predicate IsPruned(s: Node, keep: nat, s': Node) {
    if |s.finalized| <= keep then
      s' == s
    else
      && s' == s.(vertices := s'.vertices)
      && (forall x :: x in s'.vertices ==> x in s.vertices && s'.vertices[x] == s.vertices[x])
      && s.vertices.Keys - s'.vertices.Keys <= s.finalized
      && |Prunable(s')| == (if |Prunable(s)| <= keep then |Prunable(s)| else keep)
      && forall x, y :: x in s.vertices && x !in s'.vertices && y in Prunable(s') ==>
           s.vertices[x].timestamp <= s.vertices[y].timestamp
  }

  function Age(v: Vertex, x: Id): Sorting.Keyed<Id> {
    Sorting.Keyed(v.timestamp as real, x)
  }

  function Aged(vs: map<Id, Vertex>, ids: set<Id>): set<Sorting.Keyed<Id>> {
    set x | x in ids && x in vs :: Age(vs[x], x)
  }

  function Ids(s: seq<Sorting.Keyed<Id>>): (r: seq<Id>)
    ensures |r| == |s|
    ensures forall i :: 0 <= i < |s| ==> r[i] == s[i].value
  {
    seq(|s|, i requires 0 <= i < |s| => s[i].value)
  }

  lemma IdsOfAged(vs: map<Id, Vertex>, list: seq<Sorting.Keyed<Id>>, ids: set<Id>)
    requires ids <= vs.Keys && Enumerates(list, Aged(vs, ids))
    ensures Enumerates(Ids(list), ids)
    ensures forall i :: 0 <= i < |list| ==> list[i].value in ids && list[i] == Age(vs[list[i].value], list[i].value)
  {
    forall i | 0 <= i < |list|
      ensures list[i].value in ids && list[i] == Age(vs[list[i].value], list[i].value)
    {
      assert list[i] in Aged(vs, ids);
    }
    forall x | x in ids
      ensures x in Ids(list)
    {
      assert Age(vs[x], x) in Aged(vs, ids);
      var i :| 0 <= i < |list| && list[i] == Age(vs[x], x);
      assert Ids(list)[i] == x;
    }
  }

  /** In a list sorted by age, what is cut off is no younger than what stays. */
  lemma CutIsOlder(vs: map<Id, Vertex>, sorted: seq<Sorting.Keyed<Id>>, cut: nat, x: Id, y: Id)
    requires Sorting.Sorted(sorted) && cut <= |sorted|
    requires forall i :: 0 <= i < |sorted| ==> sorted[i].value in vs && sorted[i] == Age(vs[sorted[i].value], sorted[i].value)
    requires x in Ids(sorted)[..cut] && y in Ids(sorted)[cut..]
    ensures vs[x].timestamp <= vs[y].timestamp
  {
    var i :| 0 <= i < cut && Ids(sorted)[i] == x;
    var j :| 0 <= j < |sorted| - cut && Ids(sorted)[cut..][j] == y;
    assert sorted[i].key <= sorted[cut + j].key;
  }

  /** Removing the first cut vertices of the list sorted by age is a prune. */
  lemma PruneByAge(s: Node, sorted: seq<Sorting.Keyed<Id>>, keep: nat, cut: nat, s': Node)
    requires |s.finalized| > keep
    requires cut == if |sorted| <= keep then 0 else |sorted| - keep
    requires Sorting.Sorted(sorted) && Enumerates(sorted, Aged(s.vertices, Prunable(s)))
    requires s' == s.(vertices := s.vertices - ToSet(Ids(sorted)[..cut]))
    ensures IsPruned(s, keep, s')
  {
    var ids := Ids(sorted);
    IdsOfAged(s.vertices, sorted, Prunable(s));
    PrunableLeft(s, ids, cut, s');
    forall x, y | x in s.vertices && x !in s'.vertices && y in Prunable(s')
      ensures s.vertices[x].timestamp <= s.vertices[y].timestamp
    {
      CutIsOlder(s.vertices, sorted, cut, x, y);
    }
  }

  lemma PrunableLeft(s: Node, ids: seq<Id>, cut: nat, s': Node)
    requires Enumerates(ids, Prunable(s)) && cut <= |ids|
    requires s' == s.(vertices := s.vertices - ToSet(ids[..cut]))
    ensures Enumerates(ids[cut..], Prunable(s'))
    ensures |Prunable(s)| == |ids| && |Prunable(s')| == |ids| - cut
    ensures forall x :: x in s.vertices && x !in s'.vertices ==> x in ids[..cut] && x in s.finalized
  {
    EnumeratesDrop(ids, Prunable(s), cut);
    assert Prunable(s') == Prunable(s) - ToSet(ids[..cut]);
    EnumeratesCardinality(ids, Prunable(s));
    EnumeratesCardinality(ids[cut..], Prunable(s'));
  }

  // ---------------------------------------------------------------- the engine

  class DagConsensus {
    const nodeId: NodeId
    const minQuorumSize: nat
    var vertices: map<Id, Vertex>
    var finalized: set<Id>
    var clock: Clock
    var pending: seq<Transaction>
    var nonceCounter: nat

    ghost function State(): Node
      reads this
    {
      Node(nodeId, minQuorumSize, vertices, finalized, clock, pending, nonceCounter)
    }

    /** Vertices are stored under their own id. */
    ghost predicate Valid()
      reads this
    {
      forall x :: x in vertices ==> vertices[x].id == x
    }

    constructor (nodeId: NodeId, minQuorumSize: nat)
      ensures Valid()
      ensures State() == NewNode(nodeId, minQuorumSize)
    {
      this.nodeId := nodeId;
      this.minQuorumSize := minQuorumSize;
      vertices, finalized, clock := map[], {}, map[nodeId := 0];
      pending, nonceCounter := [], 0;
    }

    method SubmitTransaction(txType: TransactionType, data: seq<bv8>, id: Id) returns (txId: Id)
      requires Valid()
      modifies this
      ensures Valid()
      ensures State() == Submitted(old(State()), id, txType, data)
      ensures txId == id
    {
      nonceCounter := nonceCounter + 1;
      var transaction := Transaction(id, txType, data, nonceCounter);
      pending := pending + [transaction];
      txId := id;
    }

    method CreateVertex(id: Id, now: int) returns (r: Option<Vertex>)
      requires Valid()
      modifies this
      ensures Valid()
      ensures r.None? <==> old(pending) == []
      ensures r.None? ==> State() == old(State())
      ensures r.Some? ==>
        && r.value.id == id && r.value.timestamp == now
        && IsNextVertex(old(State()), r.value)
        && State() == Created(old(State()), r.value)
    {
      if pending == [] {
        return None;
      }
      var transaction := pending[0];
      pending := pending[1..];
      var parents := FindTips();
      clock := clock[nodeId := Count(clock, nodeId) + 1];
      var vertex := Vertex(id, nodeId, transaction, parents, now, clock);
      vertices := vertices[id := vertex];
      r := Some(vertex);
    }

    method FindTips() returns (tips: seq<Id>)
      ensures Enumerates(tips, Tips(vertices))
    {
      var hasChildren: set<Id> := {};
      var rest := vertices.Keys;
      while rest != {}
        invariant rest <= vertices.Keys
        invariant forall x :: x in hasChildren <==> exists y :: y in vertices && y !in rest && x in vertices[y].parents
        decreases rest
      {
        var y :| y in rest;
        hasChildren := hasChildren + set x | x in vertices[y].parents;
        rest := rest - {y};
      }
      tips := [];
      rest := vertices.Keys;
      while rest != {}
        invariant rest <= vertices.Keys
        invariant Enumerates(tips, Tips(vertices) - rest)
        decreases rest
      {
        var x :| x in rest;
        if x !in hasChildren {
          assert Children(vertices, x) == {};
          tips := tips + [x];
        } else {
          var y :| y in vertices && x in vertices[y].parents;
          assert y in Children(vertices, x);
        }
        rest := rest - {x};
      }
    }

    method AddVertex(vertex: Vertex) returns (r: Result<(), Error>)
      requires Valid()
      modifies this
      ensures Valid()
      ensures r.Ok? <==> Deliverable(old(State()), vertex)
      ensures r.Ok? ==> State() == Delivered(old(State()), vertex)
      ensures r.Err? ==>
        && State() == old(State())
        && r.error.id in vertex.parents && r.error.id !in Known(old(State()))
    {
      for i := 0 to |vertex.parents|
        invariant forall j :: 0 <= j < i ==> vertex.parents[j] in Known(State())
      {
        var parent := vertex.parents[i];
        if parent !in vertices && parent !in finalized {
          assert parent in vertex.parents && parent !in Known(State());
          return Err(ParentNotFound(parent));
        }
      }
      var merged := clock;
      var rest := vertex.clock.Keys;
      while rest != {}
        invariant rest <= vertex.clock.Keys
        invariant merged.Keys == clock.Keys + (vertex.clock.Keys - rest)
        invariant forall n :: n in merged ==>
          merged[n] == if n in rest then Count(clock, n) else Max(Count(clock, n), Count(vertex.clock, n))
        decreases rest
      {
        var n :| n in rest;
        merged := merged[n := Max(Count(merged, n), vertex.clock[n])];
        rest := rest - {n};
      }
      assert merged == MergeClocks(clock, vertex.clock);
      clock := merged;
      vertices := vertices[vertex.id := vertex];
      r := Ok(());
    }

    method FinalizeVertices() returns (ids: seq<Id>)
      requires Valid()
      modifies this
      ensures Valid()
      ensures State() == Finalized(old(State()))
      ensures forall x :: x in finalized <==>
        x in old(finalized) || (x in vertices && HasQuorum(vertices, minQuorumSize, x))
      ensures Enumerates(ids, finalized - old(finalized))
    {
      var confirmations := CountConfirmations();
      ids := [];
      var rest := confirmations.Keys;
      ghost var was := State();
      while rest != {}
        invariant rest <= confirmations.Keys
        invariant State() == was.(finalized := finalized)
        invariant forall x :: x in finalized <==>
          x in was.finalized || (x in confirmations && x !in rest && |confirmations[x]| >= minQuorumSize)
        invariant Enumerates(ids, finalized - was.finalized)
        decreases rest
      {
        var x :| x in rest;
        if |confirmations[x]| >= minQuorumSize && x !in finalized {
          EnumeratesAppend(ids, finalized - was.finalized, x);
          assert finalized + {x} - was.finalized == finalized - was.finalized + {x};
          finalized := finalized + {x};
          ids := ids + [x];
        }
        rest := rest - {x};
      }
      assert finalized == Finalized(was).finalized;
      forall x: Id
        ensures Confirmed(was, x) <==> x in vertices && HasQuorum(vertices, minQuorumSize, x)
      {
        ConfirmedExactlyWhen(was, x);
      }
    }

    /** For each stored vertex with a child, the creators of its children. */
    method CountConfirmations() returns (confirmations: map<Id, set<NodeId>>)
      requires Valid()
      ensures forall x :: x in confirmations <==> x in vertices && Children(vertices, x) != {}
      ensures forall x :: x in confirmations ==> confirmations[x] == Confirmers(vertices, x)
    {
      confirmations := map[];
      var rest := vertices.Keys;
      while rest != {}
        invariant rest <= vertices.Keys
        invariant forall x :: x in confirmations <==> x in vertices && x !in rest && Children(vertices, x) != {}
        invariant forall x :: x in confirmations ==> confirmations[x] == Confirmers(vertices, x)
        decreases rest
      {
        var x :| x in rest;
        var confirming := CountConfirmationsOf(vertices[x]);
        ConfirmedByChildren(vertices, x);
        if confirming != {} {
          confirmations := confirmations[x := confirming];
        }
        rest := rest - {x};
      }
    }

    method CountConfirmationsOf(vertex: Vertex) returns (confirming: set<NodeId>)
      ensures confirming == Confirmers(vertices, vertex.id)
    {
      confirming := {};
      var others := vertices.Keys;
      while others != {}
        invariant others <= vertices.Keys
        invariant confirming == set y | y in vertices && y !in others && vertex.id in vertices[y].parents :: vertices[y].nodeId
        decreases others
      {
        var y :| y in others;
        if vertex.id in vertices[y].parents {
          confirming := confirming + {vertices[y].nodeId};
        }
        others := others - {y};
      }
    }

    method PruneOldVertices(keepCount: nat)
      requires Valid()
      modifies this
      ensures Valid()
      ensures IsPruned(old(State()), keepCount, State())
    {
      if |finalized| <= keepCount {
        return;
      }
      ghost var was := State();
      var sorted := PrunableByAge();
      var toRemove := if |sorted| <= keepCount then 0 else |sorted| - keepCount;
      ghost var ids := Ids(sorted);
      hide IsPruned, Prunable;
      for i := 0 to toRemove
        invariant State() == was.(vertices := vertices)
        invariant vertices == was.vertices - ToSet(ids[..i])
      {
        assert ToSet(ids[..i + 1]) == ToSet(ids[..i]) + {sorted[i].value} by {
          assert ids[..i + 1] == ids[..i] + [sorted[i].value];
        }
        vertices := vertices - {sorted[i].value};
      }
      PruneByAge(was, sorted, keepCount, toRemove, State());
    }

    method PrunableByAge() returns (sorted: seq<Sorting.Keyed<Id>>)
      ensures Sorting.Sorted(sorted) && Enumerates(sorted, Aged(vertices, Prunable(State())))
    {
      var removable: seq<Sorting.Keyed<Id>> := [];
      var rest := finalized;
      while rest != {}
        invariant rest <= finalized
        invariant Enumerates(removable, Aged(vertices, finalized - rest))
        decreases rest
      {
        var x :| x in rest;
        if x in vertices {
          EnumeratesAppend(removable, Aged(vertices, finalized - rest), Age(vertices[x], x));
          removable := removable + [Age(vertices[x], x)];
        }
        assert Aged(vertices, finalized - (rest - {x})) ==
               Aged(vertices, finalized - rest) + if x in vertices then {Age(vertices[x], x)} else {};
        rest := rest - {x};
      }
      assert Aged(vertices, finalized - rest) == Aged(vertices, Prunable(State()));
      sorted := Sorting.Sort(removable);
      Sorting.SortPermutesAndSorts(removable);
      EnumeratesPermuted(removable, sorted, Aged(vertices, Prunable(State())));
    }
  }
}
