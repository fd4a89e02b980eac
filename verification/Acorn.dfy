/** The ACORN graph: how it is built, and the predicate-blind best-first search over it. */
module Acorn {
  import Bytes
  import opened Collections
  import opened Nearest
  import opened Paths
  import opened Wrappers

  datatype AcornError = EmptyDataset | DimMismatch(expected: nat, actual: nat)

  // ---------------------------------------------------------------- rows in one flat buffer

  ghost function Flatten(rows: seq<seq<real>>): seq<real> {
    if rows == [] then [] else Flatten(rows[..|rows| - 1]) + rows[|rows| - 1]
  }

  function Offset(i: nat, dim: nat): nat {
    i * dim
  }

  lemma OffsetNext(i: nat, dim: nat)
    ensures Offset(i + 1, dim) == Offset(i, dim) + dim
    ensures Offset(0, dim) == 0
  {
  }

  lemma OffsetDivides(n: nat, dim: nat)
    requires dim > 0
    ensures Offset(n, dim) / dim == n
  {
    Bytes.ModUnique(Offset(n, dim), n, 0, dim);
  }

  lemma {:induction false} FlattenRow(rows: seq<seq<real>>, dim: nat, i: nat)
    requires forall r :: 0 <= r < |rows| ==> |rows[r]| == dim
    requires i < |rows|
    ensures |Flatten(rows)| == Offset(|rows|, dim)
    ensures Offset(i, dim) + dim <= |Flatten(rows)|
    ensures Flatten(rows)[Offset(i, dim)..Offset(i, dim) + dim] == rows[i]
  {
    hide Offset;
    var n := |rows| - 1;
    var init := rows[..n];
    FlattenSize(init, dim);
    OffsetNext(n, dim);
    if i < n {
      FlattenRow(init, dim, i);
      assert Flatten(rows)[Offset(i, dim)..Offset(i, dim) + dim] == Flatten(init)[Offset(i, dim)..Offset(i, dim) + dim];
    }
  }

  lemma {:induction false} FlattenSize(rows: seq<seq<real>>, dim: nat)
    requires forall r :: 0 <= r < |rows| ==> |rows[r]| == dim
    ensures |Flatten(rows)| == Offset(|rows|, dim)
  {
    hide Offset;
    if rows == [] {
      OffsetNext(0, dim);
    } else {
      FlattenSize(rows[..|rows| - 1], dim);
      OffsetNext(|rows| - 1, dim);
    }
  }

  // ---------------------------------------------------------------- the graph

  datatype AcornGraph = AcornGraph(neighbors: seq<seq<nat>>, data: seq<real>, dim: nat, maxNeighbors: nat) {
    /** data.len() / dim.max(1): vectors without coordinates count as none. */
    function Len(): nat {
      |data| / if dim == 0 then 1 else dim
    }

    /** The vectors the graph was built over. */
    ghost predicate Holds(rows: seq<seq<real>>) {
      && rows != []
      && (forall i :: 0 <= i < |rows| ==> |rows[i]| == dim)
      && data == Flatten(rows)
      && |neighbors| == |rows|
      && forall i, x :: 0 <= i < |neighbors| && x in neighbors[i] ==> x < |neighbors|
    }
  }

  lemma LenOfHeld(g: AcornGraph, rows: seq<seq<real>>)
    requires g.Holds(rows)
    ensures g.Len() == if g.dim == 0 then 0 else |rows|
  {
    FlattenSize(rows, g.dim);
    if g.dim > 0 {
      OffsetDivides(|rows|, g.dim);
    }
  }

  method Row(g: AcornGraph, i: nat, ghost rows: seq<seq<real>>) returns (row: seq<real>)
    requires g.Holds(rows) && i < |rows|
    ensures row == rows[i]
  {
    FlattenRow(rows, g.dim, i);
    row := g.data[Offset(i, g.dim)..Offset(i, g.dim) + g.dim];
  }

  ghost function Links(g: AcornGraph): Graph<nat> {
    map i: nat | i < |g.neighbors| :: ToSet(g.neighbors[i])
  }

  // ---------------------------------------------------------------- building

  function Min(a: nat, b: nat): nat {
    if a < b then a else b
  }

  ghost function Scores(rows: seq<seq<real>>, i: nat, ids: seq<nat>): set<Cand>
    requires i < |rows| && SameWidth(rows, rows[i]) && forall x :: x in ids ==> x < |rows|
  {
    Scored(rows, rows[i], ToSet(ids))
  }

  /** fwd lists the nearest predecessors of node i, as many as the edge budget allows. */
  ghost predicate NearestBefore(rows: seq<seq<real>>, i: nat, fwd: seq<nat>, budget: nat)
    requires i < |rows| && SameWidth(rows, rows[i])
  {
    && Distinct(fwd)
    && (forall x :: x in fwd ==> x < i)
    && IsTopK(Scores(rows, i, fwd), Scored(rows, rows[i], Passing(i, Anything)), Min(budget, i))
  }

  /** The back-edge from a to x has been considered: x is below i, or x is i and a among its first m forward edges. */
  ghost predicate Considered(fwd: seq<seq<nat>>, i: nat, m: nat, x: nat, a: nat) {
    x < |fwd| && a in fwd[x] && (x < i || (x == i && a in fwd[x][..Min(m, |fwd[x]|)]))
  }

  ghost predicate Predecessors(fwd: seq<seq<nat>>) {
    forall a, x :: 0 <= a < |fwd| && x in fwd[a] ==> x < a
  }

  /** From position p on, the list ascends. */
  predicate AscendsFrom(s: seq<nat>, p: nat) {
    forall i, j :: p <= i < j < |s| ==> s[i] < s[j]
  }

  /** From position p on, everything is below x. */
  predicate BelowFrom(s: seq<nat>, p: nat, x: nat) {
    forall i :: p <= i < |s| ==> s[i] < x
  }

  /** Every list keeps its forward part, gains only considered back-edges, in ascending order, and misses one only when
      it is full, and then only after all that it gained. */
  ghost predicate Merged(fwd: seq<seq<nat>>, nb: seq<seq<nat>>, budget: nat, i: nat, m: nat) {
    && |nb| == |fwd|
    && (forall a :: 0 <= a < |nb| ==> fwd[a] <= nb[a] && Distinct(nb[a]) && |nb[a]| <= budget)
    && (forall a :: 0 <= a < |nb| ==> AscendsFrom(nb[a], |fwd[a]|))
    && (forall a, x :: 0 <= a < |nb| && x in nb[a] ==> x in fwd[a] || Considered(fwd, i, m, x, a))
    && (forall a, x :: 0 <= a < |nb| && Considered(fwd, i, m, x, a) ==> x in nb[a] || |nb[a]| == budget)
    && (forall a, x :: 0 <= a < |nb| && Considered(fwd, i, m, x, a) ==> x in nb[a] || BelowFrom(nb[a], |fwd[a]|, x))
  }

  lemma MergedStart(fwd: seq<seq<nat>>, budget: nat)
    requires forall a :: 0 <= a < |fwd| ==> Distinct(fwd[a]) && |fwd[a]| <= budget
    ensures Merged(fwd, fwd, budget, 0, 0)
  {
  }

  lemma MergedNextNode(fwd: seq<seq<nat>>, nb: seq<seq<nat>>, budget: nat, i: nat)
    requires i < |fwd| && Merged(fwd, nb, budget, i, |fwd[i]|)
    ensures Merged(fwd, nb, budget, i + 1, 0)
  {
    assert fwd[i][..|fwd[i]|] == fwd[i];
    forall x: nat, a: nat
      ensures Considered(fwd, i, |fwd[i]|, x, a) <==> Considered(fwd, i + 1, 0, x, a)
    {
    }
  }

  /** A node's own list is still its forward list when its turn comes. */
  lemma NotMergedYet(fwd: seq<seq<nat>>, nb: seq<seq<nat>>, budget: nat, i: nat)
    requires i < |fwd| && Merged(fwd, nb, budget, i, 0) && Predecessors(fwd)
    ensures nb[i] == fwd[i]
  {
    forall x: nat
      ensures !Considered(fwd, i, 0, x, i)
    {
    }
    DistinctExtension(fwd[i], nb[i]);
  }

  /** A list without repeats that extends another and adds no member adds nothing. */
  lemma DistinctExtension(a: seq<nat>, b: seq<nat>)
    requires a <= b && Distinct(b) && forall x :: x in b ==> x in a
    ensures a == b
  {
    assert Enumerates(b, ToSet(b)) && Enumerates(a, ToSet(a));
    assert forall x :: x in a ==> x in b;
    assert ToSet(a) == ToSet(b);
    EnumeratesCardinality(a, ToSet(a));
    EnumeratesCardinality(b, ToSet(b));
  }

  lemma MergeOne(fwd: seq<seq<nat>>, nb: seq<seq<nat>>, budget: nat, i: nat, m: nat)
    requires i < |fwd| && m < |fwd[i]| && Merged(fwd, nb, budget, i, m)
    requires Distinct(fwd[i]) && Predecessors(fwd)
    ensures
      var j := fwd[i][m];
      j < |nb| &&
      Merged(fwd, if |nb[j]| < budget then nb[j := nb[j] + [i]] else nb, budget, i, m + 1)
  {
    var j := fwd[i][m];
    assert j in fwd[i] && j < i;
    assert fwd[i][..m + 1] == fwd[i][..m] + [j];
    forall x: nat, a: nat
      ensures Considered(fwd, i, m + 1, x, a) <==> Considered(fwd, i, m, x, a) || (x == i && a == j)
    {
    }
    assert !Considered(fwd, i, m, i, j);
    assert i !in nb[j];
    AppendDistinct(nb[j], i);
    AppendAscends(fwd, nb, budget, i, m, j);
    hide Considered, Distinct, AscendsFrom, BelowFrom;
    var nb' := if |nb[j]| < budget then nb[j := nb[j] + [i]] else nb;
    forall a, x | 0 <= a < |nb'| && x in nb'[a]
      ensures x in fwd[a] || Considered(fwd, i, m + 1, x, a)
    {
      assert x in nb[a] || (a == j && x == i);
    }
  }

  lemma NotInPrefix(a: seq<nat>, b: seq<nat>, p: nat)
    requires a <= b && Distinct(b) && |a| <= p < |b|
    ensures b[p] !in a
  {
    forall k | 0 <= k < |a|
      ensures a[k] != b[p]
    {
      assert a[k] == b[k];
    }
  }

  /** Back-edges considered so far come from nodes up to i. */
  lemma AppendAscends(fwd: seq<seq<nat>>, nb: seq<seq<nat>>, budget: nat, i: nat, m: nat, j: nat)
    requires Merged(fwd, nb, budget, i, m) && j < |nb| && i !in nb[j]
    ensures AscendsFrom(nb[j] + [i], |fwd[j]|) && BelowFrom(nb[j], |fwd[j]|, i)
  {
    forall p | |fwd[j]| <= p < |nb[j]|
      ensures nb[j][p] < i
    {
      var x := nb[j][p];
      assert x in nb[j];
      NotInPrefix(fwd[j], nb[j], p);
      assert Considered(fwd, i, m, x, j);
    }
  }

  /** What build promises about the edges. */
  ghost predicate IsBuilt(g: AcornGraph, rows: seq<seq<real>>, budget: nat) {
    && g.Holds(rows) && g.maxNeighbors == budget
    && (forall i :: 0 <= i < |rows| ==> SameWidth(rows, rows[i]))
    && exists fwd: seq<seq<nat>> ::
         && |fwd| == |rows|
         && (forall i :: 0 <= i < |rows| ==> NearestBefore(rows, i, fwd[i], budget))
         && Merged(fwd, g.neighbors, budget, |rows|, 0)
  }

  method Build(rows: seq<seq<real>>, maxNeighbors: nat) returns (r: Result<AcornGraph, AcornError>)
    ensures r == Err(EmptyDataset) <==> rows == []
    ensures r.Err? && rows != [] ==>
      exists i :: 0 <= i < |rows| && |rows[i]| != |rows[0]| && r.error == DimMismatch(|rows[0]|, |rows[i]|)
    ensures r.Ok? <==> rows != [] && forall i :: 0 <= i < |rows| ==> |rows[i]| == |rows[0]|
    ensures r.Ok? ==> IsBuilt(r.value, rows, maxNeighbors)
  {
    hide IsBuilt, NearestBefore, Merged, SameWidth;
    if rows == [] {
      return Err(EmptyDataset);
    }
    var dim := |rows[0]|;
    var flat: seq<real> := [];
    for i := 0 to |rows|
      invariant flat == Flatten(rows[..i])
      invariant forall j :: 0 <= j < i ==> |rows[j]| == dim
    {
      if |rows[i]| != dim {
        return Err(DimMismatch(dim, |rows[i]|));
      }
      assert rows[..i + 1][..i] == rows[..i];
      flat := flat + rows[i];
    }
    assert rows[..|rows|] == rows;
    var forward := ForwardPass(rows, maxNeighbors);
    ForwardIsPredecessors(rows, forward, maxNeighbors);
    var neighbors := MergeBackEdges(forward, maxNeighbors);
    var g := AcornGraph(neighbors, flat, dim, maxNeighbors);
    BuiltGraph(g, rows, forward);
    r := Ok(g);
  }

  lemma BuiltGraph(g: AcornGraph, rows: seq<seq<real>>, forward: seq<seq<nat>>)
    requires rows != [] && g.dim == |rows[0]| && (forall i :: 0 <= i < |rows| ==> |rows[i]| == |rows[0]|)
    requires g.data == Flatten(rows) && |forward| == |rows|
    requires forall i :: 0 <= i < |rows| ==> SameWidth(rows, rows[i]) && NearestBefore(rows, i, forward[i], g.maxNeighbors)
    requires Merged(forward, g.neighbors, g.maxNeighbors, |rows|, 0)
    ensures IsBuilt(g, rows, g.maxNeighbors)
  {
    ForwardIsPredecessors(rows, forward, g.maxNeighbors);
    hide NearestBefore;
    forall i, x | 0 <= i < |g.neighbors| && x in g.neighbors[i]
      ensures x < |g.neighbors|
    {
      assert x in forward[i] || Considered(forward, |rows|, 0, x, i);
    }
    hide Merged, Predecessors, SameWidth, Flatten;
    assert g.Holds(rows);
  }

  lemma ForwardIsPredecessors(rows: seq<seq<real>>, forward: seq<seq<nat>>, budget: nat)
    requires |forward| == |rows|
    requires forall i :: 0 <= i < |rows| ==> SameWidth(rows, rows[i]) && NearestBefore(rows, i, forward[i], budget)
    ensures Predecessors(forward)
  {
  }

  lemma RowsSameWidth(rows: seq<seq<real>>, i: nat)
    requires i < |rows| && forall j :: 0 <= j < |rows| ==> |rows[j]| == |rows[0]|
    ensures SameWidth(rows, rows[i])
  {
  }

  method ForwardPass(rows: seq<seq<real>>, maxNeighbors: nat) returns (forward: seq<seq<nat>>)
    requires rows != [] && forall i :: 0 <= i < |rows| ==> |rows[i]| == |rows[0]|
    ensures |forward| == |rows|
    ensures forall i :: 0 <= i < |rows| ==>
      && SameWidth(rows, rows[i]) && NearestBefore(rows, i, forward[i], maxNeighbors)
      && Distinct(forward[i]) && |forward[i]| <= maxNeighbors
  {
    hide SameWidth, IsTopK, Scored, SquaredDistance;
    forward := [];
    for i := 0 to |rows|
      invariant |forward| == i
      invariant forall a :: 0 <= a < i ==>
        && SameWidth(rows, rows[a]) && NearestBefore(rows, a, forward[a], maxNeighbors)
        && Distinct(forward[a]) && |forward[a]| <= maxNeighbors
    {
      RowsSameWidth(rows, i);
      var heap := BoundedScan(rows, rows[i], Min(maxNeighbors, i), i, Anything);
      var ids := HeapIds(rows, rows[i], heap, i, Min(maxNeighbors, i));
      forward := forward + [ids];
    }
  }

  /** heap.into_iter().map(|(_, j)| j).collect() */
  method HeapIds(rows: seq<seq<real>>, query: seq<real>, heap: set<Cand>, n: nat, k: nat) returns (ids: seq<nat>)
    requires SameWidth(rows, query) && n <= |rows|
    requires IsTopK(heap, Scored(rows, query, Passing(n, Anything)), k)
    ensures Distinct(ids) && |ids| <= k && forall x :: x in ids ==> x < n
    ensures Scored(rows, query, ToSet(ids)) == heap
  {
    hide SquaredDistance, SameWidth;
    var items := Drain(heap);
    EnumeratesCardinality(items, heap);
    ids := [];
    for i := 0 to |items|
      invariant |ids| == i
      invariant forall j :: 0 <= j < i ==> ids[j] == items[j].value && ids[j] < n && items[j] == Score(rows, query, ids[j])
    {
      assert items[i] in heap;
      ids := ids + [items[i].value];
    }
    assert forall c :: c in Scored(rows, query, ToSet(ids)) ==> c in heap by {
      forall x | x in ids ensures Score(rows, query, x) in heap {
        var j :| 0 <= j < |ids| && ids[j] == x;
        assert items[j] in heap;
      }
    }
    forall c | c in heap
      ensures c in Scored(rows, query, ToSet(ids))
    {
      var j :| 0 <= j < |items| && items[j] == c;
      assert ids[j] in ToSet(ids);
    }
  }

  method MergeBackEdges(forward: seq<seq<nat>>, maxNeighbors: nat) returns (neighbors: seq<seq<nat>>)
    requires Predecessors(forward)
    requires forall a :: 0 <= a < |forward| ==> Distinct(forward[a]) && |forward[a]| <= maxNeighbors
    ensures Merged(forward, neighbors, maxNeighbors, |forward|, 0)
  {
    hide Merged, Predecessors, Distinct;
    neighbors := forward;
    MergedStart(forward, maxNeighbors);
    for i := 0 to |forward|
      invariant Merged(forward, neighbors, maxNeighbors, i, 0) && |neighbors| == |forward|
    {
      NotMergedYet(forward, neighbors, maxNeighbors, i);
      var forwardI := neighbors[i];
      for m := 0 to |forwardI|
        invariant Merged(forward, neighbors, maxNeighbors, i, m) && |neighbors| == |forward|
      {
        MergeOne(forward, neighbors, maxNeighbors, i, m);
        var j := forwardI[m];
        if |neighbors[j]| < maxNeighbors {
          neighbors := neighbors[j := neighbors[j] + [i]];
        }
      }
      MergedNextNode(forward, neighbors, maxNeighbors, i);
    }
  }
}
