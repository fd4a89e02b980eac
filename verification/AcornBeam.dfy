/** When the width of the beam bounds the number of nodes that wait. */
module AcornBeam {
  import opened Acorn
  import opened AcornSearch
  import opened Collections
  import opened Nearest
  import opened Paths
  import opened Sorting

  // ---------------------------------------------------------------- nodes that come nearer and nearer

  /** The nodes come nearer and nearer to the query, all nearer than d. */
  ghost predicate Approaching(rows: seq<seq<real>>, query: seq<real>, d: real, xs: seq<nat>)
    requires SameWidth(rows, query) && AreNodes(xs, |rows|)
  {
    && (forall i :: 0 <= i < |xs| ==> Score(rows, query, xs[i]).key < d)
    && forall i, j :: 0 <= i < j < |xs| ==> Score(rows, query, xs[j]).key < Score(rows, query, xs[i]).key
  }

  /** A node nearer than something in the mirror is pushed, whatever the width of the beam. */
  lemma NearerIsPushed(rows: seq<seq<real>>, query: seq<real>, ef: nat, b: Beam, d: real, x: nat)
    requires SameWidth(rows, query) && x < |rows| && x !in b.seen
    requires OrdF32(d) in b.farthest && Score(rows, query, x).key < d
    ensures
      var b' := Offered(rows, query, ef, b, x);
      && b'.frontier == b.frontier + {x} && b'.seen == b.seen + {x}
      && OrdF32(Score(rows, query, x).key) in b'.farthest
  {
    hide SquaredDistance, SameWidth;
    assert OrdF32(d).value <= Greatest(b.farthest).value;
  }

  lemma NothingInEmpty(xs: seq<nat>)
    requires xs == []
    ensures ToSet(xs) == {}
  {
  }

  lemma ApproachingInit(rows: seq<seq<real>>, query: seq<real>, d: real, xs: seq<nat>)
    requires SameWidth(rows, query) && AreNodes(xs, |rows|) && Approaching(rows, query, d, xs) && xs != []
    ensures
      var init, x := xs[..|xs| - 1], xs[|xs| - 1];
      && Approaching(rows, query, d, init) && ToSet(xs) == ToSet(init) + {x} && x !in ToSet(init)
      && Score(rows, query, x).key < if init == [] then d else Score(rows, query, init[|init| - 1]).key
  {
    hide Score, SameWidth;
    var init, x := xs[..|xs| - 1], xs[|xs| - 1];
    assert xs == init + [x];
  }

  /** Unseen nodes that come nearer and nearer are all pushed, however narrow the beam. */
  lemma {:induction false} ApproachingAllPushed(rows: seq<seq<real>>, query: seq<real>, ef: nat, b: Beam, d: real,
                                                xs: seq<nat>)
    requires SameWidth(rows, query) && AreNodes(xs, |rows|)
    requires OrdF32(d) in b.farthest && Approaching(rows, query, d, xs) && ToSet(xs) !! b.seen
    ensures
      var b' := OfferedAll(rows, query, ef, b, xs);
      && b'.frontier == b.frontier + ToSet(xs) && b'.seen == b.seen + ToSet(xs)
      && OrdF32(if xs == [] then d else Score(rows, query, xs[|xs| - 1]).key) in b'.farthest
  {
    hide SameWidth, Offered, Score, Approaching, ToSet;
    if xs == [] {
      NothingInEmpty(xs);
    } else {
      var n := |xs| - 1;
      var init, x := xs[..n], xs[n];
      ApproachingInit(rows, query, d, xs);
      ApproachingAllPushed(rows, query, ef, b, d, init);
      var last := if init == [] then d else Score(rows, query, init[n - 1]).key;
      NearerIsPushed(rows, query, ef, OfferedAll(rows, query, ef, b, init), last, x);
    }
  }

  /** So any number of nodes may wait after the entry has been expanded. */
  lemma AllNeighborsWait(g: AcornGraph, rows: seq<seq<real>>, query: seq<real>, ef: nat, entry: nat)
    requires g.Holds(rows) && SameWidth(rows, query) && entry < |rows| && AreNodes(g.neighbors[entry], |rows|)
    requires Approaching(rows, query, Score(rows, query, entry).key, g.neighbors[entry])
    ensures AfterEntry(g, rows, query, ef, entry) == ToSet(g.neighbors[entry])
    ensures |AfterEntry(g, rows, query, ef, entry)| == |g.neighbors[entry]|
  {
    hide SquaredDistance, SameWidth, Flatten, OfferedAll;
    var xs, d := g.neighbors[entry], Score(rows, query, entry).key;
    var b := FirstBeam(rows, query, entry).(frontier := {});
    assert entry !in xs;
    ApproachingAllPushed(rows, query, ef, b, d, xs);
    assert Enumerates(xs, ToSet(xs));
    EnumeratesCardinality(xs, ToSet(xs));
  }

  // ---------------------------------------------------------------- the graph with every edge

  function UpTo(n: nat): (s: seq<nat>)
    ensures |s| == n
  {
    seq(n, i requires 0 <= i < n => i)
  }

  function Beyond(i: nat, n: nat): (s: seq<nat>)
    requires i < n
    ensures |s| == n - 1 - i
  {
    seq(n - 1 - i, k requires 0 <= k < n - 1 - i => i + 1 + k)
  }

  /** What build yields with a budget of n - 1: every node lists all before it, then all after it. */
  ghost function CompleteGraph(rows: seq<seq<real>>): AcornGraph
    requires rows != []
  {
    var n := |rows|;
    AcornGraph(seq(n, i requires 0 <= i < n => UpTo(i) + Beyond(i, n)), Flatten(rows), |rows[0]|, n - 1)
  }

  lemma CompleteIsBuilt(rows: seq<seq<real>>)
    requires rows != [] && forall i :: 0 <= i < |rows| ==> |rows[i]| == |rows[0]|
    ensures IsBuilt(CompleteGraph(rows), rows, |rows| - 1)
  {
    hide SquaredDistance, Flatten;
    var n, g := |rows|, CompleteGraph(rows);
    var fwd: seq<seq<nat>> := seq(n, i requires 0 <= i < n => UpTo(i));
    forall i | 0 <= i < n
      ensures SameWidth(rows, rows[i]) && NearestBefore(rows, i, fwd[i], n - 1)
    {
      AllBeforeAreNearest(rows, i);
    }
    CompleteIsMerged(n);
    assert g.neighbors == CompleteLists(n);
    hide NearestBefore, Merged, SameWidth, Scored, IsTopK;
    BuiltGraph(g, rows, fwd);
  }

  lemma AllBeforeAreNearest(rows: seq<seq<real>>, i: nat)
    requires i < |rows| && forall j :: 0 <= j < |rows| ==> |rows[j]| == |rows[0]|
    ensures SameWidth(rows, rows[i]) && NearestBefore(rows, i, UpTo(i), |rows| - 1)
  {
    hide SquaredDistance;
    forall x | x in Passing(i, Anything)
      ensures x in ToSet(UpTo(i))
    {
      assert UpTo(i)[x] == x;
    }
    assert ToSet(UpTo(i)) == Passing(i, Anything);
    BelowCardinality(i);
    ScoredCardinality(rows, rows[i], Passing(i, Anything));
  }

  function CompleteLists(n: nat): (nb: seq<seq<nat>>)
    ensures |nb| == n
  {
    seq(n, i requires 0 <= i < n => UpTo(i) + Beyond(i, n))
  }

  lemma CompleteIsMerged(n: nat)
    requires n > 0
    ensures Merged(seq(n, i requires 0 <= i < n => UpTo(i)), CompleteLists(n), n - 1, n, 0)
  {
    var fwd: seq<seq<nat>> := seq(n, i requires 0 <= i < n => UpTo(i));
    var nb := CompleteLists(n);
    forall a, x | 0 <= a < n && x in nb[a]
      ensures x in fwd[a] || Considered(fwd, n, 0, x, a)
    {
      if x !in fwd[a] {
        assert x in Beyond(a, n);
        assert fwd[x][a] == a;
      }
    }
    forall a: nat, x: nat | a < n && Considered(fwd, n, 0, x, a)
      ensures x in nb[a]
    {
      assert a in UpTo(x);
      assert Beyond(a, n)[x - a - 1] == x;
    }
  }

  /** In whatever way it was built, with that budget the first node lists the others in order. */
  lemma FirstListsOthers(g: AcornGraph, rows: seq<seq<real>>)
    requires rows != [] && IsBuilt(g, rows, |rows| - 1)
    ensures g.neighbors[0] == Beyond(0, |rows|)
  {
    GenerousBuildIsComplete(g, rows, |rows| - 1, 0);
    FirstAscends(g, rows);
    AscendingIsBeyond(g.neighbors[0], |rows|);
  }

  lemma FirstAscends(g: AcornGraph, rows: seq<seq<real>>)
    requires rows != [] && IsBuilt(g, rows, |rows| - 1)
    ensures AscendsFrom(g.neighbors[0], 0)
  {
    hide SameWidth, SquaredDistance, IsTopK, Considered, Flatten;
    var n := |rows|;
    var fwd: seq<seq<nat>> :| |fwd| == n && (forall i :: 0 <= i < n ==> NearestBefore(rows, i, fwd[i], n - 1))
                              && Merged(fwd, g.neighbors, n - 1, n, 0);
    NothingBefore(fwd[0]);
  }

  lemma NothingBefore(s: seq<nat>)
    requires Distinct(s) && forall x :: x in s ==> x < 0
    ensures s == []
  {
    EnumeratesCardinality(s, {});
  }

  lemma AscendingIsBeyond(s: seq<nat>, n: nat)
    requires n > 0 && AscendsFrom(s, 0) && ToSet(s) == Others(n, 0)
    ensures s == Beyond(0, n)
  {
    assert Distinct(s) && Enumerates(s, ToSet(s));
    EnumeratesCardinality(s, ToSet(s));
    BelowCardinality(n);
    forall i | 0 <= i < |s|
      ensures s[i] == i + 1
    {
      AscendingAtLeast(s, i);
      AscendingAtMost(s, n, i);
    }
  }

  lemma {:induction false} AscendingAtLeast(s: seq<nat>, i: nat)
    requires AscendsFrom(s, 0) && i < |s| && forall x :: x in s ==> x >= 1
    ensures s[i] >= i + 1
  {
    assert s[i] in s;
    if i > 0 {
      AscendingAtLeast(s, i - 1);
    }
  }

  lemma {:induction false} AscendingAtMost(s: seq<nat>, n: nat, i: nat)
    requires AscendsFrom(s, 0) && i < |s| && forall x :: x in s ==> x < n
    ensures s[i] <= n - (|s| - i)
    decreases |s| - i
  {
    assert s[i] in s;
    if i < |s| - 1 {
      AscendingAtMost(s, n, i + 1);
    }
  }

  // ---------------------------------------------------------------- points on a line

  /** The first point stands anywhere; the others approach the origin in unit steps and stop at 2. */
  function LineRows(first: real, n: nat): (rows: seq<seq<real>>)
    ensures |rows| == n && forall i :: 0 <= i < n ==> |rows[i]| == 1
  {
    seq(n, i requires 0 <= i < n => [if i == 0 then first else (n + 1 - i) as real])
  }

  const ORIGIN: seq<real> := [0.0]

  lemma LineDistance(first: real, n: nat, i: nat)
    requires i < n
    ensures SameWidth(LineRows(first, n), ORIGIN)
    ensures
      var x := LineRows(first, n)[i][0];
      Score(LineRows(first, n), ORIGIN, i).key == x * x
  {
    var row := LineRows(first, n)[i];
    assert SquaresUpTo(row, ORIGIN, 1) == SquaresUpTo(row, ORIGIN, 0) + Square(row[0] - 0.0);
  }

  lemma SquareLess(x: real, y: real)
    requires 0.0 <= x < y
    ensures x * x < y * y
  {
    var d, sum := y - x, y + x;
    assert d * sum > 0.0;
    assert y * y == x * x + d * sum;
  }

  /** From the second node on, each is nearer than those before it. */
  lemma LineApproaches(first: real, n: nat, i: nat, j: nat)
    requires 1 <= i < j < n
    ensures SameWidth(LineRows(first, n), ORIGIN)
    ensures Score(LineRows(first, n), ORIGIN, j).key < Score(LineRows(first, n), ORIGIN, i).key
  {
    LineDistance(first, n, i);
    LineDistance(first, n, j);
    SquareLess((n + 1 - j) as real, (n + 1 - i) as real);
  }

  /** All other nodes, in order, approach the query; they are nearer than d if the second is. */
  lemma OthersApproach(first: real, n: nat, d: real, xs: seq<nat>, from: nat)
    requires 0 < from < n && xs == Beyond(from - 1, n)
    requires SameWidth(LineRows(first, n), ORIGIN) && Score(LineRows(first, n), ORIGIN, from).key < d
    ensures AreNodes(xs, n) && Approaching(LineRows(first, n), ORIGIN, d, xs)
  {
    hide Score, SameWidth, LineRows;
    var rows := LineRows(first, n);
    forall i, j | 0 <= i < j < |xs|
      ensures Score(rows, ORIGIN, xs[j]).key < Score(rows, ORIGIN, xs[i]).key
    {
      LineApproaches(first, n, xs[i], xs[j]);
    }
    assert xs[0] == from;
  }

  // ---------------------------------------------------------------- exactly when the beam bounds the frontier

  /** Starting at the origin, with any positive beam, all other nodes wait after the first expansion: one finds room, and
      each of the others is nearer than the one before it. */
  lemma AllWaitFromOrigin(g: AcornGraph, n: nat, ef: nat)
    requires n >= 2 && ef >= 1 && IsBuilt(g, LineRows(0.0, n), n - 1)
    ensures SameWidth(LineRows(0.0, n), ORIGIN)
    ensures |AfterEntry(g, LineRows(0.0, n), ORIGIN, ef, 0)| == n - 1
  {
    hide Score, SquaredDistance, LineRows, Flatten, IsBuilt, OfferedAll, Offered;
    var rows := LineRows(0.0, n);
    LineDistance(0.0, n, 1);
    LineIsHeld(g, n);
    FirstListsOthers(g, rows);
    NeighborsAreNodes(g, rows, 0);
    var xs, b0 := g.neighbors[0], FirstBeam(rows, ORIGIN, 0).(frontier := {});
    FirstIsPushed(rows, ef, b0, xs);
    var d, rest := Score(rows, ORIGIN, 1).key, xs[1..];
    var b1 := Offered(rows, ORIGIN, ef, b0, 1);
    if n > 2 {
      LineApproaches(0.0, n, 1, 2);
      assert rest == Beyond(1, n);
      OthersApproach(0.0, n, d, rest, 2);
    }
    ApproachingAllPushed(rows, ORIGIN, ef, b1, d, rest);
    assert ToSet(xs) == {1} + ToSet(rest);
    OthersAreMany(xs, n);
  }

  lemma LineIsHeld(g: AcornGraph, n: nat)
    requires n >= 1 && IsBuilt(g, LineRows(0.0, n), n - 1)
    ensures g.Holds(LineRows(0.0, n))
  {
  }

  lemma OthersAreMany(xs: seq<nat>, n: nat)
    requires n >= 1 && xs == Beyond(0, n)
    ensures |ToSet(xs)| == n - 1
  {
    assert Enumerates(xs, ToSet(xs));
    EnumeratesCardinality(xs, ToSet(xs));
  }

  /** The first node offered to an empty frontier finds room. */
  lemma FirstIsPushed(rows: seq<seq<real>>, ef: nat, b: Beam, xs: seq<nat>)
    requires SameWidth(rows, ORIGIN) && AreNodes(xs, |rows|) && xs != [] && ef > 0
    requires b.frontier == {} && xs[0] !in b.seen
    ensures
      var b1 := Offered(rows, ORIGIN, ef, b, xs[0]);
      && AreNodes(xs[1..], |rows|)
      && OfferedAll(rows, ORIGIN, ef, b, xs) == OfferedAll(rows, ORIGIN, ef, b1, xs[1..])
      && b1.frontier == {xs[0]} && b1.seen == b.seen + {xs[0]}
      && OrdF32(Score(rows, ORIGIN, xs[0]).key) in b1.farthest
  {
    hide Score;
    OfferedFirst(rows, ef, b, xs);
  }

  lemma {:induction false} OfferedFirst(rows: seq<seq<real>>, ef: nat, b: Beam, xs: seq<nat>)
    requires SameWidth(rows, ORIGIN) && AreNodes(xs, |rows|) && xs != []
    ensures AreNodes(xs[1..], |rows|)
    ensures
      OfferedAll(rows, ORIGIN, ef, b, xs)
      == OfferedAll(rows, ORIGIN, ef, Offered(rows, ORIGIN, ef, b, xs[0]), xs[1..])
  {
    hide Offered;
    var n := |xs| - 1;
    if n == 0 {
      assert xs[..0] == [];
    } else {
      OfferedFirst(rows, ef, b, xs[..n]);
      assert xs[..n][1..] == xs[1..][..n - 1];
    }
  }

  /** Whatever graph of n nodes is searched, from wherever, no more than ef nodes wait after the first expansion. */
  ghost predicate BoundsAll(n: nat, ef: nat) {
    forall g: AcornGraph, rows, query, entry: nat ::
      |rows| == n && g.Holds(rows) && SameWidth(rows, query) && entry < n ==>
        |AfterEntry(g, rows, query, ef, entry)| <= ef
  }

  /** The same for the graphs that build yields and for searches that start where a search starts. */
  ghost predicate BoundsBuilt(n: nat, ef: nat, probes: nat)
    requires probes > 0
  {
    forall g: AcornGraph, rows, query, budget, entry: nat ::
      |rows| == n && IsBuilt(g, rows, budget) && SameWidth(rows, query)
      && IsBestProbe(rows, query, probes, entry) ==>
        |AfterEntry(g, rows, query, ef, entry)| <= ef
  }

  /** A beam bounds the nodes that wait if and only if there are no more than one node besides; for built graphs and true
      entries just as for all graphs and all entries. */
  lemma BeamBoundsFrontierExactlyWhen(n: nat, ef: nat, probes: nat)
    requires n >= 2 && ef >= 1 && probes > 0
    ensures BoundsAll(n, ef) <==> ef >= n - 1
    ensures BoundsBuilt(n, ef, probes) <==> ef >= n - 1
  {
    hide BoundsAll, BoundsBuilt;
    if ef >= n - 1 {
      WideBeamBounds(n, ef, probes);
    } else {
      NarrowBeamDoesNot(n, ef, probes);
    }
  }

  lemma NarrowBeamDoesNot(n: nat, ef: nat, probes: nat)
    requires 1 <= ef < n - 1 && probes > 0
    ensures !BoundsAll(n, ef) && !BoundsBuilt(n, ef, probes)
  {
    hide Score, LineRows, Flatten, IsBuilt, IsBestProbe, AfterEntry, SameWidth, CompleteGraph;
    var rows := LineRows(0.0, n);
    var g := CompleteGraph(rows);
    CompleteIsBuilt(rows);
    LineIsHeld(g, n);
    AllWaitFromOrigin(g, n, ef);
    OriginIsBestProbe(n, probes);
  }

  lemma WideBeamBounds(n: nat, ef: nat, probes: nat)
    requires ef + 1 >= n && probes > 0
    ensures BoundsAll(n, ef) && BoundsBuilt(n, ef, probes)
  {
    hide Score, AfterEntry, SameWidth;
    forall g: AcornGraph, rows, query, entry: nat | |rows| == n && g.Holds(rows) && SameWidth(rows, query) && entry < n
      ensures |AfterEntry(g, rows, query, ef, entry)| <= ef
    {
      FewerThanAllWait(g, rows, query, ef, entry);
    }
  }

  lemma FewerThanAllWait(g: AcornGraph, rows: seq<seq<real>>, query: seq<real>, ef: nat, entry: nat)
    requires g.Holds(rows) && SameWidth(rows, query) && entry < |rows|
    ensures |AfterEntry(g, rows, query, ef, entry)| <= |rows| - 1
  {
    hide Reach, SquaredDistance, Flatten, OfferedAll, Scored, SameWidth;
    ReachRefl(Links(g), entry);
    NeighborsAreNodes(g, rows, entry);
    var b0 := FirstBeam(rows, query, entry).(frontier := {});
    OfferedKeepsFrontier(g, rows, query, ef, entry, {entry}, b0, entry, g.neighbors[entry]);
    FrontierFits(rows, query, {entry}, AfterEntry(g, rows, query, ef, entry));
  }

  lemma OriginIsBestProbe(n: nat, probes: nat)
    requires n >= 1 && probes > 0
    ensures SameWidth(LineRows(0.0, n), ORIGIN) && IsBestProbe(LineRows(0.0, n), ORIGIN, probes, 0)
  {
    hide Score, Probe, SameWidth;
    var rows := LineRows(0.0, n);
    LineDistance(0.0, n, 0);
    assert Probe(0, n, probes) == 0 by {
      FirstProbe(n, probes);
    }
    forall i | 0 <= i < probes
      ensures Probe(i, n, probes) < n
      ensures Score(rows, ORIGIN, 0).key <= Score(rows, ORIGIN, Probe(i, n, probes)).key
    {
      ProbeInRange(i, n, probes);
      LineDistance(0.0, n, Probe(i, n, probes));
      SquareNotNegative(rows[Probe(i, n, probes)][0]);
    }
  }

  lemma FirstProbe(n: nat, probes: nat)
    requires probes > 0
    ensures Probe(0, n, probes) == 0
  {
  }

  lemma SquareNotNegative(x: real)
    ensures x * x >= 0.0
  {
  }
}
