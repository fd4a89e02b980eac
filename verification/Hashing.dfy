/** The consistent hash ring: which nodes serve a key, in which order, and how little that changes when a node joins or
    leaves. The hash function is a parameter. */
module Hashing {
  import opened Bytes
  import opened Collections

  datatype NodeId = NodeId(text: string)

  datatype Point = Point(hash: u64, node: NodeId)

  /** The ring's map from hashes to nodes, in ascending order of hashes. */
  type Ring = seq<Point>

  predicate Ascending(ring: Ring) {
    forall i, j :: 0 <= i < j < |ring| ==> ring[i].hash < ring[j].hash
  }

  /** A second insertion under a hash takes the place of the first. */
  function Inserted(ring: Ring, p: Point): Ring {
    if ring == [] || p.hash < ring[0].hash then [p] + ring
    else if p.hash == ring[0].hash then [p] + ring[1..]
    else [ring[0]] + Inserted(ring[1..], p)
  }

  function Joined(ring: Ring, node: NodeId, hashes: seq<u64>): Ring {
    if hashes == [] then ring
    else Inserted(Joined(ring, node, hashes[..|hashes| - 1]), Point(hashes[|hashes| - 1], node))
  }

  function Left(ring: Ring, node: NodeId): Ring {
    if ring == [] then []
    else (if ring[0].node == node then [] else [ring[0]]) + Left(ring[1..], node)
  }

  // ---------------------------------------------------------------- walking the ring

  function From(ring: Ring, hash: u64): Ring {
    if ring == [] then []
    else (if ring[0].hash >= hash then [ring[0]] else []) + From(ring[1..], hash)
  }

  function Owners(ring: Ring): (nodes: seq<NodeId>)
    ensures |nodes| == |ring|
  {
    seq(|ring|, i requires 0 <= i < |ring| => ring[i].node)
  }

  /** The points visited from a hash onwards: those at or after it, then all of them from the start. */
  function Walk(ring: Ring, hash: u64): Ring {
    From(ring, hash) + ring
  }

  /** First occurrences only. */
  function Dedup<T(==)>(s: seq<T>): seq<T> {
    if s == [] then []
    else
      var d, x := Dedup(s[..|s| - 1]), s[|s| - 1];
      if x in d then d else d + [x]
  }

  /** All nodes in the order in which they are met. */
  function Preference(ring: Ring, hash: u64): seq<NodeId> {
    Dedup(Owners(Walk(ring, hash)))
  }

  function AtLeastOne(count: nat): nat {
    if count == 0 then 1 else count
  }

  /** The nodes for a key; a count of zero still gives one. */
  function NodesFor(ring: Ring, hash: u64, count: nat): seq<NodeId> {
    Take(Preference(ring, hash), AtLeastOne(count))
  }

  function NodeSet(ring: Ring): set<NodeId> {
    set i | 0 <= i < |ring| :: ring[i].node
  }

  // ---------------------------------------------------------------- first occurrences

  lemma {:induction false} DedupEnumerates<T(!new)>(s: seq<T>)
    ensures Enumerates(Dedup(s), ToSet(s))
  {
    if s != [] {
      var init, x := s[..|s| - 1], s[|s| - 1];
      assert s == init + [x];
      DedupEnumerates(init);
      assert ToSet(s) == ToSet(init) + {x};
      if x !in Dedup(init) {
        EnumeratesAppend(Dedup(init), ToSet(init), x);
      } else {
        assert ToSet(s) == ToSet(init);
      }
    }
  }

  lemma {:induction false} WithoutConcat<T>(a: seq<T>, b: seq<T>, x: T)
    ensures Without(a + b, x) == Without(a, x) + Without(b, x)
  {
    if b == [] {
      assert a + b == a;
    } else {
      assert (a + b)[..|a + b| - 1] == a + b[..|b| - 1];
      WithoutConcat(a, b[..|b| - 1], x);
    }
  }

  lemma {:induction false} DedupWithout<T(!new)>(s: seq<T>, x: T)
    ensures Dedup(Without(s, x)) == Without(Dedup(s), x)
  {
    if s != [] {
      var init, y := s[..|s| - 1], s[|s| - 1];
      DedupWithout(init, x);
      WithoutMembers(Dedup(init), x);
      var d := Dedup(init);
      if y !in d {
        assert (d + [y])[..|d|] == d;
      }
      var u := Without(init, x);
      assert u + [] == u;
      assert (u + [y])[..|u|] == u;
      assert Without(s, x) == if y == x then u else u + [y];
      assert Without(d + [y], x) == Without(d, x) + if y == x then [] else [y] by {
        assert (d + [y])[..|d|] == d;
      }
    }
  }

  /** Whoever comes earlier among the first occurrences was met before the other. */
  lemma {:induction false} DedupOrder<T(!new)>(s: seq<T>, i: nat, j: nat) returns (p: nat)
    requires i < j < |Dedup(s)|
    ensures p < |s| && s[p] == Dedup(s)[i] && Dedup(s)[j] !in s[..p + 1]
  {
    var init, x := s[..|s| - 1], s[|s| - 1];
    DedupEnumerates(init);
    if j < |Dedup(init)| {
      p := DedupOrder(init, i, j);
      assert s[..p + 1] == init[..p + 1];
    } else {
      assert Dedup(s)[i] in ToSet(init);
      p :| 0 <= p < |init| && init[p] == Dedup(s)[i];
      assert x !in init;
    }
  }

  // ---------------------------------------------------------------- how many, and which

  lemma WalkNodes(ring: Ring, hash: u64)
    ensures ToSet(Owners(Walk(ring, hash))) == NodeSet(ring)
  {
    FromMembers(ring, hash);
    var w := Walk(ring, hash);
    forall node | node in ToSet(Owners(w))
      ensures node in NodeSet(ring)
    {
      var i :| 0 <= i < |w| && Owners(w)[i] == node;
      assert w[i] in ring;
    }
    forall node | node in NodeSet(ring)
      ensures node in ToSet(Owners(w))
    {
      var i :| 0 <= i < |ring| && ring[i].node == node;
      assert w[|From(ring, hash)| + i] == ring[i];
      assert Owners(w)[|From(ring, hash)| + i] == node;
    }
  }

  lemma {:induction false} FromMembers(ring: Ring, hash: u64)
    ensures forall p :: p in From(ring, hash) <==> p in ring && p.hash >= hash
  {
    if ring != [] {
      FromMembers(ring[1..], hash);
      assert ring == [ring[0]] + ring[1..];
    }
  }

  /** A key's nodes are different from each other, are nodes with points on the ring, and are as many as were asked for,
      at least one, unless the ring has fewer. */
  lemma NodesForAreDistinct(ring: Ring, hash: u64, count: nat)
    ensures
      var nodes := NodesFor(ring, hash, count);
      && (forall i, j :: 0 <= i < j < |nodes| ==> nodes[i] != nodes[j])
      && (forall node :: node in nodes ==> node in NodeSet(ring))
      && var wanted := if count == 0 then 1 else count;
         |nodes| == if |NodeSet(ring)| <= wanted then |NodeSet(ring)| else wanted
  {
    var d := Preference(ring, hash);
    DedupEnumerates(Owners(Walk(ring, hash)));
    WalkNodes(ring, hash);
    EnumeratesCardinality(d, NodeSet(ring));
  }

  // ---------------------------------------------------------------- order by distance

  /** How far clockwise a point is. */
  function Distance(hash: u64, p: Point): u64 {
    if p.hash >= hash then p.hash - hash else p.hash - hash + 0x1_0000_0000_0000_0000
  }

  predicate NearerThanAny(ring: Ring, hash: u64, a: Point, node: NodeId) {
    forall b :: b in ring && b.node == node ==> Distance(hash, a) < Distance(hash, b)
  }

  /** The points at or after a hash are those from some index on. */
  lemma {:induction false} FromCut(ring: Ring, hash: u64) returns (cut: nat)
    requires Ascending(ring)
    ensures cut <= |ring| && From(ring, hash) == ring[cut..]
    ensures forall i :: 0 <= i < |ring| ==> (ring[i].hash >= hash <==> i >= cut)
  {
    cut := 0;
    if ring != [] {
      AscendingUncons(ring);
      HeadAndTail(ring);
      hide Ascending;
      if ring[0].hash >= hash {
        AllFrom(ring, hash);
      } else {
        var c := FromCut(ring[1..], hash);
        cut := c + 1;
        OneBefore(ring, hash, c);
      }
    }
  }

  lemma OneBefore(ring: Ring, hash: u64, c: nat)
    requires ring != [] && ring[0].hash < hash && c <= |ring[1..]| && From(ring[1..], hash) == ring[1..][c..]
    requires forall i :: 0 <= i < |ring[1..]| ==> (ring[1..][i].hash >= hash <==> i >= c)
    ensures From(ring, hash) == ring[c + 1..]
    ensures forall i :: 0 <= i < |ring| ==> (ring[i].hash >= hash <==> i >= c + 1)
  {
    assert forall i :: 0 < i < |ring| ==> ring[i] == ring[1..][i - 1];
  }

  lemma {:induction false} AllFrom(ring: Ring, hash: u64)
    requires forall p :: p in ring ==> p.hash >= hash
    ensures From(ring, hash) == ring
  {
    if ring != [] {
      HeadAndTail(ring);
      AllFrom(ring[1..], hash);
    }
  }

  /** A point first met at position p of the walk is nearer than every point only met later. */
  lemma MetBefore(ring: Ring, hash: u64, p: nat, b: Point)
    requires Ascending(ring) && p < |Walk(ring, hash)| && b in ring
    requires forall q :: 0 <= q <= p ==> Walk(ring, hash)[q] != b
    ensures Walk(ring, hash)[p] in ring && Distance(hash, Walk(ring, hash)[p]) < Distance(hash, b)
  {
    hide Ascending, From, Distance;
    var cut := FromCut(ring, hash);
    MetBeforeAt(ring, hash, cut, p, b);
  }

  lemma MetBeforeAt(ring: Ring, hash: u64, cut: nat, p: nat, b: Point)
    requires Ascending(ring) && cut <= |ring| && b in ring
    requires forall i :: 0 <= i < |ring| ==> (ring[i].hash >= hash <==> i >= cut)
    requires p < |ring[cut..] + ring| && forall q :: 0 <= q <= p ==> (ring[cut..] + ring)[q] != b
    ensures (ring[cut..] + ring)[p] in ring && Distance(hash, (ring[cut..] + ring)[p]) < Distance(hash, b)
  {
    hide Ascending;
    var w, n := ring[cut..] + ring, |ring| - cut;
    var i :| 0 <= i < |ring| && ring[i] == b;
    assert w[n + i] == b;
    assert i >= cut ==> w[i - cut] == b;
    var a := if p < n then cut + p else p - n;
    assert w[p] == ring[a];
    InOrder(ring, a, i);
  }

  lemma InOrder(ring: Ring, i: nat, j: nat)
    requires Ascending(ring) && i < |ring| && j < |ring|
    ensures i < j ==> ring[i].hash < ring[j].hash
    ensures j < i ==> ring[j].hash < ring[i].hash
  {
  }

  /** Nodes are preferred by the clockwise distance of their nearest point: each has a point nearer than every point of
      every node after it. */
  lemma PreferenceIsByDistance(ring: Ring, hash: u64, i: nat, j: nat) returns (a: Point)
    requires Ascending(ring) && i < j < |Preference(ring, hash)|
    ensures a in ring && a.node == Preference(ring, hash)[i]
    ensures NearerThanAny(ring, hash, a, Preference(ring, hash)[j])
  {
    var w := Walk(ring, hash);
    var late := Preference(ring, hash)[j];
    var p := DedupOrder(Owners(w), i, j);
    a := w[p];
    FromMembers(ring, hash);
    hide Dedup, Distance, Ascending, From;
    forall b | b in ring && b.node == late
      ensures Distance(hash, a) < Distance(hash, b)
    {
      NotAmong(w, p, b);
      MetBefore(ring, hash, p, b);
    }
  }

  lemma NotAmong(w: Ring, p: nat, b: Point)
    requires p < |w| && b.node !in Owners(w)[..p + 1]
    ensures forall q :: 0 <= q <= p ==> w[q] != b
  {
    assert forall q :: 0 <= q <= p ==> Owners(w)[..p + 1][q] == w[q].node;
  }

  // ---------------------------------------------------------------- a node leaves

  lemma {:induction false} LeftOwners(ring: Ring, node: NodeId)
    ensures Owners(Left(ring, node)) == Without(Owners(ring), node)
  {
    if ring != [] {
      var rest := ring[1..];
      LeftOwners(rest, node);
      assert Owners(ring) == [ring[0].node] + Owners(rest);
      WithoutConcat([ring[0].node], Owners(rest), node);
      assert Without([ring[0].node], node) == if ring[0].node == node then [] else [ring[0].node];
    }
  }

  lemma {:induction false} LeftFrom(ring: Ring, node: NodeId, hash: u64)
    ensures From(Left(ring, node), hash) == Left(From(ring, hash), node)
  {
    if ring != [] {
      var rest := ring[1..];
      LeftFrom(rest, node, hash);
      assert [] + Left(rest, node) == Left(rest, node) && [] + From(rest, hash) == From(rest, hash);
      assert [ring[0]] + [] == [ring[0]];
      assert ([ring[0]] + From(rest, hash))[1..] == From(rest, hash);
      assert ([ring[0]] + Left(rest, node))[1..] == Left(rest, node);
    }
  }

  lemma {:induction false} LeftConcat(a: Ring, b: Ring, node: NodeId)
    ensures Left(a + b, node) == Left(a, node) + Left(b, node)
  {
    if a == [] {
      assert a + b == b;
    } else {
      assert (a + b)[1..] == a[1..] + b;
      LeftConcat(a[1..], b, node);
    }
  }

  /** When a node leaves, every key's preference list loses that node and is otherwise the same. */
  lemma LeavingOnlyDeletes(ring: Ring, node: NodeId, hash: u64)
    ensures Preference(Left(ring, node), hash) == Without(Preference(ring, hash), node)
  {
    hide Dedup, Owners;
    LeftFrom(ring, node, hash);
    LeftConcat(From(ring, hash), ring, node);
    LeftOwners(Walk(ring, hash), node);
    DedupWithout(Owners(Walk(ring, hash)), node);
  }

  lemma {:induction false} TakeWithout<T(!new)>(s: seq<T>, x: T, k: nat)
    requires x !in Take(s, k)
    ensures Take(Without(s, x), k) == Take(s, k)
  {
    if |s| <= k {
      WithoutMembers(s, x);
    } else {
      assert s == s[..k] + s[k..];
      WithoutConcat(s[..k], s[k..], x);
      WithoutMembers(s[..k], x);
    }
  }

  /** The keys whose nodes change are exactly those that the leaving node served. */
  lemma LeavingChangesExactly(ring: Ring, node: NodeId, hash: u64, count: nat)
    ensures NodesFor(Left(ring, node), hash, count) == Take(Without(Preference(ring, hash), node), AtLeastOne(count))
    ensures NodesFor(Left(ring, node), hash, count) == NodesFor(ring, hash, count) <==> node !in NodesFor(ring, hash, count)
  {
    LeavingOnlyDeletes(ring, node, hash);
    WithoutMembers(Preference(ring, hash), node);
    if node !in NodesFor(ring, hash, count) {
      TakeWithout(Preference(ring, hash), node, AtLeastOne(count));
    }
  }

  // ---------------------------------------------------------------- a node joins

  lemma {:induction false} InsertedMembers(ring: Ring, p: Point)
    requires Ascending(ring)
    ensures forall q :: q in Inserted(ring, p) <==> q == p || (q in ring && q.hash != p.hash)
  {
    if ring != [] {
      assert ring == [ring[0]] + ring[1..];
      if p.hash > ring[0].hash {
        InsertedMembers(ring[1..], p);
      }
    }
  }

  lemma AscendingCons(x: Point, ring: Ring)
    requires Ascending(ring) && forall q :: q in ring ==> x.hash < q.hash
    ensures Ascending([x] + ring)
  {
  }

  lemma AscendingUncons(ring: Ring)
    requires Ascending(ring) && ring != []
    ensures Ascending(ring[1..]) && forall q :: q in ring[1..] ==> ring[0].hash < q.hash
  {
  }

  lemma {:induction false} InsertedAscends(ring: Ring, p: Point)
    requires Ascending(ring)
    ensures Ascending(Inserted(ring, p))
  {
    if ring != [] {
      AscendingUncons(ring);
      var rest := ring[1..];
      assert ring == [ring[0]] + rest;
      if p.hash < ring[0].hash {
        AscendingCons(p, ring);
      } else if p.hash == ring[0].hash {
        AscendingCons(p, rest);
      } else {
        InsertedAscends(rest, p);
        InsertedMembers(rest, p);
        AscendingCons(ring[0], Inserted(rest, p));
      }
    }
  }

  lemma {:induction false} JoinedAscends(ring: Ring, node: NodeId, hashes: seq<u64>)
    requires Ascending(ring)
    ensures Ascending(Joined(ring, node, hashes))
    ensures forall q :: q in Joined(ring, node, hashes) <==>
      (q.node == node && q.hash in hashes) || (q in ring && q.hash !in hashes)
  {
    if hashes != [] {
      var init, h := hashes[..|hashes| - 1], hashes[|hashes| - 1];
      assert hashes == init + [h];
      JoinedAscends(ring, node, init);
      InsertedAscends(Joined(ring, node, init), Point(h, node));
      InsertedMembers(Joined(ring, node, init), Point(h, node));
    }
  }

  lemma {:induction false} LeftAscends(ring: Ring, node: NodeId)
    requires Ascending(ring)
    ensures Ascending(Left(ring, node))
    ensures forall q :: q in Left(ring, node) <==> q in ring && q.node != node
  {
    if ring != [] {
      AscendingUncons(ring);
      assert ring == [ring[0]] + ring[1..];
      LeftAscends(ring[1..], node);
      AscendingCons(ring[0], Left(ring[1..], node));
    }
  }

  /** Ascending rings with the same points are the same. */
  lemma {:induction false} SamePoints(a: Ring, b: Ring)
    requires Ascending(a) && Ascending(b) && forall p :: p in a <==> p in b
    ensures a == b
  {
    assert forall i :: 0 <= i < |a| ==> a[i] in b;
    assert forall i :: 0 <= i < |b| ==> b[i] in a;
    if a != [] && b != [] {
      HeadIsFirst(a, b[0]);
      HeadIsFirst(b, a[0]);
      AscendingUncons(a);
      AscendingUncons(b);
      hide Ascending;
      forall p
        ensures p in a[1..] <==> p in b[1..]
      {
        PointsOfTail(a, p);
        PointsOfTail(b, p);
      }
      SamePoints(a[1..], b[1..]);
      HeadAndTail(a);
      HeadAndTail(b);
    }
  }

  lemma HeadIsFirst(a: Ring, p: Point)
    requires Ascending(a) && p in a
    ensures p == a[0] || a[0].hash < p.hash
  {
  }

  lemma PointsOfTail(a: Ring, p: Point)
    requires Ascending(a) && a != []
    ensures p in a[1..] <==> p in a && p != a[0]
  {
    assert a == [a[0]] + a[1..];
  }

  /** Leaving undoes joining if and only if none of the hashes of the node that joined was taken. */
  lemma LeavingUndoesJoiningExactlyWhen(ring: Ring, node: NodeId, hashes: seq<u64>)
    requires Ascending(ring) && node !in NodeSet(ring)
    ensures Left(Joined(ring, node, hashes), node) == ring <==> forall p :: p in ring ==> p.hash !in hashes
  {
    var there := Joined(ring, node, hashes);
    var back := Left(there, node);
    JoinedAscends(ring, node, hashes);
    LeftAscends(there, node);
    assert forall p :: p in ring ==> p.node in NodeSet(ring);
    if forall p :: p in ring ==> p.hash !in hashes {
      SamePoints(back, ring);
    }
  }

  /** If no hash was taken, every key's preference list gains the new node and is otherwise the same. */
  lemma JoiningOnlyAdds(ring: Ring, node: NodeId, hashes: seq<u64>, hash: u64)
    requires Ascending(ring) && node !in NodeSet(ring) && forall p :: p in ring ==> p.hash !in hashes
    ensures Without(Preference(Joined(ring, node, hashes), hash), node) == Preference(ring, hash)
  {
    hide Preference, Joined, Left;
    LeavingUndoesJoiningExactlyWhen(ring, node, hashes);
    LeavingOnlyDeletes(Joined(ring, node, hashes), node, hash);
  }

  /** The point nearest to a hash. */
  predicate Nearest(ring: Ring, hash: u64, a: Point) {
    a in ring && forall b :: b in ring ==> Distance(hash, a) <= Distance(hash, b)
  }

  lemma PrimaryIsNearest(ring: Ring, hash: u64)
    requires Ascending(ring) && ring != []
    ensures Nearest(ring, hash, Walk(ring, hash)[0])
    ensures Preference(ring, hash) != [] && Preference(ring, hash)[0] == Walk(ring, hash)[0].node
  {
    var w := Walk(ring, hash);
    var cut := FromCut(ring, hash);
    hide From, Dedup;
    forall b | b in ring
      ensures Distance(hash, w[0]) <= Distance(hash, b)
    {
      var q :| 0 <= q < |ring| && ring[q] == b;
      assert w[0] == ring[if cut < |ring| then cut else 0];
    }
    DedupFirst(Owners(w));
  }

  lemma {:induction false} DedupFirst<T(!new)>(s: seq<T>)
    requires s != []
    ensures Dedup(s) != [] && Dedup(s)[0] == s[0]
  {
    if |s| > 1 {
      DedupFirst(s[..|s| - 1]);
    }
  }

  /** When a node joins, whatever hashes it takes, a key's primary stays or becomes the new node. */
  lemma JoiningMovesOnlyToNewcomer(ring: Ring, node: NodeId, hashes: seq<u64>, hash: u64)
    requires Ascending(ring) && ring != [] && hashes != []
    ensures
      var ring' := Joined(ring, node, hashes);
      Preference(ring', hash) != []
      && (Preference(ring', hash)[0] == Preference(ring, hash)[0] || Preference(ring', hash)[0] == node)
  {
    var ring' := Joined(ring, node, hashes);
    JoinedAscends(ring, node, hashes);
    assert Point(hashes[0], node) in ring';
    PrimaryIsNearest(ring, hash);
    PrimaryIsNearest(ring', hash);
    hide Walk, Preference, Joined;
    var a, a' := Walk(ring, hash)[0], Walk(ring', hash)[0];
    if a'.node != node {
      assert a' in ring;
      assert a.hash in hashes ==> Point(a.hash, node) in ring';
      assert Distance(hash, a) == Distance(hash, a');
      SameDistance(hash, a, a');
      assert exists i :: 0 <= i < |ring| && ring[i] == a;
    }
  }

  lemma SameDistance(hash: u64, a: Point, b: Point)
    requires Distance(hash, a) == Distance(hash, b)
    ensures a.hash == b.hash
  {
  }
}
