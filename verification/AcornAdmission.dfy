/** Exactly which neighbours of the entry wait after it has been expanded: the mirror heap keeps the distances of the ef + 1
    nearest nodes met so far, and a neighbour is pushed if it is nearer than the farthest of them. */
module AcornAdmission {
  import opened Acorn
  import opened AcornSearch
  import opened Collections
  import opened Nearest
  import opened Sorting

  // ---------------------------------------------------------------- multisets of keys

  /** The members of keys at the given places below n. */
  ghost function At(keys: seq<real>, places: set<nat>, n: nat): multiset<OrdF32>
    requires n <= |keys|
  {
    if n == 0 then multiset{}
    else At(keys, places, n - 1) + AtOne(keys, places, n - 1)
  }

  function AtOne(keys: seq<real>, places: set<nat>, i: nat): multiset<OrdF32>
    requires i < |keys|
  {
    if i in places then multiset{OrdF32(keys[i])} else multiset{}
  }

  lemma {:induction false} AtMembers(keys: seq<real>, places: set<nat>, n: nat)
    requires n <= |keys|
    ensures forall v :: v in At(keys, places, n) <==> exists i :: 0 <= i < n && i in places && v.value == keys[i]
  {
    if n > 0 {
      AtMembers(keys, places, n - 1);
      forall v | v in At(keys, places, n)
        ensures exists i :: 0 <= i < n && i in places && v.value == keys[i]
      {
        if v in At(keys, places, n - 1) {
          var i :| 0 <= i < n - 1 && i in places && v.value == keys[i];
          assert i < n;
        } else {
          assert n - 1 in places && v.value == keys[n - 1];
        }
      }
    }
  }

  lemma {:induction false} AtSame(keys: seq<real>, keys': seq<real>, places: set<nat>, places': set<nat>, n: nat)
    requires n <= |keys| && n <= |keys'|
    requires forall i :: 0 <= i < n ==> keys[i] == keys'[i] && (i in places <==> i in places')
    ensures At(keys, places, n) == At(keys', places', n)
  {
    if n > 0 {
      AtSame(keys, keys', places, places', n - 1);
    }
  }

  lemma AddSubtract(m: multiset<OrdF32>, v: OrdF32)
    ensures m + multiset{v} - multiset{v} == m
    ensures v in m + multiset{v}
  {
  }

  lemma AddSwap(x: multiset<OrdF32>, p: multiset<OrdF32>, l: multiset<OrdF32>, f: multiset<OrdF32>, v: multiset<OrdF32>,
                y: multiset<OrdF32>)
    requires x == p + l && p == f + v && y == f + l
    ensures x == y + v
  {
  }

  lemma AddNone(x: multiset<OrdF32>, p: multiset<OrdF32>)
    requires x == p + multiset{}
    ensures x == p
  {
  }

  lemma {:induction false} AtWithout(keys: seq<real>, places: set<nat>, n: nat, i: nat)
    requires i < n <= |keys| && i in places
    ensures At(keys, places, n) == At(keys, places - {i}, n) + AtOne(keys, places, i)
  {
    if i < n - 1 {
      AtWithout(keys, places, n - 1, i);
      AtWithoutEarlier(keys, places, n, i);
    } else {
      AtWithoutLast(keys, places, n);
    }
  }

  lemma AtWithoutEarlier(keys: seq<real>, places: set<nat>, n: nat, i: nat)
    requires i + 1 < n <= |keys| && i in places
    requires At(keys, places, n - 1) == At(keys, places - {i}, n - 1) + AtOne(keys, places, i)
    ensures At(keys, places, n) == At(keys, places - {i}, n) + AtOne(keys, places, i)
  {
    var fewer, last := places - {i}, AtOne(keys, places, n - 1);
    AtUnfolds(keys, places, n);
    AtUnfolds(keys, fewer, n);
    assert AtOne(keys, fewer, n - 1) == last;
    hide *;
    AddSwap(At(keys, places, n), At(keys, places, n - 1), last, At(keys, fewer, n - 1), AtOne(keys, places, i),
            At(keys, fewer, n));
  }

  lemma AtWithoutLast(keys: seq<real>, places: set<nat>, n: nat)
    requires 0 < n <= |keys| && n - 1 in places
    ensures At(keys, places, n) == At(keys, places - {n - 1}, n) + AtOne(keys, places, n - 1)
  {
    var fewer := places - {n - 1};
    AtUnfolds(keys, places, n);
    AtUnfolds(keys, fewer, n);
    AtSame(keys, keys, fewer, places, n - 1);
    assert AtOne(keys, fewer, n - 1) == multiset{};
    hide *;
    AddNone(At(keys, fewer, n), At(keys, fewer, n - 1));
  }

  lemma AtUnfolds(keys: seq<real>, places: set<nat>, n: nat)
    requires 0 < n <= |keys|
    ensures At(keys, places, n) == At(keys, places, n - 1) + AtOne(keys, places, n - 1)
  {
  }

  /** The members before the n-th that are no greater. */
  ghost function NoGreater(keys: seq<real>, n: nat): set<nat>
    requires n < |keys|
  {
    set i: nat | i < n && keys[i] <= keys[n]
  }

  /** The places of the smallest of the first n keys. */
  ghost predicate Smallest(keys: seq<real>, places: set<nat>, n: nat, size: nat)
    requires n <= |keys|
  {
    && places <= Passing(n, Anything) && |places| == size
    && forall i, j :: i in places && 0 <= j < n && j !in places ==> keys[i] <= keys[j]
  }

  /** The next key is below the greatest of the size smallest exactly when fewer than size are no greater than it. */
  lemma BelowGreatestExactlyWhen(keys: seq<real>, places: set<nat>, n: nat, size: nat)
    requires n < |keys| && size > 0 && Smallest(keys, places, n, size)
    ensures |At(keys, places, n)| > 0
    ensures keys[n] < Greatest(At(keys, places, n)).value <==> |NoGreater(keys, n)| < size
    ensures exists g :: g in places && Greatest(At(keys, places, n)) == OrdF32(keys[g])
                        && forall i :: i in places ==> keys[i] <= keys[g]
  {
    AtMembers(keys, places, n);
    var some :| some in places;
    assert OrdF32(keys[some]) in At(keys, places, n);
    var top := Greatest(At(keys, places, n));
    var g :| 0 <= g < n && g in places && top.value == keys[g];
    forall i | i in places
      ensures keys[i] <= keys[g]
    {
      assert OrdF32(keys[i]) in At(keys, places, n);
    }
    if keys[n] < keys[g] {
      SubsetCardinality(NoGreater(keys, n), places - {g});
    } else {
      SubsetCardinality(places, NoGreater(keys, n));
    }
    assert top == OrdF32(keys[g]);
  }

  /** The distances of the entry and its neighbours, in the order in which they are met. */
  ghost function MetKeys(rows: seq<seq<real>>, query: seq<real>, entry: nat, xs: seq<nat>): (keys: seq<real>)
    requires SameWidth(rows, query) && entry < |rows| && AreNodes(xs, |rows|)
    ensures |keys| == |xs| + 1
  {
    seq(|xs| + 1, i requires 0 <= i < |xs| + 1 => Score(rows, query, if i == 0 then entry else xs[i - 1]).key)
  }

  /** The members of xs before the m-th that were pushed. */
  ghost function Pushed(keys: seq<real>, ef: nat, xs: seq<nat>, m: nat): set<nat>
    requires m <= |xs| < |keys|
  {
    set i | 0 <= i < m && |NoGreater(keys, i + 1)| <= ef :: xs[i]
  }

  ghost predicate Mirrors(keys: seq<real>, ef: nat, m: nat, farthest: multiset<OrdF32>, places: set<nat>)
    requires m < |keys|
  {
    Smallest(keys, places, m + 1, if m < ef then m + 1 else ef + 1) && farthest == At(keys, places, m + 1)
  }

  lemma PushedFirst(keys: seq<real>, ef: nat, xs: seq<nat>, m: nat)
    requires m <= |xs| < |keys| && Distinct(xs)
    ensures m <= ef ==> Pushed(keys, ef, xs, m) == ToSet(xs[..m]) && |Pushed(keys, ef, xs, m)| == m
    ensures m >= ef ==> |Pushed(keys, ef, xs, m)| >= ef
  {
    var least := if m <= ef then m else ef;
    assert Distinct(xs[..least]);
    assert Enumerates(xs[..least], ToSet(xs[..least]));
    EnumeratesCardinality(xs[..least], ToSet(xs[..least]));
    forall x | x in ToSet(xs[..least])
      ensures x in Pushed(keys, ef, xs, m)
    {
      var i :| 0 <= i < least && xs[i] == x;
      NoGreaterAtMost(keys, i + 1);
    }
    SubsetCardinality(ToSet(xs[..least]), Pushed(keys, ef, xs, m));
  }

  lemma PushedOneMore(keys: seq<real>, ef: nat, xs: seq<nat>, m: nat)
    requires m < |xs| < |keys|
    ensures Pushed(keys, ef, xs, m + 1) ==
            Pushed(keys, ef, xs, m) + if |NoGreater(keys, m + 1)| <= ef then {xs[m]} else {}
  {
    hide NoGreater;
    assert forall i :: 0 <= i < m + 1 ==> i < m || xs[i] == xs[m];
  }

  // ---------------------------------------------------------------- offering the neighbours

  /** What has been pushed, marked and mirrored after m of the neighbours. */
  ghost predicate AfterOffers(keys: seq<real>, ef: nat, entry: nat, xs: seq<nat>, m: nat, b: Beam, places: set<nat>)
    requires m <= |xs| < |keys|
  {
    && b.frontier == Pushed(keys, ef, xs, m) && b.seen == {entry} + ToSet(xs[..m])
    && Mirrors(keys, ef, m, b.farthest, places)
  }

  /** While there is room everything met is mirrored. */
  lemma MirrorsAll(keys: seq<real>, ef: nat, m: nat, farthest: multiset<OrdF32>, places: set<nat>)
    requires m + 1 < |keys| && m < ef && Mirrors(keys, ef, m, farthest, places)
    ensures Mirrors(keys, ef, m + 1, farthest + multiset{OrdF32(keys[m + 1])}, places + {m + 1})
  {
    hide At;
    AllAreSmallest(keys, places, m + 1);
    AtOneMore(keys, places, places + {m + 1}, m + 1);
  }

  lemma AllAreSmallest(keys: seq<real>, places: set<nat>, n: nat)
    requires n < |keys| && Smallest(keys, places, n, n)
    ensures Smallest(keys, places + {n}, n + 1, n + 1)
  {
    BelowCardinality(n);
    if j :| j in Passing(n, Anything) && j !in places {
      SubsetCardinality(places, Passing(n, Anything) - {j});
    }
    assert places == Passing(n, Anything);
    assert |places + {n}| == n + 1;
  }

  lemma AtOneMore(keys: seq<real>, places: set<nat>, places': set<nat>, n: nat)
    requires n < |keys| && n in places' && forall i :: 0 <= i < n ==> (i in places <==> i in places')
    ensures At(keys, places', n + 1) == At(keys, places, n) + multiset{OrdF32(keys[n])}
  {
    AtSame(keys, keys, places, places', n);
  }

  lemma AtNoMore(keys: seq<real>, places: set<nat>, n: nat)
    requires n < |keys| && n !in places
    ensures At(keys, places, n + 1) == At(keys, places, n)
  {
    assert At(keys, places, n + 1) == At(keys, places, n) + multiset{};
  }

  lemma SwapsGreatest(keys: seq<real>, places: set<nat>, n: nat, size: nat, g: nat)
    requires n < |keys| && Smallest(keys, places, n, size) && g in places && forall i :: i in places ==> keys[i] <= keys[g]
    ensures keys[n] < keys[g] ==> Smallest(keys, places - {g} + {n}, n + 1, size)
    ensures keys[n] >= keys[g] ==> Smallest(keys, places, n + 1, size)
  {
    assert n !in places;
    if keys[n] < keys[g] {
      var places' := places - {g} + {n};
      assert |places'| == size;
      forall i, j | i in places' && 0 <= j < n + 1 && j !in places'
        ensures keys[i] <= keys[j]
      {
        assert keys[g] <= keys[j];
      }
    }
  }

  /** Then the farthest of the mirrored distances gives way to a smaller one. */
  lemma MirrorsNearest(keys: seq<real>, ef: nat, m: nat, farthest: multiset<OrdF32>, places: set<nat>)
    returns (places': set<nat>)
    requires m + 1 < |keys| && ef <= m && Mirrors(keys, ef, m, farthest, places)
    ensures |farthest| > 0 && (keys[m + 1] < Greatest(farthest).value <==> |NoGreater(keys, m + 1)| <= ef)
    ensures
      var nearer := keys[m + 1] < Greatest(farthest).value;
      Mirrors(keys, ef, m + 1,
              if nearer then farthest - multiset{Greatest(farthest)} + multiset{OrdF32(keys[m + 1])} else farthest, places')
  {
    hide Greatest, IsGreatest, NoGreater, At, Smallest;
    var n := m + 1;
    SmallestAreBelow(keys, places, n, ef + 1);
    BelowGreatestExactlyWhen(keys, places, n, ef + 1);
    var g :| g in places && Greatest(farthest) == OrdF32(keys[g]) && forall i :: i in places ==> keys[i] <= keys[g];
    SwapsGreatest(keys, places, n, ef + 1, g);
    if keys[n] < keys[g] {
      places' := places - {g} + {n};
      AtWithout(keys, places, n, g);
      AddSubtract(At(keys, places - {g}, n), OrdF32(keys[g]));
      AtOneMore(keys, places - {g}, places', n);
    } else {
      places' := places;
      AtNoMore(keys, places, n);
    }
  }

  lemma SmallestAreBelow(keys: seq<real>, places: set<nat>, n: nat, size: nat)
    requires n <= |keys| && Smallest(keys, places, n, size)
    ensures forall i :: i in places ==> i < n
  {
  }

  lemma OneOffer(rows: seq<seq<real>>, query: seq<real>, ef: nat, entry: nat, xs: seq<nat>, m: nat, b: Beam,
                 places: set<nat>) returns (places': set<nat>)
    requires SameWidth(rows, query) && entry < |rows| && AreNodes(xs, |rows|) && Distinct(xs) && entry !in xs && m < |xs|
    requires AfterOffers(MetKeys(rows, query, entry, xs), ef, entry, xs, m, b, places)
    ensures AfterOffers(MetKeys(rows, query, entry, xs), ef, entry, xs, m + 1, Offered(rows, query, ef, b, xs[m]), places')
  {
    hide Greatest, IsGreatest, NoGreater, SquaredDistance, SameWidth, Mirrors, Pushed;
    var keys := MetKeys(rows, query, entry, xs);
    assert keys[m + 1] == Score(rows, query, xs[m]).key;
    SeenOneMore(entry, xs, m);
    PushedFirst(keys, ef, xs, m);
    PushedOneMore(keys, ef, xs, m);
    if m < ef {
      places' := places + {m + 1};
      MirrorsAll(keys, ef, m, b.farthest, places);
      NoGreaterAtMost(keys, m + 1);
    } else {
      places' := MirrorsNearest(keys, ef, m, b.farthest, places);
    }
  }

  lemma SeenOneMore(entry: nat, xs: seq<nat>, m: nat)
    requires m < |xs| && Distinct(xs) && entry !in xs
    ensures xs[m] !in {entry} + ToSet(xs[..m])
    ensures {entry} + ToSet(xs[..m + 1]) == {entry} + ToSet(xs[..m]) + {xs[m]}
  {
  }

  lemma NoGreaterAtMost(keys: seq<real>, n: nat)
    requires n < |keys|
    ensures |NoGreater(keys, n)| <= n
  {
    BelowCardinality(n);
    SubsetCardinality(NoGreater(keys, n), Passing(n, Anything));
  }

  lemma {:induction false} AllOffers(rows: seq<seq<real>>, query: seq<real>, ef: nat, entry: nat, xs: seq<nat>, m: nat,
                                     b: Beam) returns (places: set<nat>)
    requires SameWidth(rows, query) && entry < |rows| && AreNodes(xs, |rows|) && Distinct(xs) && entry !in xs && m <= |xs|
    requires b == FirstBeam(rows, query, entry).(frontier := {})
    ensures AfterOffers(MetKeys(rows, query, entry, xs), ef, entry, xs, m, OfferedAll(rows, query, ef, b, xs[..m]), places)
  {
    hide SquaredDistance, SameWidth, AfterOffers, Offered;
    if m == 0 {
      places := {0};
      NoOffers(rows, query, ef, entry, xs, b);
    } else {
      places := AllOffers(rows, query, ef, entry, xs, m - 1, b);
      OfferedOneMore(rows, query, ef, b, xs, m - 1);
      places := OneOffer(rows, query, ef, entry, xs, m - 1, OfferedAll(rows, query, ef, b, xs[..m - 1]), places);
    }
  }

  lemma NoOffers(rows: seq<seq<real>>, query: seq<real>, ef: nat, entry: nat, xs: seq<nat>, b: Beam)
    requires SameWidth(rows, query) && entry < |rows| && AreNodes(xs, |rows|)
    requires b == FirstBeam(rows, query, entry).(frontier := {})
    ensures AfterOffers(MetKeys(rows, query, entry, xs), ef, entry, xs, 0, OfferedAll(rows, query, ef, b, xs[..0]), {0})
  {
    hide SquaredDistance;
    var keys := MetKeys(rows, query, entry, xs);
    assert xs[..0] == [];
    assert At(keys, {0}, 1) == multiset{OrdF32(keys[0])} by {
      assert At(keys, {0}, 0) == multiset{};
    }
  }

  /** The entry and the neighbours before the j-th that are no farther from the query than the j-th. */
  ghost function AsNear(rows: seq<seq<real>>, query: seq<real>, entry: nat, xs: seq<nat>, j: nat): set<nat>
    requires SameWidth(rows, query) && entry < |rows| && AreNodes(xs, |rows|) && j < |xs|
  {
    set x | x in {entry} + ToSet(xs[..j]) && x < |rows|
            && SquaredDistance(rows[x], query) <= SquaredDistance(rows[xs[j]], query)
  }

  lemma AsNearCount(rows: seq<seq<real>>, query: seq<real>, entry: nat, xs: seq<nat>, j: nat)
    requires SameWidth(rows, query) && entry < |rows| && AreNodes(xs, |rows|) && Distinct(xs) && entry !in xs && j < |xs|
    ensures |AsNear(rows, query, entry, xs, j)| == |NoGreater(MetKeys(rows, query, entry, xs), j + 1)|
  {
    hide SquaredDistance, SameWidth;
    var keys := MetKeys(rows, query, entry, xs);
    var met := [entry] + xs;
    assert forall i :: 0 <= i <= |xs| ==> keys[i] == Score(rows, query, met[i]).key;
    forall x | x in AsNear(rows, query, entry, xs, j)
      ensures exists i :: i in NoGreater(keys, j + 1) && i < |met| && met[i] == x
    {
      var i := if x == entry then 0 else (var p :| 0 <= p < j && xs[p] == x; p + 1);
      assert met[i] == x && i in NoGreater(keys, j + 1);
    }
    forall i | i in NoGreater(keys, j + 1)
      ensures met[i] in AsNear(rows, query, entry, xs, j)
    {
      assert i > 0 ==> met[i] == xs[i - 1] && xs[i - 1] in xs[..j];
    }
    Renamed(met, NoGreater(keys, j + 1), AsNear(rows, query, entry, xs, j));
  }

  /** Places of different things are as many as the things. */
  lemma {:induction false} Renamed(met: seq<nat>, places: set<nat>, things: set<nat>)
    requires Distinct(met) && (forall i :: i in places ==> i < |met| && met[i] in things)
    requires forall x :: x in things ==> exists i :: i in places && i < |met| && met[i] == x
    ensures |places| == |things|
  {
    if places == {} {
      assert things == {};
    } else {
      var i :| i in places;
      forall x | x in things - {met[i]}
        ensures exists j :: j in places - {i} && j < |met| && met[j] == x
      {
        var j :| j in places && j < |met| && met[j] == x;
        assert j in places - {i};
      }
      Renamed(met, places - {i}, things - {met[i]});
    }
  }

  /** After the entry's expansion a neighbour waits if and only if at most ef of the entry and the neighbours listed before
      it are as near to the query as it is. */
  lemma WaitsExactlyWhen(g: AcornGraph, rows: seq<seq<real>>, query: seq<real>, ef: nat, entry: nat, j: nat)
    requires g.Holds(rows) && SameWidth(rows, query) && entry < |rows| && AreNodes(g.neighbors[entry], |rows|)
    requires Distinct(g.neighbors[entry]) && entry !in g.neighbors[entry] && j < |g.neighbors[entry]|
    ensures AfterEntry(g, rows, query, ef, entry) <= ToSet(g.neighbors[entry])
    ensures
      var xs := g.neighbors[entry];
      xs[j] in AfterEntry(g, rows, query, ef, entry) <==> |AsNear(rows, query, entry, xs, j)| <= ef
  {
    hide SquaredDistance, SameWidth, Flatten, OfferedAll, NoGreater, AsNear, Mirrors;
    var xs, b := g.neighbors[entry], FirstBeam(rows, query, entry).(frontier := {});
    assert xs[..|xs|] == xs;
    var places := AllOffers(rows, query, ef, entry, xs, |xs|, b);
    AsNearCount(rows, query, entry, xs, j);
  }
}
