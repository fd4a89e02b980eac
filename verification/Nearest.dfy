/** Distances, and the exact nearest neighbours of a query: the specification of a top-k answer and the flat scans. */
module Nearest {
  import opened Collections
  import opened Sorting

  // ---------------------------------------------------------------- distance

  function Square(x: real): real {
    x * x
  }

  /** The sum of the first n squared differences. */
  function SquaresUpTo(a: seq<real>, b: seq<real>, n: nat): real
    requires n <= |a| && n <= |b|
  {
    if n == 0 then 0.0 else SquaresUpTo(a, b, n - 1) + Square(a[n - 1] - b[n - 1])
  }

  function SquaredDistance(a: seq<real>, b: seq<real>): real
    requires |a| == |b|
  {
    SquaresUpTo(a, b, |a|)
  }

  lemma FourMore(a: seq<real>, b: seq<real>, n: nat)
    requires n + 4 <= |a| && |a| == |b|
    ensures SquaresUpTo(a, b, n + 4) ==
            SquaresUpTo(a, b, n) + Square(a[n] - b[n]) + Square(a[n + 1] - b[n + 1])
            + Square(a[n + 2] - b[n + 2]) + Square(a[n + 3] - b[n + 3])
  {
    hide Square;
    assert SquaresUpTo(a, b, n + 2) == SquaresUpTo(a, b, n) + Square(a[n] - b[n]) + Square(a[n + 1] - b[n + 1]);
  }

  lemma {:induction false} PartsUpTo(a: seq<real>, b: seq<real>, c: seq<real>, d: seq<real>, n: nat)
    requires |a| == |b| && |c| == |d| && n <= |c|
    ensures SquaresUpTo(a + c, b + d, |a| + n) == SquaresUpTo(a, b, |a|) + SquaresUpTo(c, d, n)
  {
    hide Square;
    if n > 0 {
      PartsUpTo(a, b, c, d, n - 1);
    } else {
      PrefixUpTo(a, b, c, d, |a|);
    }
  }

  lemma {:induction false} PrefixUpTo(a: seq<real>, b: seq<real>, c: seq<real>, d: seq<real>, n: nat)
    requires |a| == |b| && |c| == |d| && n <= |a|
    ensures SquaresUpTo(a + c, b + d, n) == SquaresUpTo(a, b, n)
  {
    hide Square;
    if n > 0 {
      PrefixUpTo(a, b, c, d, n - 1);
    }
  }

  /** The distance of two vectors is the sum of the distances of their parts, and in one dimension the square of the
      difference. */
  lemma DistanceOfParts(a: seq<real>, b: seq<real>, c: seq<real>, d: seq<real>, x: real, y: real)
    requires |a| == |b| && |c| == |d|
    ensures SquaredDistance(a + c, b + d) == SquaredDistance(a, b) + SquaredDistance(c, d)
    ensures SquaredDistance([x], [y]) == (x - y) * (x - y) && SquaredDistance([], []) == 0.0
  {
    PartsUpTo(a, b, c, d, |c|);
    assert SquaresUpTo([x], [y], 1) == SquaresUpTo([x], [y], 0) + Square(x - y);
  }

  /** The unrolled sum with four accumulators is the plain sum. */
  method L2Sq(a: seq<real>, b: seq<real>) returns (sum: real)
    requires |a| == |b|
    ensures sum == SquaredDistance(a, b)
  {
    hide Square;
    var n := |a|;
    var s0, s1, s2, s3 := 0.0, 0.0, 0.0, 0.0;
    var chunks, tail := n / 4, n % 4;
    for k := 0 to chunks
      invariant s0 + s1 + s2 + s3 == SquaresUpTo(a, b, k * 4)
    {
      var i := k * 4;
      FourMore(a, b, i);
      s0 := s0 + Square(a[i] - b[i]);
      s1 := s1 + Square(a[i + 1] - b[i + 1]);
      s2 := s2 + Square(a[i + 2] - b[i + 2]);
      s3 := s3 + Square(a[i + 3] - b[i + 3]);
    }
    sum := s0 + s1 + s2 + s3;
    var base := chunks * 4;
    for i := 0 to tail
      invariant sum == SquaresUpTo(a, b, base + i)
    {
      sum := sum + Square(a[base + i] - b[base + i]);
    }
  }

  // ---------------------------------------------------------------- candidates and top-k

  /** A scored id; ordered by distance, then by id. */
  type Cand = Keyed<int>

  predicate Less(x: Cand, y: Cand) {
    x.key < y.key || (x.key == y.key && x.value < y.value)
  }

  predicate IsMax(s: set<Cand>, m: Cand) {
    m in s && forall x :: x in s ==> x == m || Less(x, m)
  }

  predicate IsMin(s: set<Cand>, m: Cand) {
    m in s && forall x :: x in s ==> x == m || Less(m, x)
  }

  lemma LessTotal(x: Cand, y: Cand)
    ensures x == y || Less(x, y) || Less(y, x)
  {
    if x.key == y.key && x.value == y.value {
      assert x == y;
    }
  }

  lemma {:induction false} MaxExists(s: set<Cand>)
    requires s != {}
    ensures exists m :: IsMax(s, m)
  {
    var x :| x in s;
    if s == {x} {
      assert IsMax(s, x);
    } else {
      MaxExists(s - {x});
      var m :| IsMax(s - {x}, m);
      LessTotal(x, m);
      var w := if Less(x, m) then m else x;
      forall y | y in s
        ensures y == w || Less(y, w)
      {
        assert y != x ==> y in s - {x};
      }
      assert IsMax(s, w);
    }
  }

  lemma {:induction false} MinExists(s: set<Cand>)
    requires s != {}
    ensures exists m :: IsMin(s, m)
  {
    var x :| x in s;
    if s == {x} {
      assert IsMin(s, x);
    } else {
      MinExists(s - {x});
      var m :| IsMin(s - {x}, m);
      LessTotal(x, m);
      var w := if Less(m, x) then m else x;
      forall y | y in s
        ensures y == w || Less(w, y)
      {
        assert y != x ==> y in s - {x};
      }
      assert IsMin(s, w);
    }
  }

  /** t holds the k smallest members of s, or all of them when there are fewer. */
  ghost predicate IsTopK(t: set<Cand>, s: set<Cand>, k: nat) {
    && t <= s
    && |t| == (if |s| <= k then |s| else k)
    && forall x, y :: x in t && y in s && y !in t ==> Less(x, y)
  }

  lemma TopKUnique(t: set<Cand>, t': set<Cand>, s: set<Cand>, k: nat)
    requires IsTopK(t, s, k) && IsTopK(t', s, k)
    ensures t == t'
  {
    if x :| x in t && x !in t' {
      if t' <= t {
        SubsetCardinality(t', t);
      }
    }
    if x :| x in t' && x !in t {
      if t <= t' {
        SubsetCardinality(t, t');
      }
    }
  }

  lemma TopKOfSmall(t: set<Cand>, s: set<Cand>, k: nat)
    requires IsTopK(t, s, k) && |s| <= k
    ensures t == s
  {
    SubsetCardinality(t, s);
  }

  lemma TopKRoom(t: set<Cand>, s: set<Cand>, k: nat, x: Cand)
    requires IsTopK(t, s, k) && x !in s && |t| < k
    ensures IsTopK(t + {x}, s + {x}, k)
  {
    TopKOfSmall(t, s, k);
  }

  lemma TopKFull(t: set<Cand>, s: set<Cand>, k: nat, x: Cand, m: Cand)
    requires IsTopK(t, s, k) && x !in s && |t| == k && IsMax(t + {x}, m)
    ensures IsTopK(t + {x} - {m}, s + {x}, k)
  {
    var t' := t + {x} - {m};
    assert |t + {x}| == |t| + 1;
    forall y, z | y in t' && z in s + {x} && z !in t'
      ensures Less(y, z)
    {
      if z != m {
        assert z in s && z !in t;
      }
    }
    assert |s| >= k;
  }

  /** Candidates beyond every member of a full answer do not change it. */
  lemma TopKIgnoresFarther(t: set<Cand>, s: set<Cand>, k: nat, more: set<Cand>)
    requires IsTopK(t, s, k) && |t| == k
    requires forall x, y :: x in t && y in more ==> Less(x, y)
    ensures IsTopK(t, s + more, k)
  {
    SubsetCardinality(s, s + more);
  }

  // ---------------------------------------------------------------- scored sets

  ghost predicate SameWidth(rows: seq<seq<real>>, query: seq<real>) {
    forall i :: 0 <= i < |rows| ==> |rows[i]| == |query|
  }

  ghost function Score(rows: seq<seq<real>>, query: seq<real>, i: nat): Cand
    requires SameWidth(rows, query) && i < |rows|
  {
    Keyed(SquaredDistance(rows[i], query), i)
  }

  /** The scored ids of the given nodes. */
  ghost function Scored(rows: seq<seq<real>>, query: seq<real>, ids: set<nat>): (r: set<Cand>)
    requires SameWidth(rows, query)
    requires forall i :: i in ids ==> i < |rows|
  {
    set i | i in ids :: Score(rows, query, i)
  }

  ghost function Passing(n: nat, passes: nat -> bool): set<nat> {
    set i: nat | i < n && passes(i)
  }

  lemma ScoredOne(rows: seq<seq<real>>, query: seq<real>, ids: set<nat>, x: nat)
    requires SameWidth(rows, query) && x < |rows| && x !in ids
    requires forall i :: i in ids ==> i < |rows|
    ensures Scored(rows, query, ids + {x}) == Scored(rows, query, ids) + {Score(rows, query, x)}
    ensures Score(rows, query, x) !in Scored(rows, query, ids)
    ensures forall c :: c in Scored(rows, query, ids) ==> c.value in ids
  {
  }

  // ---------------------------------------------------------------- heaps

  /** BinaryHeap::pop on a max-heap. */
  method PopMax(heap: set<Cand>) returns (m: Cand, rest: set<Cand>)
    requires heap != {}
    ensures IsMax(heap, m) && rest == heap - {m}
  {
    MaxExists(heap);
    m :| m in heap && IsMax(heap, m);
    rest := heap - {m};
  }

  /** BinaryHeap::pop on a min-heap. */
  method PopMin(heap: set<Cand>) returns (m: Cand, rest: set<Cand>)
    requires heap != {}
    ensures IsMin(heap, m) && rest == heap - {m}
  {
    MinExists(heap);
    m :| m in heap && IsMin(heap, m);
    rest := heap - {m};
  }

  /** BinaryHeap::into_iter: the members in arbitrary order. */
  method Drain(heap: set<Cand>) returns (items: seq<Cand>)
    ensures Enumerates(items, heap)
  {
    items := [];
    var rest := heap;
    while rest != {}
      invariant rest <= heap
      invariant Enumerates(items, heap - rest)
      decreases rest
    {
      var c :| c in rest;
      EnumeratesAppend(items, heap - rest, c);
      assert heap - rest + {c} == heap - (rest - {c});
      items := items + [c];
      rest := rest - {c};
    }
    assert heap - rest == heap;
  }

  /** The k nearest of the rows that pass, kept in a bounded max-heap while scanning ids upwards. */
  method BoundedScan(rows: seq<seq<real>>, query: seq<real>, k: nat, n: nat, passes: nat -> bool)
    returns (heap: set<Cand>)
    requires SameWidth(rows, query) && n <= |rows|
    ensures IsTopK(heap, Scored(rows, query, Passing(n, passes)), k)
  {
    hide IsTopK, Scored, SquaredDistance, SameWidth;
    heap := {};
    EmptyTopK(rows, query, k);
    assert Passing(0, passes) == {};
    for i := 0 to n
      invariant IsTopK(heap, Scored(rows, query, Passing(i, passes)), k)
    {
      ghost var passing := Passing(i, passes);
      assert i !in passing && (forall x :: x in passing ==> x < |rows|);
      if !passes(i) {
        assert Passing(i + 1, passes) == passing;
        continue;
      }
      assert Passing(i + 1, passes) == passing + {i};
      RowWidth(rows, query, i);
      var d := L2Sq(rows[i], query);
      var c: Cand := Keyed(d, i);
      ScanOne(rows, query, passing, i, heap, k);
      if |heap| < k {
        heap := heap + {c};
      } else if heap != {} {
        var worst, rest := PopMax(heap);
        if d < worst.key {
          heap := rest + {c};
        }
      }
    }
  }

  lemma RowWidth(rows: seq<seq<real>>, query: seq<real>, i: nat)
    requires SameWidth(rows, query) && i < |rows|
    ensures |rows[i]| == |query|
  {
  }

  lemma EmptyTopK(rows: seq<seq<real>>, query: seq<real>, k: nat)
    requires SameWidth(rows, query)
    ensures IsTopK({}, Scored(rows, query, {}), k)
  {
    assert Scored(rows, query, {}) == {};
  }

  /** Replacing the worst by a strictly nearer candidate with a larger id keeps the top k; a candidate that is not
      strictly nearer is not in it. */
  lemma ReplaceWorst(heap: set<Cand>, s: set<Cand>, k: nat, c: Cand, worst: Cand)
    requires IsTopK(heap, s, k) && c !in s && |heap| == k && IsMax(heap, worst) && worst.value < c.value
    ensures c.key < worst.key ==> IsTopK(heap - {worst} + {c}, s + {c}, k)
    ensures c.key >= worst.key ==> IsTopK(heap, s + {c}, k)
  {
    if c.key < worst.key {
      TopKFull(heap, s, k, c, worst);
      assert heap + {c} - {worst} == heap - {worst} + {c};
    } else {
      TopKFull(heap, s, k, c, c);
      assert heap + {c} - {c} == heap;
    }
  }

  /** One scan step, in each of its outcomes. */
  lemma ScanOne(rows: seq<seq<real>>, query: seq<real>, passing: set<nat>, i: nat, heap: set<Cand>, k: nat)
    requires SameWidth(rows, query) && i < |rows|
    requires forall x :: x in passing ==> x < i
    requires IsTopK(heap, Scored(rows, query, passing), k)
    ensures
      var c, after := Score(rows, query, i), Scored(rows, query, passing + {i});
      && (|heap| < k ==> IsTopK(heap + {c}, after, k))
      && (|heap| >= k && heap == {} ==> IsTopK(heap, after, k))
      && (forall worst :: |heap| >= k && IsMax(heap, worst) ==>
            IsTopK(if c.key < worst.key then heap - {worst} + {c} else heap, after, k))
  {
    var c, s := Score(rows, query, i), Scored(rows, query, passing);
    ScoredOne(rows, query, passing, i);
    assert forall x :: x in heap ==> x.value < i;
    assert |heap| <= k;
    hide Scored, SquaredDistance, SameWidth;
    if |heap| < k {
      TopKRoom(heap, s, k, c);
    } else if heap == {} {
      assert |s + {c}| >= 0;
    } else {
      hide IsTopK;
      forall worst: Cand | IsMax(heap, worst)
        ensures IsTopK(if c.key < worst.key then heap - {worst} + {c} else heap, s + {c}, k)
      {
        ReplaceWorst(heap, s, k, c, worst);
      }
    }
  }

  // ---------------------------------------------------------------- the flat searches

  ghost predicate SortedAnswer(out: seq<Cand>, s: set<Cand>, k: nat) {
    Sorted(out) && IsTopK(ToSet(out), s, k) && Enumerates(out, ToSet(out))
  }

  /** heap.into_iter().collect() and a stable sort by distance: ties come out in arbitrary order. */
  method SortByDistance(heap: set<Cand>) returns (out: seq<Cand>)
    ensures Sorted(out) && ToSet(out) == heap && Enumerates(out, heap)
  {
    var items := Drain(heap);
    out := Sort(items);
    SortPermutesAndSorts(items);
    EnumeratesPermuted(items, out, heap);
  }

  method FlatFilteredSearch(rows: seq<seq<real>>, query: seq<real>, k: nat, passes: nat -> bool)
    returns (out: seq<Cand>)
    requires SameWidth(rows, query)
    ensures SortedAnswer(out, Scored(rows, query, Passing(|rows|, passes)), k)
  {
    var heap := BoundedScan(rows, query, k, |rows|, passes);
    out := SortByDistance(heap);
  }

  // ---------------------------------------------------------------- the reference: sort everything, keep k

  ghost predicate StrictlySorted(s: seq<Cand>) {
    forall i, j :: 0 <= i < j < |s| ==> Less(s[i], s[j])
  }

  /** Scored passing rows in id order, from id i on. */
  ghost function ScoredList(rows: seq<seq<real>>, query: seq<real>, i: nat, passes: nat -> bool): seq<Cand>
    requires SameWidth(rows, query) && i <= |rows|
    decreases |rows| - i
  {
    if i == |rows| then []
    else (if passes(i) then [Score(rows, query, i)] else []) + ScoredList(rows, query, i + 1, passes)
  }

  function IdsOf(s: seq<Cand>): seq<int> {
    if s == [] then [] else [s[0].value] + IdsOf(s[1..])
  }

  ghost function ExactFilteredKnn(rows: seq<seq<real>>, query: seq<real>, k: nat, passes: nat -> bool): seq<int>
    requires SameWidth(rows, query)
  {
    IdsOf(Take(Sort(ScoredList(rows, query, 0, passes)), k))
  }

  /** A stable insertion before larger ids keeps the order by distance and id. */
  lemma {:induction false} InsertKeepsStrict(x: Cand, s: seq<Cand>)
    requires StrictlySorted(s) && forall y :: y in s ==> x.value < y.value
    ensures StrictlySorted(Insert(x, s))
  {
    if s != [] && !(x.key <= s[0].key) {
      assert forall y :: y in s[1..] ==> y in s;
      InsertKeepsStrict(x, s[1..]);
      InsertPermutes(x, s[1..]);
      var r := Insert(x, s[1..]);
      forall i | 0 <= i < |r|
        ensures Less(s[0], r[i])
      {
        assert r[i] in multiset(r);
        if r[i] != x {
          assert r[i] in s[1..];
          var j :| 0 <= j < |s[1..]| && s[1..][j] == r[i];
          assert s[j + 1] == r[i];
        }
      }
    } else if s != [] {
      forall i | 0 <= i < |s|
        ensures Less(x, s[i])
      {
        assert s[i] in s;
        if i > 0 {
          assert Less(s[0], s[i]);
        }
      }
    }
  }

  lemma EmptyIsStrict()
    ensures StrictlySorted([])
  {
  }

  /** The scored list holds the passing rows from i on, and sorting it stably orders it strictly. */
  lemma {:induction false} ScoredListMembers(rows: seq<seq<real>>, query: seq<real>, i: nat, passes: nat -> bool, c: Cand)
    requires SameWidth(rows, query) && i <= |rows|
    ensures c in ScoredList(rows, query, i, passes) <==>
              i <= c.value < |rows| && passes(c.value) && c == Score(rows, query, c.value)
    decreases |rows| - i
  {
    hide SquaredDistance, SameWidth;
    if i < |rows| {
      ScoredListMembers(rows, query, i + 1, passes, c);
    }
  }

  lemma {:induction false} ScoredListStrict(rows: seq<seq<real>>, query: seq<real>, i: nat, passes: nat -> bool)
    requires SameWidth(rows, query) && i <= |rows|
    ensures StrictlySorted(Sort(ScoredList(rows, query, i, passes)))
    decreases |rows| - i
  {
    hide SquaredDistance, SameWidth, StrictlySorted;
    var list := ScoredList(rows, query, i, passes);
    if i == |rows| {
      EmptyIsStrict();
    } else {
      ScoredListStrict(rows, query, i + 1, passes);
      var tail := ScoredList(rows, query, i + 1, passes);
      if passes(i) {
        var x := Score(rows, query, i);
        assert list == [x] + tail && list[0] == x && list[1..] == tail;
        SortPermutesAndSorts(tail);
        forall y | y in Sort(tail)
          ensures x.value < y.value
        {
          assert y in multiset(Sort(tail));
          ScoredListMembers(rows, query, i + 1, passes, y);
        }
        InsertKeepsStrict(x, Sort(tail));
      } else {
        assert list == tail;
      }
    }
  }

  lemma StrictIsListing(s: seq<Cand>)
    requires StrictlySorted(s)
    ensures Enumerates(s, ToSet(s)) && |ToSet(s)| == |s|
  {
    EnumeratesCardinality(s, ToSet(s));
  }

  /** The first k of a strictly sorted list are its k smallest. */
  lemma TakeIsTopK(s: seq<Cand>, k: nat)
    requires StrictlySorted(s)
    ensures IsTopK(ToSet(Take(s, k)), ToSet(s), k)
  {
    var t := Take(s, k);
    StrictIsListing(s);
    StrictIsListing(t);
    assert forall m :: 0 <= m < |t| ==> t[m] == s[m] && s[m] in t;
    forall x, y | x in t && y in s && y !in t
      ensures Less(x, y)
    {
      var i :| 0 <= i < |t| && t[i] == x;
      var j :| 0 <= j < |s| && s[j] == y;
    }
  }

  /** Sorting everything and truncating gives the same top k as the bounded scan, in order of distance and id. */
  lemma ExactIsTopK(rows: seq<seq<real>>, query: seq<real>, k: nat, passes: nat -> bool)
    requires SameWidth(rows, query)
    ensures
      var answer := Take(Sort(ScoredList(rows, query, 0, passes)), k);
      StrictlySorted(answer) && IsTopK(ToSet(answer), Scored(rows, query, Passing(|rows|, passes)), k)
  {
    hide SquaredDistance, IsTopK;
    var list, all := ScoredList(rows, query, 0, passes), Scored(rows, query, Passing(|rows|, passes));
    ScoredListStrict(rows, query, 0, passes);
    SortPermutesAndSorts(list);
    TakeIsTopK(Sort(list), k);
    assert ToSet(Sort(list)) == all by {
      forall c
        ensures c in Sort(list) <==> c in all
      {
        assert c in Sort(list) <==> c in multiset(Sort(list));
        assert c in list <==> c in multiset(list);
        ScoredListMembers(rows, query, 0, passes, c);
        if c in list {
          assert c.value in Passing(|rows|, passes);
        }
      }
    }
  }

  lemma HeadIsLeast(s: seq<Cand>, x: Cand)
    requires StrictlySorted(s) && x in s
    ensures x == s[0] || Less(s[0], x)
  {
  }

  /** A set has one listing in strict order. */
  lemma {:induction false} StrictListingUnique(s: seq<Cand>, t: seq<Cand>)
    requires StrictlySorted(s) && StrictlySorted(t) && ToSet(s) == ToSet(t)
    ensures s == t
  {
    StrictIsListing(s);
    StrictIsListing(t);
    if s != [] {
      assert s[0] in ToSet(s) && t[0] in ToSet(t);
      HeadIsLeast(t, s[0]);
      HeadIsLeast(s, t[0]);
      assert s[0] == t[0];
      forall x
        ensures x in s[1..] <==> x in t[1..]
      {
        assert x in s[1..] <==> x in s && x != s[0] by {
          TailMembers(s, x);
        }
        assert x in t[1..] <==> x in t && x != t[0] by {
          TailMembers(t, x);
        }
        assert x in s <==> x in ToSet(s);
        assert x in t <==> x in ToSet(t);
      }
      StrictListingUnique(s[1..], t[1..]);
    }
  }

  lemma TailMembers(s: seq<Cand>, x: Cand)
    requires StrictlySorted(s) && s != []
    ensures x in s[1..] <==> x in s && x != s[0]
  {
    assert s == [s[0]] + s[1..];
    if x in s[1..] {
      var i :| 0 <= i < |s[1..]| && s[1..][i] == x;
      assert Less(s[0], s[i + 1]);
    }
  }

  /** BinaryHeap::into_sorted_vec. */
  method IntoSortedVec(heap: set<Cand>) returns (out: seq<Cand>)
    ensures StrictlySorted(out) && ToSet(out) == heap
  {
    out := [];
    var rest := heap;
    while rest != {}
      invariant rest <= heap && ToSet(out) == heap - rest
      invariant StrictlySorted(out)
      invariant forall x, y :: x in out && y in rest ==> Less(x, y)
      decreases rest
    {
      var m, less := PopMin(rest);
      assert ToSet(out + [m]) == ToSet(out) + {m};
      out, rest := out + [m], less;
    }
  }

  predicate Anything(i: nat) {
    true
  }

  /** The brute-force search returns, id for id, what the exact reference returns with no filter. */
  method FlatKNearest(rows: seq<seq<real>>, query: seq<real>, k: nat) returns (ids: seq<int>)
    requires SameWidth(rows, query)
    ensures ids == ExactFilteredKnn(rows, query, k, Anything)
  {
    hide IsTopK, Scored, ScoredList, SquaredDistance;
    var heap := BoundedScan(rows, query, k, |rows|, Anything);
    var out := IntoSortedVec(heap);
    SortOfSorted(out);
    out := Sort(out);
    ids := IdsOf(out);
    ghost var answer := Take(Sort(ScoredList(rows, query, 0, Anything)), k);
    ExactIsTopK(rows, query, k, Anything);
    TopKUnique(heap, ToSet(answer), Scored(rows, query, Passing(|rows|, Anything)), k);
    StrictListingUnique(out, answer);
  }
}
