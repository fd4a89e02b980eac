/** The standard library's stable sort by a numeric key, and how it distributes over concatenation. */
module Sorting {
  import opened Collections

  datatype Keyed<T> = Keyed(key: real, value: T)

  ghost predicate Sorted<T>(s: seq<Keyed<T>>) {
    forall i, j :: 0 <= i < j < |s| ==> s[i].key <= s[j].key
  }

  function Insert<T>(x: Keyed<T>, s: seq<Keyed<T>>): (r: seq<Keyed<T>>) {
    if s == [] || x.key <= s[0].key then [x] + s else [s[0]] + Insert(x, s[1..])
  }

  function Sort<T>(s: seq<Keyed<T>>): (r: seq<Keyed<T>>) {
    if s == [] then [] else Insert(s[0], Sort(s[1..]))
  }

  lemma {:induction false} InsertPermutes<T>(x: Keyed<T>, s: seq<Keyed<T>>)
    ensures multiset(Insert(x, s)) == multiset{x} + multiset(s)
    ensures |Insert(x, s)| == |s| + 1
  {
    if s != [] && !(x.key <= s[0].key) {
      InsertPermutes(x, s[1..]);
      assert s == [s[0]] + s[1..];
    }
  }

  lemma {:induction false} InsertSorted<T>(x: Keyed<T>, s: seq<Keyed<T>>)
    requires Sorted(s)
    ensures Sorted(Insert(x, s))
  {
    if s != [] && !(x.key <= s[0].key) {
      InsertSorted(x, s[1..]);
      InsertPermutes(x, s[1..]);
      var r := Insert(x, s[1..]);
      forall i | 0 <= i < |r|
        ensures s[0].key <= r[i].key
      {
        assert r[i] in multiset(r);
        assert r[i] == x || r[i] in s[1..];
      }
    }
  }

  lemma {:induction false} SortPermutesAndSorts<T>(s: seq<Keyed<T>>)
    ensures multiset(Sort(s)) == multiset(s)
    ensures |Sort(s)| == |s|
    ensures Sorted(Sort(s))
  {
    if s != [] {
      SortPermutesAndSorts(s[1..]);
      InsertPermutes(s[0], Sort(s[1..]));
      InsertSorted(s[0], Sort(s[1..]));
      assert s == [s[0]] + s[1..];
    }
  }

  /** What is sorted already stays as it is. */
  lemma {:induction false} SortOfSorted<T>(s: seq<Keyed<T>>)
    requires Sorted(s)
    ensures Sort(s) == s
  {
    if s != [] {
      SortOfSorted(s[1..]);
    }
  }

  /** The elements with one key, in order. */
  function WithKey<T>(s: seq<Keyed<T>>, key: real): seq<Keyed<T>> {
    if s == [] then [] else (if s[0].key == key then [s[0]] else []) + WithKey(s[1..], key)
  }

  lemma {:induction false} WithKeyInsert<T>(x: Keyed<T>, s: seq<Keyed<T>>, key: real)
    ensures WithKey(Insert(x, s), key) == WithKey([x], key) + WithKey(s, key)
  {
    if s == [] || x.key <= s[0].key {
      assert ([x] + s)[1..] == s;
    } else {
      WithKeyInsert(x, s[1..], key);
      assert ([s[0]] + Insert(x, s[1..]))[1..] == Insert(x, s[1..]);
    }
  }

  /** Elements with equal keys keep their order. */
  lemma {:induction false} SortIsStable<T>(s: seq<Keyed<T>>, key: real)
    ensures WithKey(Sort(s), key) == WithKey(s, key)
  {
    if s != [] {
      SortIsStable(s[1..], key);
      WithKeyInsert(s[0], Sort(s[1..]), key);
    }
  }

  /** Merge two sorted sequences; equal keys come from the left one first. */
  function Merge<T>(a: seq<Keyed<T>>, b: seq<Keyed<T>>): (r: seq<Keyed<T>>) {
    if a == [] then b
    else if b == [] then a
    else if a[0].key <= b[0].key then [a[0]] + Merge(a[1..], b)
    else [b[0]] + Merge(a, b[1..])
  }

  lemma {:induction false} InsertIntoMerge<T>(x: Keyed<T>, a: seq<Keyed<T>>, b: seq<Keyed<T>>)
    ensures Merge(Insert(x, a), b) == Insert(x, Merge(a, b))
    decreases |a| + |b|
  {
    if b == [] {
    } else if a != [] && !(x.key <= a[0].key) && a[0].key <= b[0].key {
      InsertIntoMerge(x, a[1..], b);
      assert ([a[0]] + Insert(x, a[1..]))[1..] == Insert(x, a[1..]);
      assert ([a[0]] + Merge(a[1..], b))[1..] == Merge(a[1..], b);
    } else if x.key <= b[0].key {
      assert Insert(x, a) == [x] + a;
      assert ([x] + a)[1..] == a;
    } else {
      InsertIntoMerge(x, a, b[1..]);
      assert ([b[0]] + Merge(a, b[1..]))[1..] == Merge(a, b[1..]);
    }
  }

  lemma {:induction false} SortOfConcat<T>(s: seq<Keyed<T>>, t: seq<Keyed<T>>)
    ensures Sort(s + t) == Merge(Sort(s), Sort(t))
  {
    if s == [] {
      assert s + t == t;
    } else {
      assert (s + t)[0] == s[0] && (s + t)[1..] == s[1..] + t;
      SortOfConcat(s[1..], t);
      InsertIntoMerge(s[0], Sort(s[1..]), Sort(t));
    }
  }

  lemma TakeCons<T>(x: T, s: seq<T>, k: nat)
    requires k > 0
    ensures Take([x] + s, k) == [x] + Take(s, k - 1)
  {
  }

  lemma TakeUncons<T>(s: seq<T>, k: nat)
    requires k > 0 && s != []
    ensures Take(s, k) != [] && Take(s, k)[0] == s[0] && Take(s, k)[1..] == Take(s[1..], k - 1)
  {
  }

  /** The first k merged elements depend only on the first k of either side. */
  lemma {:induction false} TakeOfMerge<T>(a: seq<Keyed<T>>, b: seq<Keyed<T>>, k: nat, ka: nat, kb: nat)
    requires k <= ka && k <= kb
    ensures Take(Merge(a, b), k) == Take(Merge(Take(a, ka), Take(b, kb)), k)
    decreases k, |a| + |b|
  {
    if k == 0 {
      TakeNothing(Merge(a, b));
      TakeNothing(Merge(Take(a, ka), Take(b, kb)));
    } else if a == [] || b == [] {
      TakeOfMergeNone(a, b, k, ka, kb);
    } else {
      hide Merge, Take;
      if a[0].key <= b[0].key {
        TakeOfMerge(a[1..], b, k - 1, ka - 1, kb);
        TakeOfMergeLeft(a, b, k, ka, kb);
      } else {
        TakeOfMerge(a, b[1..], k - 1, ka, kb - 1);
        TakeOfMergeRight(a, b, k, ka, kb);
      }
    }
  }

  lemma TakeOfMergeLeft<T>(a: seq<Keyed<T>>, b: seq<Keyed<T>>, k: nat, ka: nat, kb: nat)
    requires 0 < k <= ka && k <= kb && a != [] && b != [] && a[0].key <= b[0].key
    requires Take(Merge(a[1..], b), k - 1) == Take(Merge(Take(a[1..], ka - 1), Take(b, kb)), k - 1)
    ensures Take(Merge(a, b), k) == Take(Merge(Take(a, ka), Take(b, kb)), k)
  {
    hide Merge, Take;
    TakeUncons(a, ka);
    TakeUncons(b, kb);
    TakeOfMergeStep(a, b, k);
    TakeOfMergeStep(Take(a, ka), Take(b, kb), k);
  }

  lemma TakeOfMergeRight<T>(a: seq<Keyed<T>>, b: seq<Keyed<T>>, k: nat, ka: nat, kb: nat)
    requires 0 < k <= ka && k <= kb && a != [] && b != [] && a[0].key > b[0].key
    requires Take(Merge(a, b[1..]), k - 1) == Take(Merge(Take(a, ka), Take(b[1..], kb - 1)), k - 1)
    ensures Take(Merge(a, b), k) == Take(Merge(Take(a, ka), Take(b, kb)), k)
  {
    hide Merge, Take;
    TakeUncons(a, ka);
    TakeUncons(b, kb);
    TakeOfMergeStep(a, b, k);
    TakeOfMergeStep(Take(a, ka), Take(b, kb), k);
  }

  lemma TakeNothing<T>(s: seq<T>)
    ensures Take(s, 0) == []
  {
  }

  lemma TakeOfMergeNone<T>(a: seq<Keyed<T>>, b: seq<Keyed<T>>, k: nat, ka: nat, kb: nat)
    requires k <= ka && k <= kb && (a == [] || b == [])
    ensures Take(Merge(a, b), k) == Take(Merge(Take(a, ka), Take(b, kb)), k)
  {
    assert Merge(a, b) == a + b;
    assert Merge(Take(a, ka), Take(b, kb)) == Take(a, ka) + Take(b, kb);
  }

  lemma TakeOfMergeStep<T>(a: seq<Keyed<T>>, b: seq<Keyed<T>>, k: nat)
    requires k > 0 && a != [] && b != []
    ensures Take(Merge(a, b), k) ==
            if a[0].key <= b[0].key then [a[0]] + Take(Merge(a[1..], b), k - 1)
            else [b[0]] + Take(Merge(a, b[1..]), k - 1)
  {
    if a[0].key <= b[0].key {
      TakeCons(a[0], Merge(a[1..], b), k);
    } else {
      TakeCons(b[0], Merge(a, b[1..]), k);
    }
  }
}
