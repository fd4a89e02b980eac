/** Sets and the sequences that list them. */
module Collections {

  predicate Distinct<T(==)>(items: seq<T>) {
    forall i, j :: 0 <= i < j < |items| ==> items[i] != items[j]
  }

  lemma AppendDistinct<T>(items: seq<T>, x: T)
    requires Distinct(items) && x !in items
    ensures Distinct(items + [x])
  {
  }

  /** items lists the members of s, each once, in some order. */
  ghost predicate Enumerates<T(!new)>(items: seq<T>, s: set<T>) {
    && (forall x :: x in items <==> x in s)
    && Distinct(items)
  }

  lemma InitAndLast<T>(items: seq<T>)
    requires items != []
    ensures items == items[..|items| - 1] + [items[|items| - 1]]
  {
  }

  lemma HeadAndTail<T>(items: seq<T>)
    requires items != []
    ensures items == [items[0]] + items[1..]
  {
  }

  lemma EnumeratesAppend<T(!new)>(items: seq<T>, s: set<T>, x: T)
    requires Enumerates(items, s) && x !in s
    ensures Enumerates(items + [x], s + {x})
  {
  }

  lemma EnumeratesConcat<T(!new)>(items: seq<T>, s: set<T>, items': seq<T>, s': set<T>)
    requires Enumerates(items, s) && Enumerates(items', s') && s !! s'
    ensures Enumerates(items + items', s + s')
  {
    forall i, j | 0 <= i < j < |items + items'|
      ensures (items + items')[i] != (items + items')[j]
    {
      if i < |items| <= j {
        assert items[i] in s && items'[j - |items|] in s';
      }
    }
  }

  function ToSet<T>(items: seq<T>): set<T> {
    set x | x in items
  }

  lemma EnumeratesDrop<T(!new)>(items: seq<T>, s: set<T>, cut: nat)
    requires Enumerates(items, s) && cut <= |items|
    ensures Enumerates(items[cut..], s - ToSet(items[..cut]))
  {
    assert items == items[..cut] + items[cut..];
  }

  lemma EnumeratesInit<T(!new)>(items: seq<T>, s: set<T>)
    requires Enumerates(items, s) && items != []
    ensures items[|items| - 1] in s
    ensures Enumerates(items[..|items| - 1], s - {items[|items| - 1]})
  {
    var init, last := items[..|items| - 1], items[|items| - 1];
    assert items == init + [last];
  }

  lemma {:induction false} EnumeratesCardinality<T(!new)>(items: seq<T>, s: set<T>)
    requires Enumerates(items, s)
    ensures |items| == |s|
  {
    if items == [] {
      assert s == {};
    } else {
      var init, last := items[..|items| - 1], items[|items| - 1];
      assert items == init + [last];
      assert Enumerates(init, s - {last});
      EnumeratesCardinality(init, s - {last});
    }
  }

  lemma {:induction false} SubsetCardinality<T(!new)>(a: set<T>, b: set<T>)
    requires a <= b
    ensures |a| <= |b|
    ensures |a| == |b| ==> a == b
  {
    if a != {} {
      var x :| x in a;
      SubsetCardinality(a - {x}, b - {x});
    }
  }

  /** A rearrangement of a listing is a listing. */
  lemma EnumeratesPermuted<T(!new)>(items: seq<T>, items': seq<T>, s: set<T>)
    requires Enumerates(items, s) && multiset(items) == multiset(items')
    ensures Enumerates(items', s)
  {
    forall x
      ensures x in items <==> x in items'
    {
      assert x in items <==> x in multiset(items);
      assert x in items' <==> x in multiset(items');
    }
    forall i, j | 0 <= i < j < |items'|
      ensures items'[i] != items'[j]
    {
      if items'[i] == items'[j] {
        var x := items'[i];
        assert items' == items'[..j] + [x] + items'[j + 1..];
        assert multiset(items')[x] >= 2;
        OccursOnce(items, s, x);
      }
    }
  }

  lemma {:induction false} OccursOnce<T(!new)>(items: seq<T>, s: set<T>, x: T)
    requires Enumerates(items, s)
    ensures multiset(items)[x] <= 1
  {
    if items != [] {
      var init, last := items[..|items| - 1], items[|items| - 1];
      assert items == init + [last];
      assert Enumerates(init, s - {last});
      OccursOnce(init, s - {last}, x);
    }
  }

  // ---------------------------------------------------------------- parts of a sequence

  /** The first k elements, or all of them. */
  function Take<T>(s: seq<T>, k: nat): (r: seq<T>)
    ensures |r| == if |s| <= k then |s| else k
  {
    if |s| <= k then s else s[..k]
  }

  /** All but the occurrences of x. */
  function Without<T(==)>(s: seq<T>, x: T): seq<T> {
    if s == [] then []
    else Without(s[..|s| - 1], x) + if s[|s| - 1] == x then [] else [s[|s| - 1]]
  }

  lemma {:induction false} WithoutMembers<T(!new)>(s: seq<T>, x: T)
    ensures forall y :: y in Without(s, x) <==> y in s && y != x
    ensures x !in s ==> Without(s, x) == s
  {
    if s != [] {
      WithoutMembers(s[..|s| - 1], x);
      assert s == s[..|s| - 1] + [s[|s| - 1]];
    }
  }

  lemma {:induction false} WithoutDistinct<T(!new)>(s: seq<T>, x: T)
    requires Distinct(s)
    ensures Distinct(Without(s, x))
  {
    if s != [] {
      var init := s[..|s| - 1];
      WithoutDistinct(init, x);
      WithoutMembers(init, x);
      assert s[|s| - 1] !in init;
    }
  }
}
