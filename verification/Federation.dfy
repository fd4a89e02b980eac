/** Federated search: every target is searched, the answers are merged by score and cut to k. */
module Federation {
  import opened Cache
  import opened Collections
  import opened Lake
  import opened Sorting
  import opened Wrappers

  /** How many results each shard is asked for; bonus stands for the rounded square root. */
  function OverRequestK(k: nat, shards: nat, bonus: nat): (r: nat)
    requires k < 0x1_0000_0000_0000_0000
    ensures r >= k
    ensures r <= 4 * k
  {
    if shards <= 1 || k == 0 then k
    else
      var most := if 4 * k < 0x1_0000_0000_0000_0000 then 4 * k else 0xFFFF_FFFF_FFFF_FFFF;
      if k + bonus <= most then k + bonus else most
  }

  /** n results are enough for the data to be skewed by x. */
  predicate Covers(n: nat, k: nat, x: real) {
    n >= k && ((n - k) * (n - k)) as real >= x
  }

  /** bonus is the square root of x, rounded up. */
  predicate IsRootUp(bonus: nat, x: real) {
    (bonus * bonus) as real >= x && (bonus > 0 ==> ((bonus - 1) * (bonus - 1)) as real < x)
  }

  lemma SquareMonotone(a: nat, b: nat)
    requires a <= b
    ensures a * a <= b * b
  {
  }

  /** With x = k * ln(shards): each of several shards is asked for the least number that exceeds k by the root of x, or for
      4k if that is less; a single one for k. */
  lemma OverRequestIsLeast(k: nat, shards: nat, x: real, bonus: nat)
    requires IsRootUp(bonus, x) && 4 * k < 0x1_0000_0000_0000_0000
    ensures
      var r := OverRequestK(k, shards, bonus);
      && (shards <= 1 || k == 0 ==> r == k)
      && (shards > 1 && k > 0 ==>
            && k <= r <= 4 * k && (Covers(r, k, x) || r == 4 * k)
            && forall n :: k <= n < r ==> !Covers(n, k, x))
  {
    var r := OverRequestK(k, shards, bonus);
    if shards > 1 && k > 0 {
      assert r == k + bonus ==> r - k == bonus;
      forall n | k <= n < r
        ensures !Covers(n, k, x)
      {
        SquareMonotone(n - k, bonus - 1);
      }
    }
  }

  function Keys(rs: seq<SearchResult>): (ks: seq<Keyed<SearchResult>>)
    ensures |ks| == |rs|
  {
    seq(|rs|, i requires 0 <= i < |rs| => Keyed(rs[i].score, rs[i]))
  }

  function Values(ks: seq<Keyed<SearchResult>>): (rs: seq<SearchResult>)
    ensures |rs| == |ks|
  {
    seq(|ks|, i requires 0 <= i < |ks| => ks[i].value)
  }

  function Flatten(lists: seq<seq<SearchResult>>): seq<SearchResult> {
    if lists == [] then [] else lists[0] + Flatten(lists[1..])
  }

  function Merged(lists: seq<seq<SearchResult>>, k: nat): seq<SearchResult> {
    Values(Take(Sort(Keys(Flatten(lists))), k))
  }

  // ---------------------------------------------------------------- merging loses nothing

  /** A shard's answer is the best of all that the shard holds. */
  predicate BestOf(list: seq<SearchResult>, full: seq<SearchResult>, k: nat) {
    Keys(list) == Take(Sort(Keys(full)), k)
  }

  lemma KeysConcat(a: seq<SearchResult>, b: seq<SearchResult>)
    ensures Keys(a + b) == Keys(a) + Keys(b)
  {
  }

  lemma TakeKeepsSorted<T>(s: seq<Keyed<T>>, k: nat)
    requires Sorted(s)
    ensures Sorted(Take(s, k))
  {
  }

  /** Cutting each side at k or later before merging makes no difference to the first k. */
  lemma CutBeforeMerge<T>(a: seq<Keyed<T>>, b: seq<Keyed<T>>, b': seq<Keyed<T>>, k: nat, ka: nat)
    requires k <= ka && Take(b, k) == Take(b', k)
    ensures Take(Merge(Take(a, ka), b'), k) == Take(Merge(a, b), k)
  {
    TakeOfMerge(a, b, k, ka, k);
    TakeOfMerge(Take(a, ka), b', k, ka, k);
    assert Take(Take(a, ka), ka) == Take(a, ka);
  }

  lemma {:induction false} MergedFromBest(lists: seq<seq<SearchResult>>, fulls: seq<seq<SearchResult>>, k: nat, ks: nat)
    requires |lists| == |fulls| && k <= ks
    requires forall i :: 0 <= i < |lists| ==> BestOf(lists[i], fulls[i], ks)
    ensures Take(Sort(Keys(Flatten(lists))), k) == Take(Sort(Keys(Flatten(fulls))), k)
    decreases |lists|
  {
    hide Sort, Merge, Keys, BestOf, Take;
    if lists != [] {
      assert forall i :: 0 <= i < |lists[1..]| ==> lists[1..][i] == lists[i + 1] && fulls[1..][i] == fulls[i + 1];
      MergedFromBest(lists[1..], fulls[1..], k, ks);
      FirstShard(lists[0], fulls[0], Flatten(lists[1..]), Flatten(fulls[1..]), k, ks);
    }
  }

  lemma FirstShard(list: seq<SearchResult>, full: seq<SearchResult>, rest: seq<SearchResult>, rest': seq<SearchResult>,
                   k: nat, ks: nat)
    requires k <= ks && BestOf(list, full, ks)
    requires Take(Sort(Keys(rest)), k) == Take(Sort(Keys(rest')), k)
    ensures Take(Sort(Keys(list + rest)), k) == Take(Sort(Keys(full + rest')), k)
  {
    hide Sort, Merge, Keys, Take;
    var a := Sort(Keys(full));
    KeysConcat(list, rest);
    KeysConcat(full, rest');
    SortOfConcat(Keys(list), Keys(rest));
    SortOfConcat(Keys(full), Keys(rest'));
    SortPermutesAndSorts(Keys(full));
    TakeKeepsSorted(a, ks);
    SortOfSorted(Take(a, ks));
    CutBeforeMerge(a, Sort(Keys(rest')), Sort(Keys(rest)), k, ks);
  }

  /** Merging the shards' best gives the best of everything the shards hold, for any number of shards and any bonus. */
  lemma MergedIsGlobalBest(lists: seq<seq<SearchResult>>, fulls: seq<seq<SearchResult>>, k: nat, bonus: nat)
    requires |lists| == |fulls| && k < 0x1_0000_0000_0000_0000
    requires forall i :: 0 <= i < |lists| ==> BestOf(lists[i], fulls[i], OverRequestK(k, |lists|, bonus))
    ensures BestOf(Merged(lists, k), Flatten(fulls), k)
  {
    hide Sort, Keys, Take;
    MergedFromBest(lists, fulls, k, OverRequestK(k, |lists|, bonus));
    var s := Keys(Flatten(lists));
    SortPermutesAndSorts(s);
    KeysOnly(Flatten(lists), Take(Sort(s), k)) by {
      TakeIsPart(Sort(s), k);
    }
  }

  lemma TakeIsPart<T>(s: seq<T>, k: nat)
    ensures forall x :: x in Take(s, k) ==> x in s
  {
  }

  lemma KeysOnly(rs: seq<SearchResult>, ks: seq<Keyed<SearchResult>>)
    requires forall x :: x in ks ==> x in multiset(Keys(rs))
    ensures Keys(Values(ks)) == ks
  {
    forall i | 0 <= i < |ks|
      ensures ks[i].key == ks[i].value.score
    {
      assert ks[i] in multiset(Keys(rs));
      assert ks[i] in Keys(rs);
    }
  }

  lemma {:induction false} WithKeyConcat<T>(a: seq<Keyed<T>>, b: seq<Keyed<T>>, key: real)
    ensures WithKey(a + b, key) == WithKey(a, key) + WithKey(b, key)
  {
    if a == [] {
      assert a + b == b;
      assert [] + WithKey(b, key) == WithKey(b, key);
    } else {
      assert (a + b)[0] == a[0] && (a + b)[1..] == a[1..] + b;
      WithKeyConcat(a[1..], b, key);
      var first := if a[0].key == key then [a[0]] else [];
      assert first + (WithKey(a[1..], key) + WithKey(b, key)) == first + WithKey(a[1..], key) + WithKey(b, key);
    }
  }

  /** Results with equal scores come in the order of their targets, and within a target in the order of its answer; when
      not all of them are among the first k, the first of them are. */
  lemma MergeKeepsTieOrder(lists: seq<seq<SearchResult>>, k: nat, score: real)
    ensures WithKey(Keys(Merged(lists, k)), score) <= WithKey(Keys(Flatten(lists)), score)
  {
    hide Sort, Keys, WithKey;
    var s := Keys(Flatten(lists));
    SortPermutesAndSorts(s);
    KeysOnly(Flatten(lists), Take(Sort(s), k)) by {
      TakeIsPart(Sort(s), k);
    }
    SortIsStable(s, score);
    assert Sort(s) == Take(Sort(s), k) + Sort(s)[|Take(Sort(s), k)|..];
    WithKeyConcat(Take(Sort(s), k), Sort(s)[|Take(Sort(s), k)|..], score);
  }

  /** What it is to be the best: in order of score, as many as there are up to k, taken from what there is, and none of
      those left out scores lower than one that is in. */
  lemma BestOfMeans(list: seq<SearchResult>, full: seq<SearchResult>, k: nat)
    requires BestOf(list, full, k)
    ensures |list| == if |full| <= k then |full| else k
    ensures forall i, j :: 0 <= i < j < |list| ==> list[i].score <= list[j].score
    ensures multiset(Keys(list)) <= multiset(Keys(full))
    ensures forall r, x :: r in multiset(Keys(full)) - multiset(Keys(list)) && x in list ==> x.score <= r.key
  {
    hide Sort;
    var s := Sort(Keys(full));
    SortPermutesAndSorts(Keys(full));
    LeftOutIsNoBetter(s, k);
    forall r, x | r in multiset(Keys(full)) - multiset(Keys(list)) && x in list
      ensures x.score <= r.key
    {
      var i :| 0 <= i < |list| && list[i] == x;
      assert Keys(list)[i] == Keyed(x.score, x);
      assert Keyed(x.score, x) in Take(s, k);
    }
    forall i, j | 0 <= i < j < |list|
      ensures list[i].score <= list[j].score
    {
      assert s[i].key <= s[j].key;
      assert Keys(list)[i] == s[i] && Keys(list)[j] == s[j];
    }
  }

  lemma LeftOutIsNoBetter<T>(s: seq<Keyed<T>>, k: nat)
    requires Sorted(s)
    ensures multiset(Take(s, k)) <= multiset(s)
    ensures forall r, x :: r in multiset(s) - multiset(Take(s, k)) && x in Take(s, k) ==> x.key <= r.key
  {
    if |s| > k {
      assert s == s[..k] + s[k..];
      assert multiset(s) == multiset(s[..k]) + multiset(s[k..]);
      forall r, x | r in multiset(s) - multiset(Take(s, k)) && x in Take(s, k)
        ensures x.key <= r.key
      {
        assert r in s[k..];
        var j :| 0 <= j < |s[k..]| && s[k..][j] == r;
        var i :| 0 <= i < k && s[i] == x;
        assert s[k + j] == r;
      }
    }
  }

  // ---------------------------------------------------------------- through the cache

  /** Targets are named by their place in the list. */
  predicate Places(order: seq<nat>, n: nat) {
    forall i :: 0 <= i < |order| ==> order[i] < n
  }

  /** Searching some of the targets, one whole search after the other, in the given order. */
  function SearchedIn(cfg: Config, mode: Consistency, bs: Backends, s: CacheState, targets: seq<Key>, order: seq<nat>,
                      query: Vector, k: nat, rerank: Option<nat>, now: int): map<nat, Answer>
    requires Places(order, |targets|)
    decreases |order|
  {
    if order == [] then map[]
    else
      var (s1, answer) := SearchedOne(cfg, mode, bs, s, targets[order[0]], query, k, rerank, now);
      SearchedIn(cfg, mode, bs, s1, targets, order[1..], query, k, rerank, now)[order[0] := answer]
  }

  /** All answers in the order of the targets, if all are there and none is an error; else some error. */
  ghost predicate Collected(answers: map<nat, Answer>, n: nat, r: Result<seq<seq<SearchResult>>, Error>) {
    match r
    case Ok(lists) => |lists| == n && forall i: nat :: i < n ==> i in answers && answers[i] == Ok(lists[i])
    case Err(e) => exists i :: i in answers && answers[i] == Err(e)
  }

  /** The searches run in parallel, that is, in some order, and may stop at a failure. */
  ghost predicate SearchedAll(cfg: Config, mode: Consistency, bs: Backends, s: CacheState, targets: seq<Key>,
                              query: Vector, k: nat, rerank: Option<nat>, now: int,
                              r: Result<seq<seq<SearchResult>>, Error>)
  {
    exists order: seq<nat> :: Places(order, |targets|)
      && Collected(SearchedIn(cfg, mode, bs, s, targets, order, query, k, rerank, now), |targets|, r)
  }

  predicate AreDirect(cfg: Config, bs: Backends, targets: seq<Key>, query: Vector, k: nat, rerank: Option<nat>,
                      answers: map<nat, Answer>)
  {
    forall i :: i in answers ==> i < |targets| && answers[i] == Direct(cfg, bs, targets[i], query, k, rerank)
  }

  /** In whatever order the targets are searched, each is answered as its current data would be. */
  lemma {:induction false} SearchedInIsDirect(cfg: Config, past: seq<LakeState>, targets: seq<Key>, order: seq<nat>,
                                              query: Vector, k: nat, rerank: Option<nat>)
    requires past != [] && LakeInv(cfg, past) && Coherent(History(past)) && Places(order, |targets|)
    ensures
      var s := Last(past);
      AreDirect(cfg, s.backends, targets, query, k, rerank,
                SearchedIn(cfg, Fresh, s.backends, s.cache, targets, order, query, k, rerank, s.now))
    decreases |order|
  {
    var s := Last(past);
    hide SearchedOne, Direct, LakeInv, Coherent;
    if order != [] {
      var s' := OneSearch(cfg, past, targets[order[0]], query, k, rerank);
      assert Last(past + [s']) == s';
      PauseIsCoherent(past, s');
      SearchedInIsDirect(cfg, past + [s'], targets, order[1..], query, k, rerank);
    }
  }

  /** Time spent without any change to the backends is as coherent as the history was. */
  lemma PauseIsCoherent(past: seq<LakeState>, s: LakeState)
    requires past != [] && Coherent(History(past)) && s.backends == Last(past).backends
    ensures Coherent(History(past + [s]))
  {
    hide Coherent;
    var at: seq<nat> := seq(|past| + 1, i requires 0 <= i <= |past| => if i < |past| then i else |past| - 1);
    assert Visits(History(past + [s]), History(past), at);
    FollowsCoherent(History(past + [s]), History(past));
  }

  lemma NextOfSearch(cfg: Config, mode: Consistency, s: LakeState, key: Key, query: Vector, k: nat, rerank: Option<nat>)
    ensures
      var e := Event.Search(key, query, k, rerank);
      && BackendsAfter(s.backends, e) == s.backends
      && Next(cfg, mode, s, e)
         == LakeState(s.backends, SearchedOne(cfg, mode, s.backends, s.cache, key, query, k, rerank, s.now).0, s.now)
  {
    hide SearchedOne;
  }

  lemma OneSearch(cfg: Config, past: seq<LakeState>, key: Key, query: Vector, k: nat, rerank: Option<nat>)
    returns (s': LakeState)
    requires past != [] && LakeInv(cfg, past) && Coherent(History(past))
    ensures LakeInv(cfg, past + [s'])
    ensures
      var s := Last(past);
      && s'.backends == s.backends && s'.now == s.now
      && SearchedOne(cfg, Fresh, s.backends, s.cache, key, query, k, rerank, s.now)
         == (s'.cache, Direct(cfg, s.backends, key, query, k, rerank))
  {
    var s, e := Last(past), Event.Search(key, query, k, rerank);
    hide SearchedOne, Direct, LakeInv, Coherent, Honest, Next, BackendsAfter;
    s' := Next(cfg, Fresh, s, e);
    NextOfSearch(cfg, Fresh, s, key, query, k, rerank);
    FreshAnswer(cfg, past, key, query, k, rerank);
    StepKeepsLakeInv(cfg, Fresh, past, e);
  }

  /** What one collection holds, all of it scored against the query; the index finds the best k of it exactly. */
  ghost predicate Exact(cfg: Config, bs: Backends, targets: seq<Key>, query: Vector, k: nat, rerank: Option<nat>,
                        fulls: seq<seq<SearchResult>>)
  {
    && |fulls| == |targets|
    && forall i :: 0 <= i < |targets| ==> ExactAt(cfg, bs, targets[i], query, k, rerank, fulls[i])
  }

  predicate ExactAt(cfg: Config, bs: Backends, target: Key, query: Vector, k: nat, rerank: Option<nat>,
                    full: seq<SearchResult>)
  {
    var answer := Direct(cfg, bs, target, query, k, rerank);
    answer.Ok? && BestOf(answer.value, full, k)
  }

  /** In every run under Fresh a federated search gives, target by target, what an index built from the current data
      would, or fails as one of them would. */
  lemma FederatedIsDirect(cfg: Config, past: seq<LakeState>, events: seq<Event>, targets: seq<Key>, query: Vector,
                          k: nat, rerank: Option<nat>, r: Result<seq<seq<SearchResult>>, Error>)
    requires IsRun(cfg, Fresh, past, events) && Coherent(History(past))
    requires SearchedAll(cfg, Fresh, Last(past).backends, Last(past).cache, targets, query, k, rerank, Last(past).now, r)
    ensures r.Ok? ==>
      && |r.value| == |targets|
      && forall i :: 0 <= i < |targets| ==>
           Direct(cfg, Last(past).backends, targets[i], query, k, rerank) == Ok(r.value[i])
    ensures r.Err? ==>
      exists i :: 0 <= i < |targets| && Direct(cfg, Last(past).backends, targets[i], query, k, rerank) == Err(r.error)
  {
    hide LakeInv, Coherent, SearchedIn, Direct;
    RunKeepsLakeInv(cfg, Fresh, past, events);
    var s := Last(past);
    var order: seq<nat> :| Places(order, |targets|) && Collected(
      SearchedIn(cfg, Fresh, s.backends, s.cache, targets, order, query, k, rerank, s.now), |targets|, r);
    SearchedInIsDirect(cfg, past, targets, order, query, k, rerank);
    var answers := SearchedIn(cfg, Fresh, s.backends, s.cache, targets, order, query, k, rerank, s.now);
    assert Collected(answers, |targets|, r);
    CollectedIsDirect(cfg, s.backends, targets, query, k, rerank, answers, r);
  }

  lemma CollectedIsDirect(cfg: Config, bs: Backends, targets: seq<Key>, query: Vector, k: nat, rerank: Option<nat>,
                          answers: map<nat, Answer>, r: Result<seq<seq<SearchResult>>, Error>)
    requires Collected(answers, |targets|, r)
    requires AreDirect(cfg, bs, targets, query, k, rerank, answers)
    ensures r.Ok? ==>
      && |r.value| == |targets|
      && forall i :: 0 <= i < |targets| ==> Direct(cfg, bs, targets[i], query, k, rerank) == Ok(r.value[i])
    ensures r.Err? ==>
      exists i :: 0 <= i < |targets| && Direct(cfg, bs, targets[i], query, k, rerank) == Err(r.error)
  {
    hide Direct;
    if r.Ok? {
      forall i: nat | i < |targets|
        ensures Direct(cfg, bs, targets[i], query, k, rerank) == Ok(r.value[i])
      {
        assert i in answers;
      }
    }
  }

  /** In every run under Fresh, if each collection's index is exact, a federated search returns the best k of all the
      vectors in all the collections as they are now, in whatever order the targets are searched. */
  lemma FederatedIsGlobalBest(cfg: Config, past: seq<LakeState>, events: seq<Event>, targets: seq<Key>, query: Vector,
                              k: nat, bonus: nat, rerank: Option<nat>, fulls: seq<seq<SearchResult>>,
                              r: Result<seq<seq<SearchResult>>, Error>)
    requires IsRun(cfg, Fresh, past, events) && Coherent(History(past)) && k < 0x1_0000_0000_0000_0000
    requires Exact(cfg, Last(past).backends, targets, query, OverRequestK(k, |targets|, bonus), rerank, fulls)
    requires SearchedAll(cfg, Fresh, Last(past).backends, Last(past).cache, targets, query,
                         OverRequestK(k, |targets|, bonus), rerank, Last(past).now, r)
    ensures r.Ok? && BestOf(Merged(r.value, k), Flatten(fulls), k)
  {
    hide Next, Coherent, SearchedAll, Direct, BestOf, Merged, OverRequestK;
    var kk := OverRequestK(k, |targets|, bonus);
    FederatedIsDirect(cfg, past, events, targets, query, kk, rerank, r);
    assert forall i :: 0 <= i < |targets| ==>
      ExactAt(cfg, Last(past).backends, targets[i], query, kk, rerank, fulls[i]);
    MergedIsGlobalBest(r.value, fulls, k, bonus);
  }
}
