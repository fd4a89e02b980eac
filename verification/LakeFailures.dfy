/** What happens when two searches race, and how long a key that lost its entry goes on failing. */
module LakeFailures {
  import opened Backend
  import opened Bundle
  import opened Bytes
  import opened Cache
  import opened Lake
  import opened Wrappers

  predicate Dangling(s: CacheState, key: Key, w: Witness) {
    key in s.pointers && s.pointers[key] == w && w !in s.entries
  }

  // ---------------------------------------------------------------- how a key comes to dangle

  /** Two searches of one key that both miss before either primes: the second priming deletes what the first one built,
      and leaves the key dangling, if and only if nobody else had the entry. */
  lemma RacingMissesDangleExactlyWhen(cfg: Config, s: CacheState, key: Key, w: Witness, b: PulledBatch, now: int)
    requires Inv(s) && !(key in s.pointers && s.pointers[key] == w) && !Saturated(s, key, w)
    requires ValidBatch(b) && cfg.accepts(IndexOf(cfg, b))
    ensures Primed(cfg, s, key, w, b, now).Ok?
    ensures
      var s1 := Primed(cfg, s, key, w, b, now).value;
      Primed(cfg, s1, key, w, b, now).Ok?
      && (Dangling(Primed(cfg, s1, key, w, b, now).value, key, w) <==> w !in s.entries)
  {
    hide ValidBatch, Inv, StatsMatch, PointerInstalled;
    var s1 := Primed(cfg, s, key, w, b, now).value;
    PrimedKeepsInv(cfg, s, key, w, b, now);
    PrimedKeys(cfg, s, key, w, b, now);
    InvKeys(s);
    InvKeys(s1);
    HolderCounts(s, s1, key, w);
    if HoldsAlone(s1, key, w) {
      ReinstallDangles(s1, key, w, true, now);
    } else {
      PrimedKeepsInv(cfg, s1, key, w, b, now);
      PrimedKeys(cfg, s1, key, w, b, now);
      InvKeys(Primed(cfg, s1, key, w, b, now).value);
    }
  }

  lemma HolderCounts(s: CacheState, s1: CacheState, key: Key, w: Witness)
    requires Inv(s) && Inv(s1) && !(key in s.pointers && s.pointers[key] == w) && s1.pointers == s.pointers[key := w]
    ensures HoldsAlone(s1, key, w) <==> w !in s.entries
  {
    hide StatsMatch;
    assert Holders(s1, w) == Holders(s, w) + {key};
    assert |Holders(s1, w)| == |Holders(s, w)| + 1;
    if w !in s.entries {
      assert Holders(s, w) == {};
    } else {
      assert w !in Unpinned(s);
    }
  }

  // ---------------------------------------------------------------- what a dangling key answers, and for how long

  /** The key points to its data's witness, and there is no entry. */
  predicate Lost(cfg: Config, s: LakeState, key: Key) {
    Stored(s.backends, key) && Dangling(s.cache, key, WitnessOf(cfg, Get(s.backends, key)))
  }

  /** A key that points to its data's witness is unknown to a Fresh search exactly when it dangles. */
  lemma UnknownExactlyWhenLost(cfg: Config, s: LakeState, key: Key, query: Vector, k: nat, rerank: Option<nat>)
    requires Stored(s.backends, key) && key in s.cache.pointers
    requires s.cache.pointers[key] == WitnessOf(cfg, Get(s.backends, key))
    ensures
      SearchedOne(cfg, Fresh, s.backends, s.cache, key, query, k, rerank, s.now).1 == Err(UnknownCollection(key))
      <==> Lost(cfg, s, key)
  {
    hide Counted, WitnessOf, IndexAnswer;
    CountedOnlyCounts(s.cache, key, HIT);
    if !Lost(cfg, s, key) {
      var e := s.cache.entries[s.cache.pointers[key]];
      IndexNeverUnknown(cfg, e.index, e.posToId, query, k, rerank, key);
    }
  }

  lemma {:induction false} FoundIdsError(hits: seq<(nat, real)>, posToId: seq<u64>)
    ensures FoundIds(hits, posToId).Err? ==> FoundIds(hits, posToId).error == Panic
  {
    if hits != [] {
      FoundIdsError(hits[1..], posToId);
    }
  }

  lemma IndexNeverUnknown(cfg: Config, index: Index, posToId: seq<u64>, query: Vector, k: nat, rerank: Option<nat>,
                          key: Key)
    ensures IndexAnswer(cfg, index, posToId, query, k, rerank) != Err(UnknownCollection(key))
  {
    match cfg.search(index, query, k, rerank)
    case None =>
    case Some(hits) => FoundIdsError(hits, posToId);
  }

  /** What ends it: invalidating the key, a change of its witness, or another key that builds the same entry. */
  predicate Heals(cfg: Config, s: LakeState, key: Key, e: Event)
    requires Stored(s.backends, key)
  {
    var w := WitnessOf(cfg, Get(s.backends, key));
    match e
    case Invalidate(other) => other == key
    case Search(other, _, _, _) =>
      && Stored(s.backends, other) && WitnessOf(cfg, Get(s.backends, other)) == w
      && !(other in s.cache.pointers && s.cache.pointers[other] == w)
      && ValidBatch(Pulled(Get(s.backends, other))) && cfg.accepts(IndexOf(cfg, Pulled(Get(s.backends, other))))
    case Pass(_) => false
    case _ =>
      var bs := BackendsAfter(s.backends, e);
      !Stored(bs, key) || WitnessOf(cfg, Get(bs, key)) != w
  }

  lemma LostUntilHealed(cfg: Config, s: LakeState, key: Key, e: Event)
    requires Lost(cfg, s, key)
    ensures Lost(cfg, Next(cfg, Fresh, s, e), key) <==> !Heals(cfg, s, key, e)
  {
    hide WitnessOf, SearchedOne, Counted, ValidBatch;
    match e
    case Search(other, query, k, rerank) => SearchHeals(cfg, s, key, other, query, k, rerank);
    case Invalidate(other) =>
      CountedOnlyCounts(Unpointed(s.cache, other), other, INVALIDATION);
    case _ =>
  }

  lemma SearchHeals(cfg: Config, s: LakeState, key: Key, other: Key, query: Vector, k: nat, rerank: Option<nat>)
    requires Lost(cfg, s, key)
    ensures
      var w, e := WitnessOf(cfg, Get(s.backends, key)), Event.Search(other, query, k, rerank);
      Dangling(SearchedOne(cfg, Fresh, s.backends, s.cache, other, query, k, rerank, s.now).0, key, w)
      <==> !Heals(cfg, s, key, e)
  {
    hide WitnessOf, EnsuredFresh, Searched, Heals;
    SearchIsCheckThenCached(cfg, Fresh, s.backends, s.cache, other, query, k, rerank, s.now);
    var s1 := EnsuredFresh(cfg, Fresh, s.backends, s.cache, other, s.now).0;
    SearchAddsNoEntry(cfg, s1, other, query, k, rerank, s.now);
    CheckHeals(cfg, s, key, other, query, k, rerank);
  }

  lemma SearchAddsNoEntry(cfg: Config, s: CacheState, key: Key, query: Vector, k: nat, rerank: Option<nat>, now: int)
    ensures
      var s' := Searched(cfg, s, key, query, k, rerank, now).0;
      s'.pointers == s.pointers && s'.entries.Keys == s.entries.Keys
  {
    hide IndexAnswer;
  }

  lemma CheckHeals(cfg: Config, s: LakeState, key: Key, other: Key, query: Vector, k: nat, rerank: Option<nat>)
    requires Lost(cfg, s, key)
    ensures
      var w, e := WitnessOf(cfg, Get(s.backends, key)), Event.Search(other, query, k, rerank);
      Dangling(EnsuredFresh(cfg, Fresh, s.backends, s.cache, other, s.now).0, key, w) <==> !Heals(cfg, s, key, e)
  {
    hide WitnessOf, Counted, ValidBatch, Primed;
    CountedOnlyCounts(s.cache, other, HIT);
    CountedOnlyCounts(s.cache, other, MISS);
    if Stored(s.backends, other) {
      var w', s1 := WitnessOf(cfg, Get(s.backends, other)), Counted(s.cache, other, MISS);
      if !(other in s1.pointers && s1.pointers[other] == w') {
        PrimedEntries(cfg, s1, other, w', Pulled(Get(s.backends, other)), s.now, WitnessOf(cfg, Get(s.backends, key)));
      }
    }
  }

  /** Priming adds an entry for its own witness only. */
  lemma PrimedEntries(cfg: Config, s: CacheState, key: Key, w: Witness, b: PulledBatch, now: int, lost: Witness)
    requires lost !in s.entries && !(key in s.pointers && s.pointers[key] == w)
    ensures
      var r := Primed(cfg, s, key, w, b, now);
      && (w == lost ==> (r.Ok? <==> ValidBatch(b) && cfg.accepts(IndexOf(cfg, b))))
      && (r.Ok? ==> r.value.pointers == s.pointers[key := w] && (lost in r.value.entries <==> w == lost))
  {
    hide ValidBatch, PointerInstalled, Counted;
    var before := BeforeInstall(cfg, s, key, w, b, now);
    CountedOnlyCounts(WithEntry(s, w, NewEntry(IndexOf(cfg, b), Some(b.generation), b.ids, now)), key, PRIME);
    InstallKeys(before, key, w, w in s.entries, now);
    InstallAddsNothing(before, key, w, w in s.entries, now);
    InstalledStays(before, key, w, w in s.entries, now);
  }

  lemma InstalledStays(s: CacheState, key: Key, w: Witness, shared: bool, now: int)
    requires w in s.entries && !(key in s.pointers && s.pointers[key] == w)
    ensures w in PointerInstalled(s, key, w, shared, now).entries
  {
    hide Counted, Released;
    InstallKeys(s, key, w, shared, now);
    ReleasedKeys(s, key);
  }

  ghost predicate Goes(cfg: Config, past: seq<LakeState>, events: seq<Event>) {
    |past| == |events| + 1 && forall i :: 0 <= i < |events| ==> past[i + 1] == Next(cfg, Fresh, past[i], events[i])
  }

  /** Through any events that do not heal it, a lost key stays lost: at every time of it a Fresh search fails, however
      often the key was searched before. */
  lemma {:induction false} LostStaysLost(cfg: Config, past: seq<LakeState>, events: seq<Event>, key: Key, query: Vector,
                                         k: nat, rerank: Option<nat>)
    requires Goes(cfg, past, events) && Lost(cfg, past[0], key)
    requires forall i :: 0 <= i < |events| && Lost(cfg, past[i], key) ==> !Heals(cfg, past[i], key, events[i])
    ensures
      forall i :: 0 <= i < |past| ==>
        Lost(cfg, past[i], key) &&
        SearchedOne(cfg, Fresh, past[i].backends, past[i].cache, key, query, k, rerank, past[i].now).1
        == Err(UnknownCollection(key))
    decreases |events|
  {
    hide Lost, Heals, Next, SearchedOne;
    var n := |events|;
    if n > 0 {
      LostStaysLost(cfg, past[..n], events[..n - 1], key, query, k, rerank);
      assert past[..n][n - 1] == past[n - 1];
      LostUntilHealed(cfg, past[n - 1], key, events[n - 1]);
    }
    LostIsUnknown(cfg, past[n], key, query, k, rerank);
    forall i | 0 <= i < |past|
      ensures Lost(cfg, past[i], key) &&
        SearchedOne(cfg, Fresh, past[i].backends, past[i].cache, key, query, k, rerank, past[i].now).1
        == Err(UnknownCollection(key))
    {
      assert i < n ==> past[..n][i] == past[i];
    }
  }

  lemma LostIsUnknown(cfg: Config, s: LakeState, key: Key, query: Vector, k: nat, rerank: Option<nat>)
    requires Lost(cfg, s, key)
    ensures
      SearchedOne(cfg, Fresh, s.backends, s.cache, key, query, k, rerank, s.now).1 == Err(UnknownCollection(key))
  {
    hide SearchedOne, WitnessOf;
    UnknownExactlyWhenLost(cfg, s, key, query, k, rerank);
  }
}
