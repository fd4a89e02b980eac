/** What a search is for: what it returns, said without the cache, and when it asks the backend at all. */
module LakeAnswers {
  import opened Backend
  import opened Bundle
  import opened Bytes
  import opened Cache
  import opened Lake
  import Nearest
  import opened Wrappers

  // ---------------------------------------------------------------- a search and the library

  /** The i-th result is the i-th hit, under the id of its position and the names that were searched. */
  predicate ResultsOfHits(key: Key, ids: seq<u64>, hits: seq<(nat, real)>, results: seq<SearchResult>) {
    && |results| == |hits|
    && forall i :: 0 <= i < |hits| ==>
         && hits[i].0 < |ids|
         && results[i] == SearchResult(key.backend, key.collection, ids[hits[i].0], hits[i].1)
  }

  /** The answer for what the backends hold: the library indexes the collection's vectors under the configured seed and
      rerank factor and is asked for the k nearest; its hits are returned in order. */
  predicate IsAnswer(cfg: Config, bs: Backends, key: Key, query: Vector, k: nat, rerank: Option<nat>, answer: Answer) {
    if key.backend !in bs then answer == Err(UnknownBackend(key.backend))
    else if key.collection !in bs[key.backend] then answer == Err(UnknownCollection(key))
    else
      var c := bs[key.backend][key.collection];
      var index := Index(c.dim, cfg.rotationSeed, cfg.rerankFactor, c.vectors);
      if |c.ids| != |c.vectors| || |c.ids| > 100_000_000 || c.dim == 0 || c.dim > 8192
         || |c.ids| * c.dim * 4 > 17_179_869_184
      then answer == Err(InvalidParameter)
      else if !cfg.accepts(index) then answer == Err(IndexError)
      else if |query| != c.dim then answer == Err(DimensionMismatch(c.dim, |query|))
      else match cfg.search(index, query, k, rerank)
        case None => answer == Err(IndexError)
        case Some(hits) =>
          if exists i :: 0 <= i < |hits| && hits[i].0 >= |c.ids| then answer == Err(Panic)
          else answer.Ok? && ResultsOfHits(key, c.ids, hits, answer.value)
  }

  lemma FoundAreResults(key: Key, hits: seq<(nat, real)>, ids: seq<u64>)
    ensures
      var r := FoundIds(hits, ids);
      if exists i :: 0 <= i < |hits| && hits[i].0 >= |ids| then r == Err(Panic)
      else r.Ok? && Labelled(key, r).Ok? && ResultsOfHits(key, ids, hits, Labelled(key, r).value)
  {
    FoundIdsExactly(hits, ids);
    FoundIdsPanics(hits, ids);
  }

  lemma {:induction false} FoundIdsPanics(hits: seq<(nat, real)>, ids: seq<u64>)
    ensures FoundIds(hits, ids).Err? ==> FoundIds(hits, ids) == Err(Panic)
  {
    if hits != [] {
      FoundIdsPanics(hits[1..], ids);
    }
  }

  lemma DirectIsAnswer(cfg: Config, bs: Backends, key: Key, query: Vector, k: nat, rerank: Option<nat>)
    ensures IsAnswer(cfg, bs, key, query, k, rerank, Direct(cfg, bs, key, query, k, rerank))
  {
    if key.backend in bs && key.collection in bs[key.backend] {
      var c := bs[key.backend][key.collection];
      hide FoundIds, ResultsOfHits;
      match cfg.search(IndexOf(cfg, Pulled(c)), query, k, rerank)
      case None =>
      case Some(hits) => FoundAreResults(key, hits, c.ids);
    }
  }

  /** In every run under Fresh, hit, shared or primed: a search asks the library for the k nearest in an index of the
      collection as it is, and returns exactly what that finds, in order, or fails for one of the stated reasons. */
  lemma FreshSearchMeans(cfg: Config, past: seq<LakeState>, events: seq<Event>, key: Key, query: Vector, k: nat,
                         rerank: Option<nat>)
    requires IsRun(cfg, Fresh, past, events) && Coherent(History(past))
    ensures
      var s := Last(past);
      IsAnswer(cfg, s.backends, key, query, k, rerank,
               SearchedOne(cfg, Fresh, s.backends, s.cache, key, query, k, rerank, s.now).1)
  {
    hide Coherent, Direct, SearchedOne, IsAnswer;
    FreshIsTransparent(cfg, past, events, key, query, k, rerank);
    DirectIsAnswer(cfg, Last(past).backends, key, query, k, rerank);
  }

  // ---------------------------------------------------------------- with an exact library

  predicate SameLength(vectors: seq<Vector>, query: Vector) {
    forall i :: 0 <= i < |vectors| ==> |vectors[i]| == |query|
  }

  /** at are the places of the k nearest of the vectors, or of all when there are fewer, nearest first. */
  predicate NearestAt(vectors: seq<Vector>, query: Vector, k: nat, at: seq<nat>)
    requires SameLength(vectors, query)
  {
    && |at| == (if k < |vectors| then k else |vectors|)
    && (forall i :: 0 <= i < |at| ==> at[i] < |vectors|)
    && (forall i, j :: 0 <= i < j < |at| ==>
          && at[i] != at[j]
          && Nearest.SquaredDistance(vectors[at[i]], query) <= Nearest.SquaredDistance(vectors[at[j]], query))
    && (forall i, p :: 0 <= i < |at| && 0 <= p < |vectors| && p !in at ==>
          Nearest.SquaredDistance(vectors[at[i]], query) <= Nearest.SquaredDistance(vectors[p], query))
  }

  /** The hits are the k nearest with their distances. */
  ghost predicate ExactHits(vectors: seq<Vector>, query: Vector, k: nat, hits: seq<(nat, real)>)
    requires SameLength(vectors, query)
  {
    exists at: seq<nat> :: NearestAt(vectors, query, k, at) && |hits| == |at| && HitsAt(vectors, query, at, hits)
  }

  predicate HitsAt(vectors: seq<Vector>, query: Vector, at: seq<nat>, hits: seq<(nat, real)>)
    requires SameLength(vectors, query) && |hits| == |at| && forall i :: 0 <= i < |at| ==> at[i] < |vectors|
  {
    forall i :: 0 <= i < |hits| ==> hits[i] == (at[i], Nearest.SquaredDistance(vectors[at[i]], query))
  }

  /** The ids and distances of the vectors at these places. */
  predicate ResultsAt(key: Key, c: Collection, query: Vector, at: seq<nat>, results: seq<SearchResult>)
    requires SameLength(c.vectors, query) && |c.ids| == |c.vectors| && forall i :: 0 <= i < |at| ==> at[i] < |c.ids|
  {
    && |results| == |at|
    && forall i :: 0 <= i < |at| ==>
         results[i] == SearchResult(key.backend, key.collection, c.ids[at[i]],
                                    Nearest.SquaredDistance(c.vectors[at[i]], query))
  }

  /** The collection can be indexed, and the library is exact on it for this search. */
  ghost predicate LibraryIsExact(cfg: Config, c: Collection, query: Vector, k: nat, rerank: Option<nat>) {
    && ValidBatch(Pulled(c)) && |query| == c.dim && SameLength(c.vectors, query)
    && var index := Index(c.dim, cfg.rotationSeed, cfg.rerankFactor, c.vectors);
       && cfg.accepts(index) && cfg.search(index, query, k, rerank).Some?
       && ExactHits(c.vectors, query, k, cfg.search(index, query, k, rerank).value)
  }

  ghost predicate FindsNearest(key: Key, c: Collection, query: Vector, k: nat, at: seq<nat>, answer: Answer) {
    && |c.ids| == |c.vectors| && SameLength(c.vectors, query) && NearestAt(c.vectors, query, k, at)
    && answer.Ok? && ResultsAt(key, c, query, at, answer.value)
  }

  lemma AnswerOfExact(cfg: Config, bs: Backends, key: Key, query: Vector, k: nat, rerank: Option<nat>, answer: Answer)
    returns (at: seq<nat>)
    requires Stored(bs, key) && IsAnswer(cfg, bs, key, query, k, rerank, answer)
    requires LibraryIsExact(cfg, Get(bs, key), query, k, rerank)
    ensures FindsNearest(key, Get(bs, key), query, k, at, answer)
  {
    var c := Get(bs, key);
    var hits := cfg.search(Index(c.dim, cfg.rotationSeed, cfg.rerankFactor, c.vectors), query, k, rerank).value;
    at :| NearestAt(c.vectors, query, k, at) && |hits| == |at| && HitsAt(c.vectors, query, at, hits);
    assert forall i :: 0 <= i < |hits| ==> hits[i].0 == at[i];
  }

  /** If the library is exact on the collection as it is, a Fresh search returns the k nearest of its vectors, for every k:
      their ids and distances, nearest first. */
  lemma FreshSearchFindsNearest(cfg: Config, past: seq<LakeState>, events: seq<Event>, key: Key, query: Vector, k: nat,
                                rerank: Option<nat>) returns (at: seq<nat>)
    requires IsRun(cfg, Fresh, past, events) && Coherent(History(past))
    requires Stored(Last(past).backends, key) && LibraryIsExact(cfg, Get(Last(past).backends, key), query, k, rerank)
    ensures
      var s := Last(past);
      FindsNearest(key, Get(s.backends, key), query, k, at,
                   SearchedOne(cfg, Fresh, s.backends, s.cache, key, query, k, rerank, s.now).1)
  {
    hide Coherent, SearchedOne, IsAnswer, LibraryIsExact, FindsNearest;
    FreshSearchMeans(cfg, past, events, key, query, k, rerank);
    var s := Last(past);
    at := AnswerOfExact(cfg, s.backends, key, query, k, rerank,
                        SearchedOne(cfg, Fresh, s.backends, s.cache, key, query, k, rerank, s.now).1);
  }

  // ---------------------------------------------------------------- when the backend is asked

  /** What a check does is the same whatever the backends hold, if and only if a Frozen cache knows the key, or an Eventual
      one checked it less than the time to live ago. Otherwise a check that succeeds is remembered as made now. */
  lemma BackendIgnoredExactlyWhen(cfg: Config, mode: Consistency, s: CacheState, key: Key, now: int)
    ensures
      var ignores :=
        || (mode.Frozen? && key in s.pointers)
        || (mode.Eventual? && key in s.lastChecked && now - s.lastChecked[key] < mode.ttlMs);
      && ((forall bs, bs' :: EnsuredFresh(cfg, mode, bs, s, key, now) == EnsuredFresh(cfg, mode, bs', s, key, now))
          <==> ignores)
      && (ignores ==> forall bs :: EnsuredFresh(cfg, mode, bs, s, key, now) == (Counted(s, key, HIT), Ok(())))
      && (!ignores ==> forall bs ::
            var (s', r) := EnsuredFresh(cfg, mode, bs, s, key, now);
            r.Ok? ==> key in s'.lastChecked && s'.lastChecked[key] == now)
  {
    hide WitnessOf, Counted, Primed;
    var none: Backends := map[];
    var empty: Backends := map[key.backend := map[]];
    assert EnsuredFresh(cfg, mode, none, s, key, now) == EnsuredFresh(cfg, mode, empty, s, key, now) ==>
      CanSkipCheck(s, key, mode, now);
    forall bs
      ensures
        var (s', r) := EnsuredFresh(cfg, mode, bs, s, key, now);
        !CanSkipCheck(s, key, mode, now) && r.Ok? ==> key in s'.lastChecked && s'.lastChecked[key] == now
    {
      if Stored(bs, key) {
        var w, s1, b := WitnessOf(cfg, Get(bs, key)), Counted(s, key, MISS), Pulled(Get(bs, key));
        if Primed(cfg, s1, key, w, b, now).Ok? {
          PrimedKeys(cfg, s1, key, w, b, now);
        }
      }
    }
  }
}
