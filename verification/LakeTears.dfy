/** Searches that are torn: the backends change between the moment a check reads a collection's bundle and the moment it
    pulls the vectors. */
module LakeTears {
  import opened Backend
  import opened Bundle
  import opened Bytes
  import opened Cache
  import opened Lake
  import opened LakeFailures
  import opened Wrappers

  /** The check reads the bundle from bs and pulls from bs'. */
  function TornCheck(cfg: Config, bs: Backends, bs': Backends, s: CacheState, key: Key, now: int)
    : (CacheState, Result<(), Error>)
  {
    if key.backend !in bs then (s, Err(UnknownBackend(key.backend)))
    else if key.collection !in bs[key.backend] then (s, Err(UnknownCollection(key)))
    else
      var w := WitnessOf(cfg, Get(bs, key));
      if key in s.pointers && s.pointers[key] == w then (Touched(Counted(s, key, HIT), key, now), Ok(()))
      else
        var s1 := Counted(s, key, MISS);
        if !Stored(bs', key) then (s1, Err(UnknownCollection(key)))
        else
          match Primed(cfg, s1, key, w, Pulled(Get(bs', key)), now)
          case Err(e) => (s1, Err(e))
          case Ok(s2) => (s2, Ok(()))
  }

  function TornSearch(cfg: Config, bs: Backends, bs': Backends, s: CacheState, key: Key, query: Vector, k: nat,
                      rerank: Option<nat>, now: int): (CacheState, Answer)
  {
    var (s1, r) := TornCheck(cfg, bs, bs', s, key, now);
    if r.Err? then (s1, Err(r.error))
    else
      var (s2, hits) := Searched(cfg, s1, key, query, k, rerank, now);
      (s2, Labelled(key, hits))
  }

  /** When nothing changes in between, this is a Fresh search. */
  lemma UntornIsFresh(cfg: Config, bs: Backends, s: CacheState, key: Key, query: Vector, k: nat, rerank: Option<nat>,
                      now: int)
    ensures
      TornSearch(cfg, bs, bs, s, key, query, k, rerank, now)
      == SearchedOne(cfg, Fresh, bs, s, key, query, k, rerank, now)
  {
    hide Primed, Counted, WitnessOf, Searched, Labelled;
  }

  predicate PointsTo(s: CacheState, key: Key, w: Witness) {
    key in s.pointers && s.pointers[key] == w
  }

  // ---------------------------------------------------------------- what a search finds in the cache

  /** What the cache has under the witness of c was built from c, if c can be indexed; and it has it, and c can be, if the
      key points there. */
  predicate KnowsOf(cfg: Config, s: CacheState, key: Key, c: Collection) {
    var w := WitnessOf(cfg, c);
    && (w in s.entries && ValidBatch(Pulled(c)) ==> BuiltFrom(cfg, s.entries[w], c))
    && (PointsTo(s, key, w) ==> w in s.entries && ValidBatch(Pulled(c)))
  }

  /** The search has to use what it pulls, or fails for it. */
  predicate UsesPulled(cfg: Config, bs: Backends, bs': Backends, s: CacheState, key: Key) {
    && Stored(bs, key) && !PointsTo(s, key, WitnessOf(cfg, Get(bs, key)))
    && (WitnessOf(cfg, Get(bs, key)) in s.entries ==> !Stored(bs', key) || !ValidBatch(Pulled(Get(bs', key))))
  }

  /** The entry that a successful priming leaves under its witness. */
  lemma PrimedEntry(cfg: Config, s: CacheState, key: Key, w: Witness, c: Collection, now: int)
    requires !PointsTo(s, key, w)
    ensures
      var r := Primed(cfg, s, key, w, Pulled(c), now);
      && (r.Ok? <==> ValidBatch(Pulled(c)) && (w in s.entries || cfg.accepts(IndexOf(cfg, Pulled(c)))))
      && (r.Err? ==> r.error == if ValidBatch(Pulled(c)) then IndexError else InvalidParameter)
      && (r.Ok? ==>
            && r.value.pointers == s.pointers[key := w]
            && w in r.value.entries
            && (if w in s.entries then SameContents(r.value.entries[w], s.entries[w])
                else BuiltFrom(cfg, r.value.entries[w], c))
            && forall v :: v in r.value.entries && v != w ==>
                 v in s.entries && SameContents(r.value.entries[v], s.entries[v]))
  {
    hide ValidBatch, PointerInstalled, Counted;
    var b := Pulled(c);
    var before := BeforeInstall(cfg, s, key, w, b, now);
    CountedOnlyCounts(WithEntry(s, w, NewEntry(IndexOf(cfg, b), Some(b.generation), b.ids, now)), key, PRIME);
    if ValidBatch(b) && (w in s.entries || cfg.accepts(IndexOf(cfg, b))) {
      InstallKeys(before, key, w, w in s.entries, now);
      InstallAddsNothing(before, key, w, w in s.entries, now);
      InstalledStays(before, key, w, w in s.entries, now);
    }
  }

  lemma SameContentsAnswer(cfg: Config, e: Entry, e': Entry, c: Collection)
    requires SameContents(e, e') && BuiltFrom(cfg, e', c)
    ensures BuiltFrom(cfg, e, c)
  {
    hide ValidBatch, IndexOf;
  }

  lemma TornAnswer(cfg: Config, bs: Backends, bs': Backends, s: CacheState, key: Key, query: Vector, k: nat,
                   rerank: Option<nat>, now: int)
    requires bs.Keys <= bs'.Keys
    requires Stored(bs, key) ==> KnowsOf(cfg, s, key, Get(bs, key))
    requires Stored(bs, key) && !UsesPulled(cfg, bs, bs', s, key) ==> ValidBatch(Pulled(Get(bs, key)))
    ensures
      TornSearch(cfg, bs, bs', s, key, query, k, rerank, now).1
      == Direct(cfg, if UsesPulled(cfg, bs, bs', s, key) then bs' else bs, key, query, k, rerank)
  {
    hide WitnessOf, Counted, Primed, ValidBatch, Searched, IndexAnswer, Labelled, BuiltFrom, IndexOf, CollectionAnswer;
    CountedOnlyCounts(s, key, HIT);
    CountedOnlyCounts(s, key, MISS);
    if Stored(bs, key) {
      var c, w := Get(bs, key), WitnessOf(cfg, Get(bs, key));
      if PointsTo(s, key, w) {
        BuiltFromAnswers(cfg, Touched(Counted(s, key, HIT), key, now), key, c, query, k, rerank, now);
      } else if Stored(bs', key) {
        var s1, c' := Counted(s, key, MISS), Get(bs', key);
        PrimedEntry(cfg, s1, key, w, c', now);
        if Primed(cfg, s1, key, w, Pulled(c'), now).Ok? {
          var s2 := Primed(cfg, s1, key, w, Pulled(c'), now).value;
          if w in s.entries {
            SameContentsAnswer(cfg, s2.entries[w], s.entries[w], c);
            BuiltFromAnswers(cfg, s2, key, c, query, k, rerank, now);
          } else {
            BuiltFromAnswers(cfg, s2, key, c', query, k, rerank, now);
          }
        } else {
          NotIndexed(cfg, key, c', query, k, rerank);
        }
      }
    }
  }

  lemma NotIndexed(cfg: Config, key: Key, c: Collection, query: Vector, k: nat, rerank: Option<nat>)
    requires !ValidBatch(Pulled(c)) || !cfg.accepts(IndexOf(cfg, Pulled(c)))
    ensures
      Labelled(key, CollectionAnswer(cfg, c, query, k, rerank))
      == Err(if ValidBatch(Pulled(c)) then IndexError else InvalidParameter)
  {
    hide ValidBatch, IndexOf, IndexAnswer;
  }

  lemma HonestKnows(cfg: Config, past: seq<LakeState>, s: CacheState, key: Key)
    requires past != [] && Honest(cfg, past, s) && Coherent(History(past)) && Stored(Last(past).backends, key)
    ensures KnowsOf(cfg, s, key, Get(Last(past).backends, key))
  {
    hide Coherent, Inv, AllGenuine, AllChecked, Genuine, BuiltFrom, WitnessOf, ValidBatch;
    var c, i := Get(Last(past).backends, key), |past| - 1;
    var w := WitnessOf(cfg, c);
    InvKeys(s);
    if PointsTo(s, key, w) {
      StillValid(cfg, past, s, key);
    }
    if w in s.entries && ValidBatch(Pulled(c)) {
      GenuineEntry(cfg, past, s, w);
      SameWitnessSameData(cfg, past, i, key, w, s.entries[w]);
    }
  }

  lemma GenuineEntry(cfg: Config, past: seq<LakeState>, s: CacheState, w: Witness)
    requires AllGenuine(cfg, past, s) && w in s.entries
    ensures Genuine(cfg, past, w, s.entries[w])
  {
    hide Genuine;
  }

  /** In every run under Fresh, a search during which the backends change answers from what they held before the change or
      from what they hold after it, and UsesPulled says from which; provided that the collection as it was first could be
      indexed, if it is from the first. */
  lemma TornSearchIsCurrent(cfg: Config, past: seq<LakeState>, events: seq<Event>, bs': Backends, key: Key,
                            query: Vector, k: nat, rerank: Option<nat>)
    requires IsRun(cfg, Fresh, past, events) && Coherent(History(past)) && Last(past).backends.Keys <= bs'.Keys
    requires
      var s := Last(past);
      Stored(s.backends, key) && !UsesPulled(cfg, s.backends, bs', s.cache, key) ==>
        ValidBatch(Pulled(Get(s.backends, key)))
    ensures
      var s := Last(past);
      TornSearch(cfg, s.backends, bs', s.cache, key, query, k, rerank, s.now).1
      == Direct(cfg, if UsesPulled(cfg, s.backends, bs', s.cache, key) then bs' else s.backends, key, query, k, rerank)
  {
    hide Honest, TornSearch, Direct, Coherent, KnowsOf, UsesPulled, ValidBatch;
    var s := Last(past);
    RunKeepsLakeInv(cfg, Fresh, past, events);
    if Stored(s.backends, key) {
      HonestKnows(cfg, past, s.cache, key);
    }
    TornAnswer(cfg, s.backends, bs', s.cache, key, query, k, rerank, s.now);
  }

  // ---------------------------------------------------------------- what a torn search leaves behind

  /** The search builds an entry from what it pulled, under the witness of what was there before. */
  predicate LeavesEntry(cfg: Config, bs: Backends, bs': Backends, s: CacheState, key: Key) {
    && UsesPulled(cfg, bs, bs', s, key) && WitnessOf(cfg, Get(bs, key)) !in s.entries && Stored(bs', key)
    && ValidBatch(Pulled(Get(bs', key))) && cfg.accepts(IndexOf(cfg, Pulled(Get(bs', key))))
  }

  /** A later search is served that entry. */
  predicate Meets(cfg: Config, bs: Backends, key: Key, bs2: Backends, key2: Key)
    requires Stored(bs, key)
  {
    && Stored(bs2, key2) && WitnessOf(cfg, Get(bs2, key2)) == WitnessOf(cfg, Get(bs, key))
    && (key2 == key || ValidBatch(Pulled(Get(bs2, key2))))
  }

  /** The states in which the change and the later search happen. */
  function Then(past: seq<LakeState>, bs': Backends, bs2: Backends): seq<LakeState>
    requires past != []
  {
    past + [Last(past).(backends := bs')] + [Last(past).(backends := bs2)]
  }

  lemma SearchKeepsContents(cfg: Config, s: CacheState, key: Key, query: Vector, k: nat, rerank: Option<nat>, now: int)
    ensures
      var s' := Searched(cfg, s, key, query, k, rerank, now).0;
      && s'.pointers == s.pointers && s'.entries.Keys == s.entries.Keys
      && forall w :: w in s.entries ==> SameContents(s'.entries[w], s.entries[w])
  {
    hide IndexAnswer;
  }

  /** The cache after a torn search that leaves an entry. */
  lemma TornState(cfg: Config, bs: Backends, bs': Backends, s: CacheState, key: Key, query: Vector, k: nat,
                  rerank: Option<nat>, now: int)
    requires LeavesEntry(cfg, bs, bs', s, key)
    ensures
      var t, w := TornSearch(cfg, bs, bs', s, key, query, k, rerank, now).0, WitnessOf(cfg, Get(bs, key));
      && t.pointers == s.pointers[key := w] && w in t.entries && BuiltFrom(cfg, t.entries[w], Get(bs', key))
      && forall v :: v in t.entries && v != w ==> v in s.entries && SameContents(t.entries[v], s.entries[v])
  {
    hide WitnessOf, Counted, Primed, ValidBatch, Searched, Labelled, BuiltFrom, IndexOf;
    CountedOnlyCounts(s, key, MISS);
    var w, c', s1 := WitnessOf(cfg, Get(bs, key)), Get(bs', key), Counted(s, key, MISS);
    PrimedEntry(cfg, s1, key, w, c', now);
    var s2 := Primed(cfg, s1, key, w, Pulled(c'), now).value;
    SearchKeepsContents(cfg, s2, key, query, k, rerank, now);
    var t := Searched(cfg, s2, key, query, k, rerank, now).0;
    SameContentsAnswer(cfg, t.entries[w], s2.entries[w], c');
  }

  /** The cache goes on knowing of every other digest. */
  lemma StillKnows(cfg: Config, past: seq<LakeState>, bs': Backends, bs2: Backends, key: Key, query: Vector, k: nat,
                   rerank: Option<nat>, key2: Key)
    requires LakeInv(cfg, past) && Coherent(History(Then(past, bs', bs2)))
    requires LeavesEntry(cfg, Last(past).backends, bs', Last(past).cache, key)
    requires Stored(bs2, key2) && WitnessOf(cfg, Get(bs2, key2)) != WitnessOf(cfg, Get(Last(past).backends, key))
    ensures
      var s := Last(past);
      KnowsOf(cfg, TornSearch(cfg, s.backends, bs', s.cache, key, query, k, rerank, s.now).0, key2, Get(bs2, key2))
  {
    hide Coherent, Honest, WitnessOf, ValidBatch, BuiltFrom, TornSearch, LeavesEntry;
    var s, past2 := Last(past), Then(past, bs', bs2);
    var t := TornSearch(cfg, s.backends, bs', s.cache, key, query, k, rerank, s.now).0;
    LongerPast(cfg, past, s.(backends := bs'), s.cache);
    LongerPast(cfg, past + [s.(backends := bs')], s.(backends := bs2), s.cache);
    HonestKnows(cfg, past2, s.cache, key2);
    TornState(cfg, s.backends, bs', s.cache, key, query, k, rerank, s.now);
    TornResolves(cfg, past, bs', bs2, key, query, k, rerank);
    var w2 := WitnessOf(cfg, Get(bs2, key2));
    if w2 in t.entries && ValidBatch(Pulled(Get(bs2, key2))) {
      SameContentsAnswer(cfg, t.entries[w2], s.cache.entries[w2], Get(bs2, key2));
    }
  }

  lemma TornResolves(cfg: Config, past: seq<LakeState>, bs': Backends, bs2: Backends, key: Key, query: Vector, k: nat,
                     rerank: Option<nat>)
    requires LakeInv(cfg, past) && Coherent(History(Then(past, bs', bs2)))
    requires LeavesEntry(cfg, Last(past).backends, bs', Last(past).cache, key)
    ensures
      var s := Last(past);
      Resolves(TornSearch(cfg, s.backends, bs', s.cache, key, query, k, rerank, s.now).0)
  {
    hide Coherent, AllGenuine, AllChecked, WitnessOf, ValidBatch, Counted, Primed, Searched, Saturated;
    var s := Last(past);
    var w, s1, b := WitnessOf(cfg, Get(s.backends, key)), Counted(s.cache, key, MISS), Pulled(Get(bs', key));
    assert past == Then(past, bs', bs2)[..|past|];
    PrefixCoherent(Then(past, bs', bs2), |past|);
    CountedStaysHonest(cfg, past, s.cache, key, MISS);
    CountedOnlyCounts(s.cache, key, MISS);
    NeverSaturated(cfg, past, s1, key, w);
    PrimedEntry(cfg, s1, key, w, Get(bs', key), s.now);
    PrimedKeepsInv(cfg, s1, key, w, b, s.now);
    SearchedKeepsInv(cfg, Primed(cfg, s1, key, w, b, s.now).value, key, query, k, rerank, s.now);
  }

  /** A torn search that leaves an entry leaves it under the witness of data that it was not built from. A later Fresh
      search is answered from it if and only if its collection then has that witness and, unless it searches the same
      key, can be indexed; every other search answers from the data of its own time. */
  lemma LeftEntryServedExactlyWhen(cfg: Config, past: seq<LakeState>, events: seq<Event>, bs': Backends, key: Key,
                                   query: Vector, k: nat, rerank: Option<nat>, bs2: Backends, key2: Key, query2: Vector,
                                   k2: nat, rerank2: Option<nat>, now2: int)
    requires IsRun(cfg, Fresh, past, events) && Coherent(History(Then(past, bs', bs2)))
    requires LeavesEntry(cfg, Last(past).backends, bs', Last(past).cache, key)
    ensures
      var s := Last(past);
      var t := TornSearch(cfg, s.backends, bs', s.cache, key, query, k, rerank, s.now).0;
      SearchedOne(cfg, Fresh, bs2, t, key2, query2, k2, rerank2, now2).1
      == if Meets(cfg, s.backends, key, bs2, key2)
         then Labelled(key2, CollectionAnswer(cfg, Get(bs', key), query2, k2, rerank2))
         else Direct(cfg, bs2, key2, query2, k2, rerank2)
  {
    hide Coherent, Inv, AllGenuine, AllChecked, WitnessOf, ValidBatch, BuiltFrom, TornSearch, Searched, SearchedOne,
         Labelled, Direct, CollectionAnswer;
    var s := Last(past);
    var t := TornSearch(cfg, s.backends, bs', s.cache, key, query, k, rerank, s.now).0;
    assert past == Then(past, bs', bs2)[..|past|];
    PrefixCoherent(Then(past, bs', bs2), |past|);
    RunKeepsLakeInv(cfg, Fresh, past, events);
    TornState(cfg, s.backends, bs', s.cache, key, query, k, rerank, s.now);
    UntornIsFresh(cfg, bs2, t, key2, query2, k2, rerank2, now2);
    InvKeys(s.cache);
    if Stored(bs2, key2) && WitnessOf(cfg, Get(bs2, key2)) == WitnessOf(cfg, Get(s.backends, key)) {
      ServedFrom(cfg, bs2, t, key2, Get(bs', key), query2, k2, rerank2, now2);
    } else {
      if Stored(bs2, key2) {
        StillKnows(cfg, past, bs', bs2, key, query, k, rerank, key2);
      }
      TornAnswer(cfg, bs2, bs2, t, key2, query2, k2, rerank2, now2);
    }
  }

  lemma ServedFrom(cfg: Config, bs: Backends, s: CacheState, key: Key, c: Collection, query: Vector, k: nat,
                   rerank: Option<nat>, now: int)
    requires Stored(bs, key)
    requires
      var w := WitnessOf(cfg, Get(bs, key));
      w in s.entries && BuiltFrom(cfg, s.entries[w], c)
    ensures
      SearchedOne(cfg, Fresh, bs, s, key, query, k, rerank, now).1
      == if PointsTo(s, key, WitnessOf(cfg, Get(bs, key))) || ValidBatch(Pulled(Get(bs, key)))
         then Labelled(key, CollectionAnswer(cfg, c, query, k, rerank))
         else Direct(cfg, bs, key, query, k, rerank)
  {
    hide WitnessOf, Counted, Primed, ValidBatch, Searched, BuiltFrom, IndexOf, CollectionAnswer, Labelled;
    CountedOnlyCounts(s, key, HIT);
    CountedOnlyCounts(s, key, MISS);
    var w, s1 := WitnessOf(cfg, Get(bs, key)), Counted(s, key, MISS);
    if PointsTo(s, key, w) {
      BuiltFromAnswers(cfg, Touched(Counted(s, key, HIT), key, now), key, c, query, k, rerank, now);
    } else {
      PrimedEntry(cfg, s1, key, w, Get(bs, key), now);
      if ValidBatch(Pulled(Get(bs, key))) {
        var s2 := Primed(cfg, s1, key, w, Pulled(Get(bs, key)), now).value;
        SameContentsAnswer(cfg, s2.entries[w], s.entries[w], c);
        BuiltFromAnswers(cfg, s2, key, c, query, k, rerank, now);
      } else {
        NotIndexed(cfg, key, Get(bs, key), query, k, rerank);
      }
    }
  }
}
