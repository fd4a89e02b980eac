/** Exactly which histories of the backends' data hide the cache from every search. */
module LakeHistories {
  import opened Backend
  import opened Bundle
  import opened Bytes
  import opened Cache
  import opened Lake
  import opened Wrappers

  /** One backend is registered, or changes what it holds. */
  ghost predicate Stepped(bs: Backends, bs': Backends) {
    exists id, contents :: SteppedBy(bs, id, contents, bs')
  }

  predicate SteppedBy(bs: Backends, id: BackendId, contents: Contents, bs': Backends) {
    bs' == bs[id := contents]
  }

  ghost predicate Evolves(hist: seq<Backends>) {
    forall i :: 0 <= i < |hist| - 1 ==> Stepped(hist[i], hist[i + 1])
  }

  /** After the run, a Fresh search answers as an index built from the current data would. */
  ghost predicate Unnoticed(cfg: Config, past: seq<LakeState>, key: Key, query: Vector, k: nat, rerank: Option<nat>) {
    past != []
    && var s := Last(past);
       SearchedOne(cfg, Fresh, s.backends, s.cache, key, query, k, rerank, s.now).1
       == Direct(cfg, s.backends, key, query, k, rerank)
  }

  /** No run over the history, with whatever index library, searches, invalidations and pauses, shows the cache. */
  ghost predicate NeverNoticed(hist: seq<Backends>) {
    forall cfg, past, events, key, query, k, rerank ::
      IsRun(cfg, Fresh, past, events) && Follows(History(past), hist) ==>
        Unnoticed(cfg, past, key, query, k, rerank)
  }

  /** The cache can never be noticed under Fresh if and only if digests tell the history's data apart. */
  lemma TransparentExactlyWhen(hist: seq<Backends>)
    requires Evolves(hist) && |EverStored(hist)| <= MAX_REFCOUNT
    ensures NeverNoticed(hist) <==> DigestsTell(hist)
  {
    hide Evolves, IsRun, Follows, SearchedOne, Direct, EverStored, Compatible, Unnoticed;
    if DigestsTell(hist) {
      forall cfg, past, events, key, query, k, rerank |
        IsRun(cfg, Fresh, past, events) && Follows(History(past), hist)
        ensures Unnoticed(cfg, past, key, query, k, rerank)
      {
        FollowsCoherent(History(past), hist);
        RunIsUnnoticed(cfg, past, events, key, query, k, rerank);
      }
    } else {
      var i, j, key, key' :| i <= j && At(hist, i, key) && At(hist, j, key') &&
        !Compatible(key, Version(hist, i, key), key', Version(hist, j, key'));
      MixUpIsNoticed(hist, i, j, key, key');
    }
  }

  lemma RunIsUnnoticed(cfg: Config, past: seq<LakeState>, events: seq<Event>, key: Key, query: Vector, k: nat,
                       rerank: Option<nat>)
    requires IsRun(cfg, Fresh, past, events) && Coherent(History(past))
    ensures Unnoticed(cfg, past, key, query, k, rerank)
  {
    hide SearchedOne, Direct, Coherent;
    FreshIsTransparent(cfg, past, events, key, query, k, rerank);
  }

  // ---------------------------------------------------------------- one digest for two versions

  /** An index library that accepts everything, finds the given hits in one set of vectors and fails in all others. */
  function OnlyIn(vectors: seq<Vector>, hits: seq<(nat, real)>): Config {
    Config(0, 1, None, _ => true,
           (index: Index, query, k, rerank) => if index.vectors == vectors then Some(hits) else None)
  }

  /** Two versions of data that are not compatible are told apart by some index library and query. */
  lemma SomeLibraryTells(key: Key, c: Collection, key': Key, c': Collection) returns (cfg: Config, query: Vector)
    requires !Compatible(key, c, key', c')
    ensures cfg.accepts(IndexOf(cfg, Pulled(c)))
    ensures
      Labelled(key', CollectionAnswer(cfg, c, query, 1, None))
      != Labelled(key', CollectionAnswer(cfg, c', query, 1, None))
  {
    query := seq(c.dim, _ => 0.0);
    if ValidBatch(Pulled(c')) && c.vectors == c'.vectors {
      var p :| 0 <= p < |c.ids| && c.ids[p] != c'.ids[p];
      cfg := OnlyIn(c.vectors, [(p, 0.0)]);
      OneHit(p, 0.0, c.ids);
      OneHit(p, 0.0, c'.ids);
      var r, r' := Labelled(key', Ok([(c.ids[p], 0.0)])), Labelled(key', Ok([(c'.ids[p], 0.0)]));
      assert r.value[0] != r'.value[0];
    } else {
      cfg := OnlyIn(c.vectors, []);
      assert Labelled(key', CollectionAnswer(cfg, c, query, 1, None)).Ok?;
      assert Labelled(key', CollectionAnswer(cfg, c', query, 1, None)).Err?;
    }
  }

  lemma OneHit(p: nat, score: real, ids: seq<u64>)
    requires p < |ids|
    ensures FoundIds([(p, score)], ids) == Ok([(ids[p], score)])
  {
    assert [(p, score)][1..] == [];
    assert [(ids[p], score)] + [] == [(ids[p], score)];
  }

  /** From the history's i-th state with an empty cache, a search of the key, then on to the j-th state. */
  lemma {:induction false} SearchThenGoOn(cfg: Config, hist: seq<Backends>, i: nat, j: nat, key: Key, query: Vector)
    returns (past: seq<LakeState>, events: seq<Event>, at: seq<nat>)
    requires Evolves(hist) && i <= j < |hist|
    ensures IsRun(cfg, Fresh, past, events) && Visits(History(past), hist, at) && at != [] && at[|at| - 1] == j
    ensures
      Last(past) == LakeState(hist[j], SearchedOne(cfg, Fresh, hist[i], EMPTY, key, query, 1, None, 0).0, 0)
    decreases j
  {
    hide SearchedOne;
    if i == j {
      var s := LakeState(hist[i], EMPTY, 0);
      var e := Event.Search(key, query, 1, None);
      past, events, at := [s, Next(cfg, Fresh, s, e)], [e], [i, i];
    } else {
      past, events, at := SearchThenGoOn(cfg, hist, i, j - 1, key, query);
      assert Stepped(hist[j - 1], hist[j - 1 + 1]);
      var id, contents :| SteppedBy(hist[j - 1], id, contents, hist[j]);
      var e := if id in hist[j - 1] then Change(id, contents) else Register(id, contents);
      LongerRun(cfg, past, events, e);
      past, events, at := past + [Next(cfg, Fresh, Last(past), e)], events + [e], at + [j];
    }
  }

  lemma LongerRun(cfg: Config, past: seq<LakeState>, events: seq<Event>, e: Event)
    requires IsRun(cfg, Fresh, past, events)
    ensures IsRun(cfg, Fresh, past + [Next(cfg, Fresh, Last(past), e)], events + [e])
  {
    hide Next;
  }

  lemma MixUpIsNoticed(hist: seq<Backends>, i: nat, j: nat, key: Key, key': Key)
    requires Evolves(hist) && i <= j && At(hist, i, key) && At(hist, j, key')
    requires !Compatible(key, Version(hist, i, key), key', Version(hist, j, key'))
    ensures !NeverNoticed(hist)
  {
    var c, c' := Version(hist, i, key), Version(hist, j, key');
    var cfg, query := SomeLibraryTells(key, c, key', c');
    hide SearchedOne, CollectionAnswer, Labelled, Evolves, IsRun, Visits, ValidBatch;
    var past, events, at := SearchThenGoOn(cfg, hist, i, j, key, query);
    ServedFromTheOther(cfg, hist[i], key, hist[j], key', query, query, 1, None);
    assert !Unnoticed(cfg, past, key', query, 1, None);
    assert Follows(History(past), hist);
  }

  /** After a search of one key, a search of data with the same digest is answered from what was indexed first. */
  lemma ServedFromTheOther(cfg: Config, bs: Backends, key: Key, bs': Backends, key': Key, first: Vector, query: Vector,
                           k: nat, rerank: Option<nat>)
    requires Stored(bs, key) && Stored(bs', key') && SameDigest(Get(bs, key), Get(bs', key'))
    requires ValidBatch(Pulled(Get(bs, key))) && cfg.accepts(IndexOf(cfg, Pulled(Get(bs, key))))
    requires key == key' || ValidBatch(Pulled(Get(bs', key')))
    ensures
      var s := SearchedOne(cfg, Fresh, bs, EMPTY, key, first, 1, None, 0).0;
      SearchedOne(cfg, Fresh, bs', s, key', query, k, rerank, 0).1
      == Labelled(key', CollectionAnswer(cfg, Get(bs, key), query, k, rerank))
  {
    hide WitnessOf, Labelled, BuiltFrom, Searched, CollectionAnswer, Inv, ValidBatch, Counted, Touched, EnsuredFresh,
      SearchedOne;
    var c, w := Get(bs, key), WitnessOf(cfg, Get(bs, key));
    WitnessSameExactlyWhen(cfg, c, Get(bs', key'));
    FirstSearch(cfg, bs, key, first);
    var s := SearchedOne(cfg, Fresh, bs, EMPTY, key, first, 1, None, 0).0;
    if key == key' {
      TakesOwnEntry(cfg, bs', s, key, w);
    } else {
      SharesEntry(cfg, bs', s, key', w, 0);
    }
    var s' := EnsuredFresh(cfg, Fresh, bs', s, key', 0).0;
    SearchIsCheckThenCached(cfg, Fresh, bs', s, key', query, k, rerank, 0);
    SameContentsBuiltFrom(cfg, s'.entries[w], s.entries[w], c);
    BuiltFromAnswers(cfg, s', key', c, query, k, rerank, 0);
  }

  /** The first search of all builds the entry and points the key to it. */
  lemma FirstSearch(cfg: Config, bs: Backends, key: Key, query: Vector)
    requires Stored(bs, key)
    requires ValidBatch(Pulled(Get(bs, key))) && cfg.accepts(IndexOf(cfg, Pulled(Get(bs, key))))
    ensures
      var s, w := SearchedOne(cfg, Fresh, bs, EMPTY, key, query, 1, None, 0).0, WitnessOf(cfg, Get(bs, key));
      && Inv(s) && s.pointers == map[key := w] && w in s.entries && s.entries[w].refcount == 1
      && BuiltFrom(cfg, s.entries[w], Get(bs, key))
  {
    hide WitnessOf, ValidBatch, Inv, Counted, Searched, SearchedOne, Primed;
    var c, w := Get(bs, key), WitnessOf(cfg, Get(bs, key));
    var s0 := Counted(EMPTY, key, MISS);
    EmptyInv();
    CountedKeepsInv(EMPTY, key, MISS);
    CountedOnlyCounts(EMPTY, key, MISS);
    FirstPriming(cfg, s0, key, w, c);
    var s1 := Primed(cfg, s0, key, w, Pulled(c), 0).value;
    SearchIsCheckThenCached(cfg, Fresh, bs, EMPTY, key, query, 1, None, 0);
    SearchedKeepsInv(cfg, s1, key, query, 1, None, 0);
    SearchOnlyUses(cfg, s1, key, query, 1, None, 0);
    var s2 := Searched(cfg, s1, key, query, 1, None, 0).0;
    SameContentsBuiltFrom(cfg, s2.entries[w], s1.entries[w], c);
    OneHolderOneReference(s2, key, w);
  }

  lemma FirstPriming(cfg: Config, s: CacheState, key: Key, w: Witness, c: Collection)
    requires Inv(s) && s.entries == map[] && s.pointers == map[]
    requires ValidBatch(Pulled(c)) && cfg.accepts(IndexOf(cfg, Pulled(c)))
    ensures Primed(cfg, s, key, w, Pulled(c), 0).Ok?
    ensures
      var s1 := Primed(cfg, s, key, w, Pulled(c), 0).value;
      Inv(s1) && s1.pointers == map[key := w] && w in s1.entries && BuiltFrom(cfg, s1.entries[w], c)
  {
    hide ValidBatch, Inv, Counted, PointerInstalled;
    var b := Pulled(c);
    var before := WithEntry(s, w, NewEntry(IndexOf(cfg, b), Some(b.generation), b.ids, 0));
    CountedOnlyCounts(before, key, PRIME);
    PrimedKeys(cfg, s, key, w, b, 0);
    PrimedKeepsInv(cfg, s, key, w, b, 0);
    InvKeys(Primed(cfg, s, key, w, b, 0).value);
    InstallAddsNothing(Counted(before, key, PRIME), key, w, false, 0);
  }

  lemma SearchOnlyUses(cfg: Config, s: CacheState, key: Key, query: Vector, k: nat, rerank: Option<nat>, now: int)
    ensures
      var s' := Searched(cfg, s, key, query, k, rerank, now).0;
      && s'.pointers == s.pointers && s'.entries.Keys == s.entries.Keys
      && forall w :: w in s.entries ==> SameContents(s'.entries[w], s.entries[w])
  {
    hide IndexAnswer;
  }

  lemma OneHolderOneReference(s: CacheState, key: Key, w: Witness)
    requires Inv(s) && s.pointers == map[key := w] && w in s.entries
    ensures s.entries[w].refcount == 1
  {
    hide StatsMatch;
    assert Holders(s, w) == {key};
  }

  lemma SameContentsBuiltFrom(cfg: Config, e: Entry, e': Entry, c: Collection)
    requires SameContents(e, e')
    ensures BuiltFrom(cfg, e, c) == BuiltFrom(cfg, e', c)
  {
  }

  /** A key whose witness has not changed is not looked at again. */
  lemma TakesOwnEntry(cfg: Config, bs: Backends, s: CacheState, key: Key, w: Witness)
    requires Stored(bs, key) && w == WitnessOf(cfg, Get(bs, key)) && w in s.entries
    requires key in s.pointers && s.pointers[key] == w
    ensures
      var (s', r) := EnsuredFresh(cfg, Fresh, bs, s, key, 0);
      && r.Ok? && key in s'.pointers && s'.pointers[key] == w && w in s'.entries
      && SameContents(s'.entries[w], s.entries[w])
  {
    hide WitnessOf, Counted;
    CountedOnlyCounts(s, key, HIT);
  }

  /** A key without a pointer whose witness is in the pool takes that entry. */
  lemma SharesEntry(cfg: Config, bs: Backends, s: CacheState, key: Key, w: Witness, now: int)
    requires Stored(bs, key) && w == WitnessOf(cfg, Get(bs, key)) && key !in s.pointers && w in s.entries
    requires Inv(s) && !Saturated(s, key, w) && ValidBatch(Pulled(Get(bs, key)))
    ensures
      var (s', r) := EnsuredFresh(cfg, Fresh, bs, s, key, now);
      && r.Ok? && key in s'.pointers && s'.pointers[key] == w && w in s'.entries
      && SameContents(s'.entries[w], s.entries[w])
  {
    hide WitnessOf, ValidBatch, PointerInstalled, Inv, Counted, SameContents;
    var s1 := Counted(s, key, MISS);
    CountedKeepsInv(s, key, MISS);
    CountedOnlyCounts(s, key, MISS);
    var s2 := PointerInstalled(s1, key, w, true, now);
    assert EnsuredFresh(cfg, Fresh, bs, s, key, now) == (s2, Ok(()));
    InstallKeepsInv(s1, s1, key, w, true, now) by {
      InvIsSound(s1);
    }
    InstallKeys(s1, key, w, true, now);
    InvKeys(s2);
    InstallAddsNothing(s1, key, w, true, now);
  }

  // ---------------------------------------------------------------- in-memory backends

  predicate Local(id: BackendId, contents: Contents) {
    forall name :: name in contents ==> contents[name].dataRef == LocalRef(id, name)
  }

  predicate AllLocal(bs: Backends) {
    forall id :: id in bs ==> Local(id, bs[id])
  }

  /** Registering an in-memory backend, or a successful write to one that does not take a generation back to zero. */
  ghost predicate LocalStep(bs: Backends, bs': Backends) {
    || (exists id, contents :: id !in bs && Local(id, contents) && SteppedBy(bs, id, contents, bs'))
    || exists key, w :: WritesTo(bs, key, w, bs')
  }

  predicate WritesTo(bs: Backends, key: Key, w: LocalWrite, bs': Backends) {
    && key.backend in bs
    && (Stored(bs, key) ==> Get(bs, key).generation < 0xFFFF_FFFF_FFFF_FFFF)
    && var r := WriteOutcome(bs[key.backend], key.backend, key.collection, w);
       r.Ok? && bs' == bs[key.backend := r.value]
  }

  ghost predicate LocalHistory(hist: seq<Backends>) {
    hist != [] && AllLocal(hist[0]) && forall i :: 0 <= i < |hist| - 1 ==> LocalStep(hist[i], hist[i + 1])
  }

  /** No two stored collections share a reference. */
  ghost predicate DistinctReferences(bs: Backends) {
    forall key, key' :: Stored(bs, key) && Stored(bs, key') && KeyRef(key) == KeyRef(key') ==> key == key'
  }

  function KeyRef(key: Key): Reference {
    LocalRef(key.backend, key.collection)
  }

  /** It is enough that no backend id contains a slash. */
  lemma SlashFreeReferencesAreDistinct(bs: Backends)
    requires forall id :: id in bs ==> SLASH !in id.text
    ensures DistinctReferences(bs)
  {
    forall key, key' | Stored(bs, key) && Stored(bs, key') && KeyRef(key) == KeyRef(key')
      ensures key == key'
    {
      LocalDataRefInjective(key.backend.text, key.collection.text, key'.backend.text, key'.collection.text);
    }
  }

  /** In-memory backends whose references differ cannot show the cache, as long as no generation wraps around. */
  lemma LocalBackendsAreTransparent(hist: seq<Backends>)
    requires LocalHistory(hist) && DistinctReferences(hist[|hist| - 1]) && |EverStored(hist)| <= MAX_REFCOUNT
    ensures NeverNoticed(hist)
  {
    hide NeverNoticed, DistinctReferences, EverStored, DigestsTell, LocalStep, AllLocal;
    forall i | 0 <= i < |hist| - 1
      ensures Stepped(hist[i], hist[i + 1])
    {
      LocalStepSteps(hist[i], hist[i + 1]);
    }
    LocalDigestsTell(hist);
    TransparentExactlyWhen(hist);
  }

  lemma LocalStepSteps(bs: Backends, bs': Backends)
    requires LocalStep(bs, bs')
    ensures Stepped(bs, bs')
  {
    hide WriteOutcome;
    if key, w :| WritesTo(bs, key, w, bs') {
      assert SteppedBy(bs, key.backend, WriteOutcome(bs[key.backend], key.backend, key.collection, w).value, bs');
    }
  }

  /** The collection is still there, with a later generation, or the same one and the same data. */
  predicate Forward(bs: Backends, bs': Backends, key: Key)
    requires Stored(bs, key)
  {
    && Stored(bs', key)
    && Get(bs, key).generation <= Get(bs', key).generation
    && (Get(bs, key).generation == Get(bs', key).generation ==> Get(bs, key) == Get(bs', key))
  }

  ghost predicate Grown(bs: Backends, bs': Backends) {
    forall key :: Stored(bs, key) ==> Forward(bs, bs', key)
  }

  lemma LocalStepGrows(bs: Backends, bs': Backends)
    requires LocalStep(bs, bs') && AllLocal(bs)
    ensures Grown(bs, bs') && AllLocal(bs')
  {
    hide Misfit, LocalRef;
  }

  lemma {:induction false} LocalHistoryGrows(hist: seq<Backends>, i: nat, j: nat)
    requires LocalHistory(hist) && i <= j < |hist|
    ensures Grown(hist[i], hist[j]) && AllLocal(hist[i]) && AllLocal(hist[j])
    decreases i + j
  {
    hide LocalStep, AllLocal;
    if i < j {
      LocalHistoryGrows(hist, i, j - 1);
      assert LocalStep(hist[j - 1], hist[j - 1 + 1]);
      LocalStepGrows(hist[j - 1], hist[j]);
    } else if i > 0 {
      LocalHistoryGrows(hist, i - 1, i - 1);
      assert LocalStep(hist[i - 1], hist[i - 1 + 1]);
      LocalStepGrows(hist[i - 1], hist[i]);
    }
  }

  lemma LocalDigestsTell(hist: seq<Backends>)
    requires LocalHistory(hist) && DistinctReferences(hist[|hist| - 1])
    ensures DigestsTell(hist)
  {
    hide LocalHistory, LocalRef, DistinctReferences;
    forall i, j, key, key' | i <= j && At(hist, i, key) && At(hist, j, key')
      ensures Compatible(key, Version(hist, i, key), key', Version(hist, j, key'))
    {
      LocalHistoryGrows(hist, i, j);
      LocalHistoryGrows(hist, i, |hist| - 1);
      LocalHistoryGrows(hist, j, |hist| - 1);
      LocalCompatible(hist[i], key, hist[j], key', hist[|hist| - 1]);
    }
  }

  lemma LocalCompatible(bs: Backends, key: Key, bs': Backends, key': Key, last: Backends)
    requires Stored(bs, key) && Stored(bs', key') && AllLocal(bs) && AllLocal(bs')
    requires Grown(bs, bs') && Grown(bs, last) && Grown(bs', last) && DistinctReferences(last)
    ensures Compatible(key, Get(bs, key), key', Get(bs', key'))
  {
    hide LocalRef, ValidBatch;
    assert Forward(bs, last, key) && Forward(bs', last, key') && Forward(bs, bs', key);
    if SameDigest(Get(bs, key), Get(bs', key')) {
      assert KeyRef(key) == KeyRef(key');
    }
  }

  // ---------------------------------------------------------------- two names for one reference

  function OneVector(vectorId: u64, x: real): LocalWrite {
    PutAll(1, [vectorId], [[x]])
  }

  function OneVectorAt(key: Key, vectorId: u64, x: real): Collection {
    Collection(KeyRef(key), 1, [vectorId], [[x]], 1)
  }

  lemma OneVectorIsPut(key: Key, vectorId: u64, x: real)
    ensures
      WriteOutcome(map[], key.backend, key.collection, OneVector(vectorId, x))
      == Ok(map[key.collection := OneVectorAt(key, vectorId, x)])
  {
    assert [[x]][1..] == [];
    assert Misfit(1, [[x]]).None?;
  }

  /** Two in-memory backends are registered, one vector is put into a collection of either, and the first is searched. */
  function TwoPuts(key: Key, key': Key, query: Vector): seq<Event> {
    [Register(key.backend, map[]), Register(key'.backend, map[]),
     Change(key.backend, map[key.collection := OneVectorAt(key, 1, 1.0)]),
     Change(key'.backend, map[key'.collection := OneVectorAt(key', 2, 2.0)]),
     Event.Search(key, query, 1, None)]
  }

  function TwoPutsHistory(key: Key, key': Key): seq<Backends> {
    var c, c' := map[key.collection := OneVectorAt(key, 1, 1.0)], map[key'.collection := OneVectorAt(key', 2, 2.0)];
    [map[], map[key.backend := map[]], map[key.backend := map[], key'.backend := map[]],
     map[key.backend := c, key'.backend := map[]], map[key.backend := c, key'.backend := c']]
  }

  lemma TwoPutsAreLocal(key: Key, key': Key)
    requires key.backend != key'.backend
    ensures LocalHistory(TwoPutsHistory(key, key'))
  {
    var hist := TwoPutsHistory(key, key');
    OneVectorIsPut(key, 1, 1.0);
    OneVectorIsPut(key', 2, 2.0);
    hide WriteOutcome, OneVectorAt, OneVector;
    assert Local(key.backend, map[]) && SteppedBy(hist[0], key.backend, map[], hist[1]);
    assert Local(key'.backend, map[]) && SteppedBy(hist[1], key'.backend, map[], hist[2]);
    assert WritesTo(hist[2], key, OneVector(1, 1.0), hist[3]);
    assert WritesTo(hist[3], key', OneVector(2, 2.0), hist[4]);
  }

  /** If the two collections share a reference, then, whatever the index library, a Fresh search of the second finds the
      first one's vector, under the second one's name, and not its own. */
  lemma SharedReferenceServesOtherData(cfg: Config, key: Key, key': Key, query: Vector, score: real, score': real)
    returns (past: seq<LakeState>)
    requires key != key' && KeyRef(key) == KeyRef(key') && |query| == 1
    requires forall index :: cfg.accepts(index)
    requires cfg.search(IndexOf(cfg, Pulled(OneVectorAt(key, 1, 1.0))), query, 1, None) == Some([(0, score)])
    requires cfg.search(IndexOf(cfg, Pulled(OneVectorAt(key', 2, 2.0))), query, 1, None) == Some([(0, score')])
    ensures IsRun(cfg, Fresh, past, TwoPuts(key, key', query)) && LocalHistory(History(past[..5]))
    ensures
      var s := Last(past);
      && SearchedOne(cfg, Fresh, s.backends, s.cache, key', query, 1, None, s.now).1
         == Ok([SearchResult(key'.backend, key'.collection, 1, score)])
      && Direct(cfg, s.backends, key', query, 1, None)
         == Ok([SearchResult(key'.backend, key'.collection, 2, score')])
  {
    hide SearchedOne, Direct, LocalRef, LocalHistory, TwoPutsHistory;
    OtherBackend(key, key');
    past := TwoPutsRun(cfg, key, key', query);
    TwoPutsAreLocal(key, key');
    var bs := Last(past).backends;
    OneVectorAnswer(cfg, key', OneVectorAt(key, 1, 1.0), query, 1, score);
    OneVectorAnswer(cfg, key', OneVectorAt(key', 2, 2.0), query, 2, score');
    ServedFromTheOther(cfg, bs, key, bs, key', query, query, 1, None);
    DirectIsCollectionAnswer(cfg, bs, key', query);
  }

  lemma OtherBackend(key: Key, key': Key)
    requires key != key' && KeyRef(key) == KeyRef(key')
    ensures key.backend != key'.backend
  {
    if key.backend == key'.backend {
      var id, c, c' := key.backend.text, key.collection.text, key'.collection.text;
      SplitEqual(Ascii("local://"), id + ([SLASH] + c), Ascii("local://"), id + ([SLASH] + c'));
      SplitEqual(id, [SLASH] + c, id, [SLASH] + c');
      SplitEqual([SLASH], c, [SLASH], c');
    }
  }

  lemma TwoPutsRun(cfg: Config, key: Key, key': Key, query: Vector) returns (past: seq<LakeState>)
    requires key.backend != key'.backend
    ensures IsRun(cfg, Fresh, past, TwoPuts(key, key', query)) && History(past[..5]) == TwoPutsHistory(key, key')
    ensures
      var bs := map[key.backend := map[key.collection := OneVectorAt(key, 1, 1.0)],
                    key'.backend := map[key'.collection := OneVectorAt(key', 2, 2.0)]];
      Last(past) == LakeState(bs, SearchedOne(cfg, Fresh, bs, EMPTY, key, query, 1, None, 0).0, 0)
  {
    hide SearchedOne, LocalRef, OneVectorAt;
    var es := TwoPuts(key, key', query);
    var s0 := LakeState(map[], EMPTY, 0);
    var s1 := Next(cfg, Fresh, s0, es[0]);
    var s2 := Next(cfg, Fresh, s1, es[1]);
    var s3 := Next(cfg, Fresh, s2, es[2]);
    var s4 := Next(cfg, Fresh, s3, es[3]);
    past := [s0, s1, s2, s3, s4, Next(cfg, Fresh, s4, es[4])];
    assert past[..5] == [s0, s1, s2, s3, s4];
    var hist := TwoPutsHistory(key, key');
    assert s1.backends == hist[1] && s2.backends == hist[2] && s3.backends == hist[3] && s4.backends == hist[4];
    assert History(past[..5]) == hist;
  }

  lemma OneVectorAnswer(cfg: Config, key: Key, c: Collection, query: Vector, vectorId: u64, score: real)
    requires c.dim == 1 == |query| && c.ids == [vectorId] && |c.vectors| == 1 && cfg.accepts(IndexOf(cfg, Pulled(c)))
    requires cfg.search(IndexOf(cfg, Pulled(c)), query, 1, None) == Some([(0, score)])
    ensures ValidBatch(Pulled(c))
    ensures
      Labelled(key, CollectionAnswer(cfg, c, query, 1, None))
      == Ok([SearchResult(key.backend, key.collection, vectorId, score)])
  {
    OneHit(0, score, c.ids);
    assert Labelled(key, Ok([(vectorId, score)])).value == [SearchResult(key.backend, key.collection, vectorId, score)];
  }

  lemma DirectIsCollectionAnswer(cfg: Config, bs: Backends, key: Key, query: Vector)
    requires Stored(bs, key)
    ensures
      Direct(cfg, bs, key, query, 1, None) == Labelled(key, CollectionAnswer(cfg, Get(bs, key), query, 1, None))
  {
  }

  function KeyOf(backend: string, collection: string): Key
    requires |backend| < 100 && |collection| < 100
  {
    Key(BackendId(Ascii(backend)), CollectionId(Ascii(collection)))
  }

  /** Backend "a" with collection "b/c" and backend "a/b" with collection "c" share a reference: a run in which a Fresh
      search of the second does not answer as its data would. */
  lemma SlashedNamesAreMixedUp() returns (cfg: Config, past: seq<LakeState>)
    ensures
      var key, key' := KeyOf("a", "b/c"), KeyOf("a/b", "c");
      && IsRun(cfg, Fresh, past, TwoPuts(key, key', [0.0])) && LocalHistory(History(past[..5]))
      && !Unnoticed(cfg, past, key', [0.0], 1, None)
  {
    var key, key' := KeyOf("a", "b/c"), KeyOf("a/b", "c");
    assert Ascii("a") + ([SLASH] + Ascii("b/c")) == Ascii("a/b") + ([SLASH] + Ascii("c"));
    assert |Ascii("a")| != |Ascii("a/b")|;
    cfg := Config(0, 1, None, _ => true, (index, query, k, rerank) => Some([(0, 0.0)]));
    hide SearchedOne, Direct, LocalHistory;
    past := SharedReferenceServesOtherData(cfg, key, key', [0.0], 0.0, 0.0);
    assert SearchResult(key'.backend, key'.collection, 1, 0.0) != SearchResult(key'.backend, key'.collection, 2, 0.0);
  }

  // ---------------------------------------------------------------- a file written twice

  function Alone(key: Key, c: Collection): Backends {
    map[key.backend := map[key.collection := c]]
  }

  /** Replacing a file's data never shows in an answer if and only if the second or the dimension changes too, or the
      data does not really change, or the cache never could hold the first data. */
  lemma RewriteTransparentExactlyWhen(key: Key, path: Name, dim: u64, ids: seq<u64>, vectors: seq<Vector>, t: Mtime,
                                      dim': u64, ids': seq<u64>, vectors': seq<Vector>, t': Mtime)
    ensures
      var c, c' := File(path, dim, ids, vectors, t), File(path, dim', ids', vectors', t');
      NeverNoticed([Alone(key, c), Alone(key, c')])
      <==> Seconds(t) != Seconds(t') || dim != dim' || (ids == ids' && vectors == vectors') || !ValidBatch(Pulled(c))
  {
    var c, c' := File(path, dim, ids, vectors, t), File(path, dim', ids', vectors', t');
    hide NeverNoticed, ValidBatch;
    var hist := [Alone(key, c), Alone(key, c')];
    assert SteppedBy(hist[0], key.backend, map[key.collection := c'], hist[1]);
    AloneEverStored(hist, key, c, c');
    AloneDigestsTell(key, c, c');
    TransparentExactlyWhen(hist);
  }

  lemma AloneEverStored(hist: seq<Backends>, key: Key, c: Collection, c': Collection)
    requires hist == [Alone(key, c), Alone(key, c')]
    ensures EverStored(hist) == {key}
  {
    StoredEver(hist, 0, key);
  }

  lemma AloneDigestsTell(key: Key, c: Collection, c': Collection)
    ensures DigestsTell([Alone(key, c), Alone(key, c')]) <==> Compatible(key, c, key, c')
  {
    hide SameDigest, ValidBatch;
    var hist := [Alone(key, c), Alone(key, c')];
    if DigestsTell(hist) {
      assert At(hist, 0, key) && At(hist, 1, key);
      assert Compatible(key, Version(hist, 0, key), key, Version(hist, 1, key));
    }
  }
}
