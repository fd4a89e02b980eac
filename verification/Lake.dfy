/** The router: every search first makes the cache entry fresh enough, then runs on the cache. Answers are compared with
    those of an index built directly from the backend's data. */
module Lake {
  import opened Backend
  import opened Bundle
  import opened Bytes
  import opened Cache
  import opened Collections
  import opened Wrappers

  type Backends = map<BackendId, Contents>

  datatype SearchResult = SearchResult(backend: BackendId, collection: CollectionId, id: u64, score: real)

  type Answer = Result<seq<SearchResult>, Error>

  function Labelled(key: Key, r: Result<seq<(u64, real)>, Error>): Answer {
    match r
    case Err(e) => Err(e)
    case Ok(hits) =>
      Ok(seq(|hits|, i requires 0 <= i < |hits| => SearchResult(key.backend, key.collection, hits[i].0, hits[i].1)))
  }

  // ---------------------------------------------------------------- the reference

  predicate Stored(bs: Backends, key: Key) {
    key.backend in bs && key.collection in bs[key.backend]
  }

  function Get(bs: Backends, key: Key): Collection
    requires Stored(bs, key)
  {
    bs[key.backend][key.collection]
  }

  /** What an index built from a collection answers. */
  function CollectionAnswer(cfg: Config, c: Collection, query: Vector, k: nat, rerank: Option<nat>)
    : Result<seq<(u64, real)>, Error>
  {
    if !ValidBatch(Pulled(c)) then Err(InvalidParameter)
    else if !cfg.accepts(IndexOf(cfg, Pulled(c))) then Err(IndexError)
    else if |query| != c.dim then Err(DimensionMismatch(c.dim, |query|))
    else IndexAnswer(cfg, IndexOf(cfg, Pulled(c)), c.ids, query, k, rerank)
  }

  /** No cache: look the collection up, index it, search the index. */
  function Direct(cfg: Config, bs: Backends, key: Key, query: Vector, k: nat, rerank: Option<nat>): Answer {
    if key.backend !in bs then Err(UnknownBackend(key.backend))
    else if key.collection !in bs[key.backend] then Err(UnknownCollection(key))
    else Labelled(key, CollectionAnswer(cfg, Get(bs, key), query, k, rerank))
  }

  // ---------------------------------------------------------------- searching through the cache

  function EnsuredFresh(cfg: Config, mode: Consistency, bs: Backends, s: CacheState, key: Key, now: int)
    : (CacheState, Result<(), Error>)
  {
    if CanSkipCheck(s, key, mode, now) then (Counted(s, key, HIT), Ok(()))
    else if key.backend !in bs then (s, Err(UnknownBackend(key.backend)))
    else if key.collection !in bs[key.backend] then (s, Err(UnknownCollection(key)))
    else
      var c := Get(bs, key);
      var w := WitnessOf(cfg, c);
      if key in s.pointers && s.pointers[key] == w then (Touched(Counted(s, key, HIT), key, now), Ok(()))
      else
        var s1 := Counted(s, key, MISS);
        match Primed(cfg, s1, key, w, Pulled(c), now)
        case Err(e) => (s1, Err(e))
        case Ok(s2) => (s2, Ok(()))
  }

  function SearchedOne(cfg: Config, mode: Consistency, bs: Backends, s: CacheState, key: Key, query: Vector, k: nat,
                       rerank: Option<nat>, now: int): (CacheState, Answer)
  {
    var (s1, r) := EnsuredFresh(cfg, mode, bs, s, key, now);
    if r.Err? then (s1, Err(r.error))
    else
      var (s2, hits) := Searched(cfg, s1, key, query, k, rerank, now);
      (s2, Labelled(key, hits))
  }

  // ---------------------------------------------------------------- runs

  datatype LakeState = LakeState(backends: Backends, cache: CacheState, now: int)

  /** Backends are registered with what they hold, and change what they hold at any time. */
  datatype Event =
    | Register(id: BackendId, contents: Contents)
    | Change(id: BackendId, contents: Contents)
    | Search(key: Key, query: Vector, k: nat, rerank: Option<nat>)
    | Invalidate(key: Key)
    | Pass(time: nat)

  function BackendsAfter(bs: Backends, e: Event): Backends {
    match e
    case Register(id, contents) => if id in bs then bs else bs[id := contents]
    case Change(id, contents) => if id in bs then bs[id := contents] else bs
    case _ => bs
  }

  function CacheAfter(cfg: Config, mode: Consistency, s: LakeState, e: Event): CacheState {
    match e
    case Search(key, query, k, rerank) =>
      SearchedOne(cfg, mode, s.backends, s.cache, key, query, k, rerank, s.now).0
    case Invalidate(key) => Invalidated(s.cache, key)
    case _ => s.cache
  }

  function Next(cfg: Config, mode: Consistency, s: LakeState, e: Event): LakeState {
    LakeState(BackendsAfter(s.backends, e), CacheAfter(cfg, mode, s, e), s.now + if e.Pass? then e.time else 0)
  }

  /** past[i + 1] follows from past[i] by the i-th event; the cache starts empty. */
  ghost predicate IsRun(cfg: Config, mode: Consistency, past: seq<LakeState>, events: seq<Event>) {
    && |past| == |events| + 1
    && past[0].cache == EMPTY
    && forall i :: 0 <= i < |events| ==> past[i + 1] == Next(cfg, mode, past[i], events[i])
  }

  function Last(past: seq<LakeState>): LakeState
    requires past != []
  {
    past[|past| - 1]
  }

  // ---------------------------------------------------------------- what a digest must tell

  /** What the backends held, in the order of time. */
  function History(past: seq<LakeState>): (hist: seq<Backends>)
    ensures |hist| == |past|
  {
    seq(|past|, i requires 0 <= i < |past| => past[i].backends)
  }

  predicate At(hist: seq<Backends>, i: int, key: Key) {
    0 <= i < |hist| && Stored(hist[i], key)
  }

  function Version(hist: seq<Backends>, i: int, key: Key): Collection
    requires At(hist, i, key)
  {
    Get(hist[i], key)
  }

  /** Two collections with one digest hold the same data, unless the earlier one could not be indexed, or the later one,
      under another key, cannot be. */
  predicate Compatible(key: Key, c: Collection, key': Key, c': Collection) {
    SameDigest(c, c') && ValidBatch(Pulled(c)) && (key == key' || ValidBatch(Pulled(c'))) ==>
      c.ids == c'.ids && c.vectors == c'.vectors
  }

  /** Whenever two stored collections have the same reference, dimension and generation, be they of one backend or of two,
      they hold the same data. */
  ghost predicate DigestsTell(hist: seq<Backends>) {
    forall i, j, key, key' :: i <= j && At(hist, i, key) && At(hist, j, key') ==>
      Compatible(key, Version(hist, i, key), key', Version(hist, j, key'))
  }

  function EverStored(hist: seq<Backends>): set<Key> {
    set i, id, name | 0 <= i < |hist| && id in hist[i] && name in hist[i][id] :: Key(id, name)
  }

  lemma StoredEver(hist: seq<Backends>, i: int, key: Key)
    requires At(hist, i, key)
    ensures key in EverStored(hist)
  {
    assert Key(key.backend, key.collection) == key;
  }

  /** Digests tell data apart, and there are few enough collections for their pointers to be counted in 32 bits. */
  ghost predicate Coherent(hist: seq<Backends>) {
    DigestsTell(hist) && |EverStored(hist)| <= MAX_REFCOUNT
  }

  /** hist' goes through hist, from somewhere to somewhere, in order, pausing and skipping at will. */
  ghost predicate Follows(hist': seq<Backends>, hist: seq<Backends>) {
    exists at: seq<nat> :: Visits(hist', hist, at)
  }

  predicate Visits(hist': seq<Backends>, hist: seq<Backends>, at: seq<nat>) {
    && |at| == |hist'|
    && (forall i :: 0 <= i < |at| ==> at[i] < |hist| && hist'[i] == hist[at[i]])
    && forall i, j :: 0 <= i <= j < |at| ==> at[i] <= at[j]
  }

  lemma FollowsCoherent(hist': seq<Backends>, hist: seq<Backends>)
    requires Follows(hist', hist) && Coherent(hist)
    ensures Coherent(hist')
  {
    hide Stored, Compatible;
    var at :| Visits(hist', hist, at);
    forall i, j, key, key' | i <= j && At(hist', i, key) && At(hist', j, key')
      ensures Compatible(key, Version(hist', i, key), key', Version(hist', j, key'))
    {
      assert At(hist, at[i], key) && At(hist, at[j], key');
    }
    forall key | key in EverStored(hist')
      ensures key in EverStored(hist)
    {
      var i, id, name :| 0 <= i < |hist'| && id in hist'[i] && name in hist'[i][id] && key == Key(id, name);
      assert id in hist[at[i]] && name in hist[at[i]][id];
    }
    SubsetCardinality(EverStored(hist'), EverStored(hist));
  }

  lemma PrefixCoherent(past: seq<LakeState>, n: nat)
    requires n <= |past| && Coherent(History(past))
    ensures Coherent(History(past[..n]))
  {
    hide Coherent;
    var at: seq<nat> := seq(n, i requires 0 <= i < n => i);
    assert Visits(History(past[..n]), History(past), at);
    FollowsCoherent(History(past[..n]), History(past));
  }

  // ---------------------------------------------------------------- what the cache holds

  /** The entry is what priming would have built from the collection. */
  predicate BuiltFrom(cfg: Config, e: Entry, c: Collection) {
    && ValidBatch(Pulled(c)) && cfg.accepts(IndexOf(cfg, Pulled(c)))
    && e.index == IndexOf(cfg, Pulled(c)) && e.dim == c.dim && e.posToId == c.ids
  }

  /** At time i the key's collection had this witness. */
  predicate Had(cfg: Config, past: seq<LakeState>, i: int, key: Key, w: Witness) {
    0 <= i < |past| && Stored(past[i].backends, key) && w == WitnessOf(cfg, Get(past[i].backends, key))
  }

  predicate Vouches(cfg: Config, past: seq<LakeState>, w: Witness, e: Entry, i: int, key: Key) {
    Had(cfg, past, i, key, w) && BuiltFrom(cfg, e, Get(past[i].backends, key))
  }

  ghost predicate Genuine(cfg: Config, past: seq<LakeState>, w: Witness, e: Entry) {
    exists i, key :: Vouches(cfg, past, w, e, i, key)
  }

  ghost predicate AllGenuine(cfg: Config, past: seq<LakeState>, s: CacheState) {
    forall w :: w in s.entries ==> Genuine(cfg, past, w, s.entries[w])
  }

  predicate CheckedAt(cfg: Config, past: seq<LakeState>, w: Witness, at: int, i: int, key: Key) {
    Had(cfg, past, i, key, w) && past[i].now == at && ValidBatch(Pulled(Get(past[i].backends, key)))
  }

  /** When the key was last checked, its collection had the witness that the key points to, and could be indexed. */
  ghost predicate Checked(cfg: Config, past: seq<LakeState>, s: CacheState, key: Key)
    requires key in s.pointers && key in s.lastChecked
  {
    exists i :: CheckedAt(cfg, past, s.pointers[key], s.lastChecked[key], i, key)
  }

  ghost predicate AllChecked(cfg: Config, past: seq<LakeState>, s: CacheState) {
    forall key :: key in s.pointers ==> key in s.lastChecked && Checked(cfg, past, s, key)
  }

  /** What the cache knows, it learned from the past. */
  ghost predicate Honest(cfg: Config, past: seq<LakeState>, s: CacheState) {
    Inv(s) && AllGenuine(cfg, past, s) && AllChecked(cfg, past, s)
  }

  ghost predicate LakeInv(cfg: Config, past: seq<LakeState>) {
    past != [] && Honest(cfg, past, Last(past).cache)
  }

  lemma LongerPast(cfg: Config, past: seq<LakeState>, s: LakeState, c: CacheState)
    requires Honest(cfg, past, c)
    ensures Honest(cfg, past + [s], c)
  {
    hide Inv, BuiltFrom, WitnessOf;
    var past' := past + [s];
    forall w | w in c.entries
      ensures Genuine(cfg, past', w, c.entries[w])
    {
      var i, key :| Vouches(cfg, past, w, c.entries[w], i, key);
      assert Vouches(cfg, past', w, c.entries[w], i, key);
    }
    forall key | key in c.pointers
      ensures key in c.lastChecked && Checked(cfg, past', c, key)
    {
      var i :| CheckedAt(cfg, past, c.pointers[key], c.lastChecked[key], i, key);
      assert CheckedAt(cfg, past', c.pointers[key], c.lastChecked[key], i, key);
    }
  }

  // ---------------------------------------------------------------- witnesses identify data

  /** The history at two times. */
  lemma DigestTells(past: seq<LakeState>, i: int, key: Key, j: int, key': Key)
    requires Coherent(History(past)) && 0 <= i <= j < |past|
    requires Stored(past[i].backends, key) && Stored(past[j].backends, key')
    ensures Compatible(key, Get(past[i].backends, key), key', Get(past[j].backends, key'))
  {
    hide Stored, Compatible;
    assert At(History(past), i, key) && At(History(past), j, key');
  }

  /** A genuine entry under a witness that the key's collection had was built from what the collection then was, if that
      could be indexed at all. */
  lemma SameWitnessSameData(cfg: Config, past: seq<LakeState>, i: int, key: Key, w: Witness, e: Entry)
    requires Coherent(History(past))
    requires Had(cfg, past, i, key, w) && ValidBatch(Pulled(Get(past[i].backends, key))) && Genuine(cfg, past, w, e)
    ensures BuiltFrom(cfg, e, Get(past[i].backends, key))
  {
    var j, key' :| Vouches(cfg, past, w, e, j, key');
    hide WitnessOf, ValidBatch, Coherent;
    WitnessSameExactlyWhen(cfg, Get(past[i].backends, key), Get(past[j].backends, key'));
    if i <= j {
      DigestTells(past, i, key, j, key');
    } else {
      DigestTells(past, j, key', i, key);
    }
  }

  /** What a key was checked with can still be indexed while its witness stays. */
  lemma StillValid(cfg: Config, past: seq<LakeState>, s: CacheState, key: Key)
    requires past != [] && Coherent(History(past)) && AllChecked(cfg, past, s) && key in s.pointers
    requires Had(cfg, past, |past| - 1, key, s.pointers[key])
    ensures ValidBatch(Pulled(Get(Last(past).backends, key)))
  {
    hide WitnessOf, Coherent;
    assert Checked(cfg, past, s, key);
    var i :| CheckedAt(cfg, past, s.pointers[key], s.lastChecked[key], i, key);
    WitnessSameExactlyWhen(cfg, Get(past[i].backends, key), Get(Last(past).backends, key));
    DigestTells(past, i, key, |past| - 1, key);
  }

  /** Only keys that were once stored have pointers. */
  lemma PointersWereStored(cfg: Config, past: seq<LakeState>, s: CacheState)
    requires AllChecked(cfg, past, s)
    ensures s.pointers.Keys <= EverStored(History(past))
  {
    hide WitnessOf, EverStored, ValidBatch;
    forall key | key in s.pointers
      ensures key in EverStored(History(past))
    {
      assert Checked(cfg, past, s, key);
      var i :| CheckedAt(cfg, past, s.pointers[key], s.lastChecked[key], i, key);
      StoredEver(History(past), i, key);
    }
  }

  lemma NeverSaturated(cfg: Config, past: seq<LakeState>, s: CacheState, key: Key, w: Witness)
    requires past != [] && Coherent(History(past)) && AllChecked(cfg, past, s) && CountsMatch(s)
    requires Stored(Last(past).backends, key)
    ensures !Saturated(s, key, w)
  {
    hide DigestsTell, AllChecked, EverStored;
    PointersWereStored(cfg, past, s);
    StoredEver(History(past), |past| - 1, key);
    if !(key in s.pointers && s.pointers[key] == w) {
      var all := EverStored(History(past));
      assert Holders(s, w) <= all - {key};
      SubsetCardinality(Holders(s, w), all - {key});
    }
  }

  // ---------------------------------------------------------------- cache operations stay honest

  lemma NothingNewStaysGenuine(cfg: Config, past: seq<LakeState>, s: CacheState, s': CacheState)
    requires AllGenuine(cfg, past, s) && NothingNew(s, s')
    ensures AllGenuine(cfg, past, s')
  {
    hide WitnessOf;
    forall w | w in s'.entries
      ensures Genuine(cfg, past, w, s'.entries[w])
    {
      var i, key :| Vouches(cfg, past, w, s.entries[w], i, key);
      assert Vouches(cfg, past, w, s'.entries[w], i, key);
    }
  }

  lemma FewerPointersStayChecked(cfg: Config, past: seq<LakeState>, s: CacheState, s': CacheState)
    requires AllChecked(cfg, past, s)
    requires forall key :: key in s'.pointers ==>
      && key in s.pointers && s'.pointers[key] == s.pointers[key]
      && key in s'.lastChecked && key in s.lastChecked && s'.lastChecked[key] == s.lastChecked[key]
    ensures AllChecked(cfg, past, s')
  {
    hide Had;
    forall key | key in s'.pointers
      ensures key in s'.lastChecked && Checked(cfg, past, s', key)
    {
      var i :| CheckedAt(cfg, past, s.pointers[key], s.lastChecked[key], i, key);
      assert CheckedAt(cfg, past, s'.pointers[key], s'.lastChecked[key], i, key);
    }
  }

  lemma OneMoreChecked(cfg: Config, past: seq<LakeState>, s: CacheState, s': CacheState, key: Key, w: Witness)
    requires past != [] && AllChecked(cfg, past, s) && Had(cfg, past, |past| - 1, key, w)
    requires ValidBatch(Pulled(Get(Last(past).backends, key)))
    requires s'.pointers == s.pointers[key := w] && s'.lastChecked == s.lastChecked[key := Last(past).now]
    ensures AllChecked(cfg, past, s')
  {
    hide Had;
    forall k | k in s'.pointers
      ensures k in s'.lastChecked && Checked(cfg, past, s', k)
    {
      if k == key {
        assert CheckedAt(cfg, past, w, Last(past).now, |past| - 1, key);
      } else {
        var i :| CheckedAt(cfg, past, s.pointers[k], s.lastChecked[k], i, k);
        assert CheckedAt(cfg, past, s'.pointers[k], s'.lastChecked[k], i, k);
      }
    }
  }

  lemma PrimedStaysGenuine(cfg: Config, past: seq<LakeState>, s: CacheState, key: Key, w: Witness, now: int)
    requires past != [] && AllGenuine(cfg, past, s) && Had(cfg, past, |past| - 1, key, w)
    requires Primed(cfg, s, key, w, Pulled(Get(Last(past).backends, key)), now).Ok?
    ensures AllGenuine(cfg, past, Primed(cfg, s, key, w, Pulled(Get(Last(past).backends, key)), now).value)
  {
    hide WitnessOf, PointerInstalled, Counted, ValidBatch;
    var b := Pulled(Get(Last(past).backends, key));
    var s1 := BeforeInstall(cfg, s, key, w, b, now);
    CountedOnlyCounts(WithEntry(s, w, NewEntry(IndexOf(cfg, b), Some(b.generation), b.ids, now)), key, PRIME);
    forall v | v in s1.entries
      ensures Genuine(cfg, past, v, s1.entries[v])
    {
      if v in s.entries {
        assert s1.entries[v] == s.entries[v];
      } else {
        assert Vouches(cfg, past, v, s1.entries[v], |past| - 1, key);
      }
    }
    InstallAddsNothing(s1, key, w, w in s.entries, now);
    NothingNewStaysGenuine(cfg, past, s1, PointerInstalled(s1, key, w, w in s.entries, now));
  }

  lemma PrimedKeys(cfg: Config, s: CacheState, key: Key, w: Witness, b: PulledBatch, now: int)
    requires Primed(cfg, s, key, w, b, now).Ok?
    ensures
      var s' := Primed(cfg, s, key, w, b, now).value;
      s'.pointers == s.pointers[key := w] && s'.lastChecked == s.lastChecked[key := now] && ValidBatch(b)
  {
    hide PointerInstalled, Counted, ValidBatch;
    CountedOnlyCounts(WithEntry(s, w, NewEntry(IndexOf(cfg, b), Some(b.generation), b.ids, now)), key, PRIME);
    InstallKeys(BeforeInstall(cfg, s, key, w, b, now), key, w, w in s.entries, now);
  }

  lemma PrimedStaysHonest(cfg: Config, past: seq<LakeState>, s: CacheState, key: Key, w: Witness)
    requires past != [] && Coherent(History(past))
    requires Honest(cfg, past, s) && Had(cfg, past, |past| - 1, key, w)
    requires !(key in s.pointers && s.pointers[key] == w)
    requires Primed(cfg, s, key, w, Pulled(Get(Last(past).backends, key)), Last(past).now).Ok?
    ensures
      var s' := Primed(cfg, s, key, w, Pulled(Get(Last(past).backends, key)), Last(past).now).value;
      Honest(cfg, past, s') && key in s'.pointers && s'.pointers[key] == w
  {
    hide Primed, AllGenuine, AllChecked, Coherent, WitnessOf;
    var b, now := Pulled(Get(Last(past).backends, key)), Last(past).now;
    var s' := Primed(cfg, s, key, w, b, now).value;
    NeverSaturated(cfg, past, s, key, w);
    PrimedKeepsInv(cfg, s, key, w, b, now);
    PrimedStaysGenuine(cfg, past, s, key, w, now);
    PrimedKeys(cfg, s, key, w, b, now);
    OneMoreChecked(cfg, past, s, s', key, w);
  }

  lemma CountedStaysHonest(cfg: Config, past: seq<LakeState>, s: CacheState, key: Key, d: Counters)
    requires Honest(cfg, past, s)
    ensures Honest(cfg, past, Counted(s, key, d))
  {
    hide Inv, AllGenuine, AllChecked, Counted;
    CountedKeepsInv(s, key, d);
    CountedOnlyCounts(s, key, d);
    InvKeys(s);
    NothingNewStaysGenuine(cfg, past, s, Counted(s, key, d));
    FewerPointersStayChecked(cfg, past, s, Counted(s, key, d));
  }

  lemma InvKeys(s: CacheState)
    requires Inv(s)
    ensures s.lastChecked.Keys == s.pointers.Keys
    ensures forall key :: key in s.pointers ==> s.pointers[key] in s.entries
  {
  }

  lemma TouchedStaysHonest(cfg: Config, past: seq<LakeState>, s: CacheState, key: Key, w: Witness)
    requires past != [] && Honest(cfg, past, s) && Had(cfg, past, |past| - 1, key, w)
    requires key in s.pointers && s.pointers[key] == w && ValidBatch(Pulled(Get(Last(past).backends, key)))
    ensures Honest(cfg, past, Touched(s, key, Last(past).now))
  {
    hide Inv, AllGenuine, AllChecked, Had;
    TouchedKeepsInv(s, key, Last(past).now);
    NothingNewStaysGenuine(cfg, past, s, Touched(s, key, Last(past).now));
    assert s.pointers == s.pointers[key := w];
    OneMoreChecked(cfg, past, s, Touched(s, key, Last(past).now), key, w);
  }

  lemma SearchedStaysHonest(cfg: Config, past: seq<LakeState>, s: CacheState, key: Key, query: Vector, k: nat,
                            rerank: Option<nat>, now: int)
    requires Honest(cfg, past, s)
    ensures Honest(cfg, past, Searched(cfg, s, key, query, k, rerank, now).0)
  {
    hide Inv, AllGenuine, AllChecked, IndexAnswer;
    var s' := Searched(cfg, s, key, query, k, rerank, now).0;
    SearchedKeepsInv(cfg, s, key, query, k, rerank, now);
    InvKeys(s);
    NothingNewStaysGenuine(cfg, past, s, s');
    FewerPointersStayChecked(cfg, past, s, s');
  }

  lemma InvalidatedStaysHonest(cfg: Config, past: seq<LakeState>, s: CacheState, key: Key)
    requires Honest(cfg, past, s)
    ensures Honest(cfg, past, Invalidated(s, key))
  {
    hide Inv, AllGenuine, AllChecked, Unpointed, Counted;
    var u := Unpointed(s, key);
    InvalidatedKeepsInv(s, key);
    InvKeys(s);
    UnpointedKeys(s, key);
    UnpointedAddsNothing(s, key);
    CountedOnlyCounts(u, key, INVALIDATION);
    NothingNewStaysGenuine(cfg, past, s, Invalidated(s, key));
    FewerPointersStayChecked(cfg, past, s, Invalidated(s, key));
  }

  // ---------------------------------------------------------------- one search

  /** How old data a search may use. */
  predicate Allowed(mode: Consistency, past: seq<LakeState>, j: int) {
    0 <= j < |past|
    && match mode
       case Fresh => j == |past| - 1
       case Eventual(ttlMs) => j == |past| - 1 || past[|past| - 1].now - past[j].now < ttlMs
       case Frozen => true
  }

  /** The key points to an entry built from what its collection was at time j. */
  predicate Serves(cfg: Config, past: seq<LakeState>, s: CacheState, key: Key, j: int) {
    && key in s.pointers && s.pointers[key] in s.entries
    && 0 <= j < |past| && Stored(past[j].backends, key)
    && BuiltFrom(cfg, s.entries[s.pointers[key]], Get(past[j].backends, key))
  }

  /** After a check that succeeds, the key is served from data of an allowed age. */
  lemma FreshEnough(cfg: Config, mode: Consistency, past: seq<LakeState>, key: Key) returns (j: int)
    requires LakeInv(cfg, past) && Coherent(History(past))
    ensures
      var (s', r) := EnsuredFresh(cfg, mode, Last(past).backends, Last(past).cache, key, Last(past).now);
      Honest(cfg, past, s') && (r.Ok? ==> Allowed(mode, past, j) && Serves(cfg, past, s', key, j))
  {
    var now, bs, s := Last(past).now, Last(past).backends, Last(past).cache;
    hide Coherent, WitnessOf, Primed, BuiltFrom, Counted;
    j := |past| - 1;
    CountedStaysHonest(cfg, past, s, key, HIT);
    CountedStaysHonest(cfg, past, s, key, MISS);
    CountedOnlyCounts(s, key, HIT);
    CountedOnlyCounts(s, key, MISS);
    if CanSkipCheck(s, key, mode, now) {
      InvKeys(s);
      assert Checked(cfg, past, s, key);
      j :| CheckedAt(cfg, past, s.pointers[key], s.lastChecked[key], j, key);
      Served(cfg, past, Counted(s, key, HIT), key, j);
    } else if Stored(bs, key) {
      var w := WitnessOf(cfg, Get(bs, key));
      if key in s.pointers && s.pointers[key] == w {
        var s1 := Counted(s, key, HIT);
        StillValid(cfg, past, s, key);
        TouchedStaysHonest(cfg, past, s1, key, w);
        Served(cfg, past, Touched(s1, key, now), key, j);
      } else {
        var s1 := Counted(s, key, MISS);
        if Primed(cfg, s1, key, w, Pulled(Get(bs, key)), now).Ok? {
          PrimedStaysHonest(cfg, past, s1, key, w);
          Served(cfg, past, Primed(cfg, s1, key, w, Pulled(Get(bs, key)), now).value, key, j);
        }
      }
    }
  }

  lemma Served(cfg: Config, past: seq<LakeState>, s: CacheState, key: Key, j: int)
    requires past != [] && Coherent(History(past)) && Honest(cfg, past, s)
    requires key in s.pointers && Had(cfg, past, j, key, s.pointers[key])
    requires ValidBatch(Pulled(Get(past[j].backends, key)))
    ensures Serves(cfg, past, s, key, j)
  {
    hide Coherent, WitnessOf, BuiltFrom, Inv;
    InvKeys(s);
    SameWitnessSameData(cfg, past, j, key, s.pointers[key], s.entries[s.pointers[key]]);
  }

  /** A check that fails, fails as looking up and indexing the current data would. */
  lemma FailsAlike(cfg: Config, mode: Consistency, bs: Backends, s: CacheState, key: Key, now: int, query: Vector, k: nat,
                   rerank: Option<nat>)
    ensures
      var (_, r) := EnsuredFresh(cfg, mode, bs, s, key, now);
      r.Err? ==> Direct(cfg, bs, key, query, k, rerank) == Err(r.error)
  {
    hide WitnessOf, PointerInstalled, Counted, ValidBatch, IndexAnswer;
    CountedOnlyCounts(s, key, MISS);
  }

  lemma BuiltFromAnswers(cfg: Config, s: CacheState, key: Key, c: Collection, query: Vector, k: nat, rerank: Option<nat>,
                         now: int)
    requires key in s.pointers && s.pointers[key] in s.entries && BuiltFrom(cfg, s.entries[s.pointers[key]], c)
    ensures Searched(cfg, s, key, query, k, rerank, now).1 == CollectionAnswer(cfg, c, query, k, rerank)
  {
    hide IndexAnswer, ValidBatch;
  }

  lemma AnsweredFrom(cfg: Config, past: seq<LakeState>, s: CacheState, key: Key, j: int, query: Vector, k: nat,
                     rerank: Option<nat>, now: int)
    requires Serves(cfg, past, s, key, j)
    ensures
      Labelled(key, Searched(cfg, s, key, query, k, rerank, now).1) == Direct(cfg, past[j].backends, key, query, k, rerank)
  {
    hide Searched, CollectionAnswer, BuiltFrom;
    BuiltFromAnswers(cfg, s, key, Get(past[j].backends, key), query, k, rerank, now);
  }

  ghost predicate AnswerAsOf(cfg: Config, past: seq<LakeState>, j: int, key: Key, query: Vector, k: nat,
                             rerank: Option<nat>, answer: Answer)
  {
    0 <= j < |past| && answer == Direct(cfg, past[j].backends, key, query, k, rerank)
  }

  /** A search is its check followed, if that succeeds, by a search of the cache. */
  lemma SearchIsCheckThenCached(cfg: Config, mode: Consistency, bs: Backends, s: CacheState, key: Key, query: Vector,
                                k: nat, rerank: Option<nat>, now: int)
    ensures
      var (s1, r) := EnsuredFresh(cfg, mode, bs, s, key, now);
      SearchedOne(cfg, mode, bs, s, key, query, k, rerank, now)
      == if r.Err? then (s1, Err(r.error))
         else (Searched(cfg, s1, key, query, k, rerank, now).0,
               Labelled(key, Searched(cfg, s1, key, query, k, rerank, now).1))
  {
    hide EnsuredFresh, Searched, Labelled;
  }

  lemma SearchAnswers(cfg: Config, mode: Consistency, past: seq<LakeState>, key: Key, query: Vector, k: nat,
                      rerank: Option<nat>) returns (j: int)
    requires past != [] && LakeInv(cfg, past) && Coherent(History(past))
    ensures
      var s := Last(past);
      var (s', answer) := SearchedOne(cfg, mode, s.backends, s.cache, key, query, k, rerank, s.now);
      Honest(cfg, past, s') && Allowed(mode, past, j) && AnswerAsOf(cfg, past, j, key, query, k, rerank, answer)
  {
    var s := Last(past);
    hide LakeInv, EnsuredFresh, SearchedOne, Direct, Searched, Serves, Coherent, Honest, Labelled, Allowed;
    j := FreshEnough(cfg, mode, past, key);
    var (s1, r) := EnsuredFresh(cfg, mode, s.backends, s.cache, key, s.now);
    SearchIsCheckThenCached(cfg, mode, s.backends, s.cache, key, query, k, rerank, s.now);
    if r.Ok? {
      SearchedStaysHonest(cfg, past, s1, key, query, k, rerank, s.now);
      AnsweredFrom(cfg, past, s1, key, j, query, k, rerank, s.now);
    } else {
      j := |past| - 1;
      AllowedNow(mode, past);
      FailsAlike(cfg, mode, s.backends, s.cache, key, s.now, query, k, rerank);
    }
  }

  lemma AllowedNow(mode: Consistency, past: seq<LakeState>)
    requires past != []
    ensures Allowed(mode, past, |past| - 1)
  {
  }

  // ---------------------------------------------------------------- every run

  lemma StepKeepsLakeInv(cfg: Config, mode: Consistency, past: seq<LakeState>, e: Event)
    requires LakeInv(cfg, past) && Coherent(History(past))
    ensures LakeInv(cfg, past + [Next(cfg, mode, Last(past), e)])
  {
    var s, s' := Last(past), Next(cfg, mode, Last(past), e);
    hide Honest, SearchedOne, Coherent, Invalidated, BackendsAfter;
    assert Honest(cfg, past, s'.cache) by {
      match e
      case Search(key, query, k, rerank) => var _ := SearchAnswers(cfg, mode, past, key, query, k, rerank);
      case Invalidate(key) => InvalidatedStaysHonest(cfg, past, s.cache, key);
      case _ =>
    }
    LongerPast(cfg, past, s', s'.cache);
  }

  lemma {:induction false} RunKeepsLakeInv(cfg: Config, mode: Consistency, past: seq<LakeState>, events: seq<Event>)
    requires IsRun(cfg, mode, past, events) && Coherent(History(past))
    ensures LakeInv(cfg, past)
    decreases |events|
  {
    hide LakeInv, Coherent, Next;
    if events == [] {
      StartsHonest(cfg, past);
    } else {
      var n := |events| - 1;
      var before := past[..n + 1];
      assert past == before + [Next(cfg, mode, past[n], events[n])];
      PrefixCoherent(past, n + 1);
      RunKeepsLakeInv(cfg, mode, before, events[..n]);
      StepKeepsLakeInv(cfg, mode, before, events[n]);
    }
  }

  lemma StartsHonest(cfg: Config, past: seq<LakeState>)
    requires |past| == 1 && past[0].cache == EMPTY
    ensures LakeInv(cfg, past)
  {
    EmptyInv();
    hide Inv;
  }

  /** In every run, a search answers as an index built from some version of the data would, errors included: under
      Fresh from the data as it is at the time of the search, under Eventual from data that was current less than the
      time to live ago, under Frozen from data that once was current. */
  lemma SearchIsRecent(cfg: Config, mode: Consistency, past: seq<LakeState>, events: seq<Event>, key: Key, query: Vector,
                       k: nat, rerank: Option<nat>)
    requires IsRun(cfg, mode, past, events) && Coherent(History(past))
    ensures
      var s := Last(past);
      var answer := SearchedOne(cfg, mode, s.backends, s.cache, key, query, k, rerank, s.now).1;
      exists j :: Allowed(mode, past, j) && AnswerAsOf(cfg, past, j, key, query, k, rerank, answer)
  {
    hide LakeInv, Direct, SearchedOne, Honest;
    RunKeepsLakeInv(cfg, mode, past, events);
    var j := SearchAnswers(cfg, mode, past, key, query, k, rerank);
  }

  lemma FreshAnswer(cfg: Config, past: seq<LakeState>, key: Key, query: Vector, k: nat, rerank: Option<nat>)
    requires LakeInv(cfg, past) && Coherent(History(past))
    ensures
      var s := Last(past);
      SearchedOne(cfg, Fresh, s.backends, s.cache, key, query, k, rerank, s.now).1
      == Direct(cfg, s.backends, key, query, k, rerank)
  {
    hide Direct, SearchedOne, Honest, Coherent;
    var j := SearchAnswers(cfg, Fresh, past, key, query, k, rerank);
  }

  /** Under Fresh the cache cannot be noticed. */
  lemma FreshIsTransparent(cfg: Config, past: seq<LakeState>, events: seq<Event>, key: Key, query: Vector, k: nat,
                           rerank: Option<nat>)
    requires IsRun(cfg, Fresh, past, events) && Coherent(History(past))
    ensures
      var s := Last(past);
      SearchedOne(cfg, Fresh, s.backends, s.cache, key, query, k, rerank, s.now).1
      == Direct(cfg, s.backends, key, query, k, rerank)
  {
    hide LakeInv, Direct, SearchedOne, Coherent;
    RunKeepsLakeInv(cfg, Fresh, past, events);
    FreshAnswer(cfg, past, key, query, k, rerank);
  }

  // ---------------------------------------------------------------- the counters of a run

  /** Misses that have not been made good by a prime or a shared hit. */
  function Unsettled(c: Counters): int {
    c.misses - c.primes - c.sharedHits
  }

  predicate Unknown(e: Error) {
    e.UnknownBackend? || e.UnknownCollection?
  }

  lemma UnpointedStats(s: CacheState, key: Key)
    ensures Unpointed(s, key).stats == s.stats
  {
    hide WithoutReference;
  }

  /** A check counts one hit or one miss, unless the data is unknown; and a miss is settled by the same check, unless
      priming fails. */
  lemma CheckIsCounted(cfg: Config, mode: Consistency, bs: Backends, s: CacheState, key: Key, now: int)
    ensures
      var (s', r) := EnsuredFresh(cfg, mode, bs, s, key, now);
      && s'.stats.hits + s'.stats.misses
         == s.stats.hits + s.stats.misses + (if r.Err? && Unknown(r.error) then 0 else 1)
      && Unsettled(s'.stats) == Unsettled(s.stats) + (if r.Err? && !Unknown(r.error) then 1 else 0)
  {
    hide PointerInstalled, Tally, ValidBatch, WitnessOf;
    if Stored(bs, key) {
      var c, w := Get(bs, key), WitnessOf(cfg, Get(bs, key));
      var s1 := Counted(s, key, MISS);
      InstallCountsEvents(BeforeInstall(cfg, s1, key, w, Pulled(c), now), key, w, w in s1.entries, now);
    }
  }

  predicate Checks(cfg: Config, mode: Consistency, s: LakeState, e: Event) {
    e.Search?
    && var r := EnsuredFresh(cfg, mode, s.backends, s.cache, e.key, s.now).1;
       r.Ok? || !Unknown(r.error)
  }

  predicate FailsToPrime(cfg: Config, mode: Consistency, s: LakeState, e: Event) {
    e.Search?
    && var r := EnsuredFresh(cfg, mode, s.backends, s.cache, e.key, s.now).1;
       r.Err? && !Unknown(r.error)
  }

  function NumberOf(past: seq<LakeState>, events: seq<Event>, which: (LakeState, Event) -> bool): nat
    requires |past| == |events| + 1
    decreases |events|
  {
    if events == [] then 0
    else
      var n := |events| - 1;
      NumberOf(past[..n + 1], events[..n], which) + if which(past[n], events[n]) then 1 else 0
  }

  lemma EventIsCounted(cfg: Config, mode: Consistency, s: LakeState, e: Event)
    ensures
      var c, c' := s.cache.stats, Next(cfg, mode, s, e).cache.stats;
      && c'.hits + c'.misses == c.hits + c.misses + (if Checks(cfg, mode, s, e) then 1 else 0)
      && Unsettled(c') == Unsettled(c) + (if FailsToPrime(cfg, mode, s, e) then 1 else 0)
  {
    hide EnsuredFresh, Unpointed, Tally, IndexAnswer, BackendsAfter;
    if e.Invalidate? {
      UnpointedStats(s.cache, e.key);
    }
    if e.Search? {
      CheckIsCounted(cfg, mode, s.backends, s.cache, e.key, s.now);
    }
  }

  /** In every run the hits and misses add up to the searches of known data, and the misses to the primes, the shared
      hits and the searches that failed to prime. */
  lemma {:induction false} CountersAddUp(cfg: Config, mode: Consistency, past: seq<LakeState>, events: seq<Event>)
    requires IsRun(cfg, mode, past, events)
    ensures
      var c := Last(past).cache.stats;
      && c.hits + c.misses == NumberOf(past, events, (s, e) => Checks(cfg, mode, s, e))
      && c.misses == c.primes + c.sharedHits + NumberOf(past, events, (s, e) => FailsToPrime(cfg, mode, s, e))
    decreases |events|
  {
    hide Checks, FailsToPrime, Next;
    if events != [] {
      var n := |events| - 1;
      CountersAddUp(cfg, mode, past[..n + 1], events[..n]);
      EventIsCounted(cfg, mode, past[n], events[n]);
      assert past[n + 1] == Next(cfg, mode, past[n], events[n]);
    }
  }
}
