/** The witness-addressed vector cache: compressed entries shared by witness, pointers from (backend, collection) to
    witnesses, reference counts and counters. */
module Cache {
  import opened Bytes
  import opened Bundle
  import opened Collections
  import opened Limits
  import opened Wrappers

  /** Names are short enough for the lengths of references to fit 64 bits. */
  type Name = s: Utf8 | |s| < 0x4000_0000_0000_0000 witness []

  datatype BackendId = BackendId(text: Name)

  datatype CollectionId = CollectionId(text: Name)

  datatype Key = Key(backend: BackendId, collection: CollectionId)

  type Vector = seq<real>

  /** The compressed index is a deterministic function of these. */
  datatype Index = Index(dim: nat, rotationSeed: u64, rerankFactor: u64, vectors: seq<Vector>)

  datatype PulledBatch = PulledBatch(ids: seq<u64>, vectors: seq<Vector>, dim: nat, generation: u64)

  datatype Entry = Entry(
    index: Index,
    dim: nat,
    generationHint: Option<u64>,
    lastChecked: int,
    lastUsed: int,
    posToId: seq<u64>,
    refcount: u32)

  /** The events counted globally, per backend and per collection. */
  datatype Counters = Counters(hits: nat, misses: nat, primes: nat, invalidations: nat, sharedHits: nat)

  datatype Consistency = Fresh | Eventual(ttlMs: nat) | Frozen

  /** Errors as returned; Panic is no return at all. */
  datatype Error =
    | InvalidParameter
    | UnknownBackend(id: BackendId)
    | UnknownCollection(key: Key)
    | DimensionMismatch(expected: nat, actual: nat)
    | IndexError
    | Panic

  datatype CacheState = CacheState(
    entries: map<Witness, Entry>,
    pointers: map<Key, Witness>,
    lastChecked: map<Key, int>,
    stats: Counters,
    warmInstalls: nat,
    perBackend: map<BackendId, Counters>,
    perCollection: map<Key, Counters>)

  const EMPTY := CacheState(map[], map[], map[], ZERO, 0, map[], map[])

  // ---------------------------------------------------------------- counters

  const ZERO := Counters(0, 0, 0, 0, 0)
  const HIT := Counters(1, 0, 0, 0, 0)
  const MISS := Counters(0, 1, 0, 0, 0)
  const PRIME := Counters(0, 0, 1, 0, 0)
  const INVALIDATION := Counters(0, 0, 0, 1, 0)
  const SHARED_HIT := Counters(0, 0, 0, 0, 1)

  function Plus(a: Counters, b: Counters): Counters {
    Counters(a.hits + b.hits, a.misses + b.misses, a.primes + b.primes,
             a.invalidations + b.invalidations, a.sharedHits + b.sharedHits)
  }

  function Tally<K>(m: map<K, Counters>, k: K, d: Counters): map<K, Counters> {
    m[k := Plus(if k in m then m[k] else ZERO, d)]
  }

  /** One event, counted at all three levels. */
  function Counted(s: CacheState, key: Key, d: Counters): CacheState {
    s.(stats := Plus(s.stats, d),
       perBackend := Tally(s.perBackend, key.backend, d),
       perCollection := Tally(s.perCollection, key, d))
  }

  ghost function Sum<K(!new)>(m: map<K, Counters>): Counters
    decreases |m|
  {
    if m == map[] then ZERO
    else
      var k :| k in m;
      assert |(m - {k}).Keys| == |m.Keys| - 1 by {
        assert (m - {k}).Keys == m.Keys - {k};
      }
      Plus(m[k], Sum(m - {k}))
  }

  lemma PlusExchange(a: Counters, b: Counters, c: Counters)
    ensures Plus(a, Plus(b, c)) == Plus(b, Plus(a, c))
  {
  }

  lemma {:induction false} SumWithout<K(!new)>(m: map<K, Counters>, k: K)
    requires k in m
    ensures Sum(m) == Plus(m[k], Sum(m - {k}))
    decreases |m|
  {
    var j :| j in m && Sum(m) == Plus(m[j], Sum(m - {j}));
    if j != k {
      assert (m - {j}).Keys == m.Keys - {j};
      SumWithout(m - {j}, k);
      assert (m - {j})[k] == m[k] && (m - {k})[j] == m[j];
      assert m - {j} - {k} == m - {k} - {j};
      assert (m - {k}).Keys == m.Keys - {k};
      SumWithout(m - {k}, j);
      PlusExchange(m[j], m[k], Sum(m - {k} - {j}));
    }
  }

  lemma SumTally<K(!new)>(m: map<K, Counters>, k: K, d: Counters)
    ensures Sum(Tally(m, k, d)) == Plus(Sum(m), d)
  {
    var m' := Tally(m, k, d);
    SumWithout(m', k);
    assert m' - {k} == m - {k};
    if k in m {
      SumWithout(m, k);
    } else {
      assert m - {k} == m;
    }
  }

  // ---------------------------------------------------------------- pointers and reference counts

  const MAX_REFCOUNT: u32 := 0xFFFF_FFFF

  function SaturatingAdd(a: u32): u32 {
    if a < MAX_REFCOUNT then a + 1 else MAX_REFCOUNT
  }

  function SaturatingSub(a: u32): u32 {
    if a > 0 then a - 1 else 0
  }

  /** One reference fewer to an entry, which goes with its last one. */
  function WithoutReference(entries: map<Witness, Entry>, w: Witness): map<Witness, Entry> {
    if w !in entries then entries
    else
      var rc := SaturatingSub(entries[w].refcount);
      if rc == 0 then entries - {w} else entries[w := entries[w].(refcount := rc)]
  }

  /** Takes away the key's pointer. */
  function Unpointed(s: CacheState, key: Key): CacheState {
    if key !in s.pointers then s
    else s.(pointers := s.pointers - {key}, entries := WithoutReference(s.entries, s.pointers[key]))
  }

  /** The key had the last reference to an entry. */
  predicate DropsEntry(s: CacheState, key: Key) {
    key in s.pointers && s.pointers[key] in s.entries && SaturatingSub(s.entries[s.pointers[key]].refcount) == 0
  }

  function Pointed(s: CacheState, key: Key, w: Witness, now: int): CacheState {
    s.(pointers := s.pointers[key := w],
       entries := if w in s.entries
                  then s.entries[w := s.entries[w].(refcount := SaturatingAdd(s.entries[w].refcount), lastChecked := now)]
                  else s.entries,
       lastChecked := s.lastChecked[key := now])
  }

  function Released(s: CacheState, key: Key): CacheState {
    if DropsEntry(s, key) then Counted(Unpointed(s, key), key, INVALIDATION) else Unpointed(s, key)
  }

  function PointerInstalled(s: CacheState, key: Key, w: Witness, shared: bool, now: int): CacheState {
    var s1 := Pointed(Released(s, key), key, w, now);
    if shared then Counted(s1, key, SHARED_HIT) else s1
  }

  function Invalidated(s: CacheState, key: Key): CacheState {
    var s1 := if key in s.pointers then Counted(Unpointed(s, key), key, INVALIDATION) else s;
    s1.(lastChecked := s1.lastChecked - {key})
  }

  function Touched(s: CacheState, key: Key, now: int): CacheState {
    s.(lastChecked := s.lastChecked[key := now])
  }

  function CanSkipCheck(s: CacheState, key: Key, c: Consistency, now: int): bool {
    match c
    case Fresh => false
    case Eventual(ttlMs) => key in s.lastChecked && now - s.lastChecked[key] < ttlMs
    case Frozen => key in s.pointers
  }

  // ---------------------------------------------------------------- priming

  predicate ValidBatch(b: PulledBatch) {
    && |b.ids| == |b.vectors|
    && |b.ids| <= MAX_PULLED_VECTORS
    && 0 < b.dim <= MAX_PULLED_DIM
    && |b.ids| * b.dim * 4 <= MAX_PULLED_BYTES
  }

  /** How the cache was set up, and the index library as far as the cache sees it: which inputs it can index, and what a
      search of an index yields (positions and scores), if it succeeds; the last argument overrides the rerank factor. */
  datatype Config = Config(
    rotationSeed: u64,
    rerankFactor: u64,
    maxEntries: Option<nat>,
    accepts: Index -> bool,
    search: (Index, Vector, nat, Option<nat>) -> Option<seq<(nat, real)>>)

  function IndexOf(cfg: Config, b: PulledBatch): Index {
    Index(b.dim, cfg.rotationSeed, cfg.rerankFactor, b.vectors)
  }

  function NewEntry(index: Index, hint: Option<u64>, posToId: seq<u64>, now: int): Entry {
    Entry(index, index.dim, hint, now, now, posToId, 0)
  }

  function WithEntry(s: CacheState, w: Witness, e: Entry): CacheState {
    s.(entries := s.entries[w := e])
  }

  /** Priming up to eviction. */
  function Primed(cfg: Config, s: CacheState, key: Key, w: Witness, b: PulledBatch, now: int): Result<CacheState, Error> {
    if !ValidBatch(b) then Err(InvalidParameter)
    else if w in s.entries then Ok(PointerInstalled(s, key, w, true, now))
    else if !cfg.accepts(IndexOf(cfg, b)) then Err(IndexError)
    else
      var s1 := WithEntry(s, w, NewEntry(IndexOf(cfg, b), Some(b.generation), b.ids, now));
      Ok(PointerInstalled(Counted(s1, key, PRIME), key, w, false, now))
  }

  /** Installing an index loaded from disk, up to eviction. */
  function Preinstalled(s: CacheState, key: Key, w: Witness, index: Index, posToId: seq<u64>, now: int)
    : Result<CacheState, Error>
  {
    if |posToId| != |index.vectors| then Err(InvalidParameter)
    else if w in s.entries then Ok(PointerInstalled(s, key, w, false, now))
    else
      var s1 := WithEntry(s, w, NewEntry(index, None, posToId, now));
      Ok(PointerInstalled(s1.(warmInstalls := s1.warmInstalls + 1), key, w, false, now))
  }

  // ---------------------------------------------------------------- eviction

  function Unpinned(s: CacheState): set<Witness> {
    set w | w in s.entries && s.entries[w].refcount == 0
  }

  /** Unpinned entries go, least recently used first, while there are more than cap entries. */
  ghost predicate Evicted(s: CacheState, cap: nat, s': CacheState) {
    && s' == s.(entries := s'.entries, stats := s'.stats)
    && (forall w :: w in s'.entries ==> w in s.entries && s'.entries[w] == s.entries[w])
    && s.entries.Keys - s'.entries.Keys <= Unpinned(s)
    && (|s'.entries| <= cap || Unpinned(s') == {})
    && (|s.entries| <= cap ==> s' == s)
    && s'.stats == s.stats.(invalidations := s'.stats.invalidations)
    && s'.stats.invalidations + |s'.entries| == s.stats.invalidations + |s.entries|
    && forall w, v :: w in s.entries && w !in s'.entries && v in Unpinned(s') ==>
         s.entries[w].lastUsed <= s.entries[v].lastUsed
  }

  lemma NothingToEvict(s: CacheState, cap: nat, s': CacheState)
    requires Unpinned(s) == {} && Evicted(s, cap, s')
    ensures s' == s
  {
    forall w | w in s.entries
      ensures w in s'.entries
    {
      assert w in s'.entries || w in s.entries.Keys - s'.entries.Keys;
    }
    assert s'.entries == s.entries;
  }

  // ---------------------------------------------------------------- searching

  function FoundIds(hits: seq<(nat, real)>, posToId: seq<u64>): Result<seq<(u64, real)>, Error> {
    if hits == [] then Ok([])
    else if hits[0].0 >= |posToId| then Err(Panic)
    else match FoundIds(hits[1..], posToId)
      case Err(e) => Err(e)
      case Ok(rest) => Ok([(posToId[hits[0].0], hits[0].1)] + rest)
  }

  /** Searching one index: positions are mapped to ids; a position outside the entry panics. */
  function IndexAnswer(cfg: Config, index: Index, posToId: seq<u64>, query: Vector, k: nat, rerank: Option<nat>)
    : Result<seq<(u64, real)>, Error>
  {
    match cfg.search(index, query, k, rerank)
    case None => Err(IndexError)
    case Some(hits) => FoundIds(hits, posToId)
  }

  function Searched(cfg: Config, s: CacheState, key: Key, query: Vector, k: nat, rerank: Option<nat>, now: int)
    : (CacheState, Result<seq<(u64, real)>, Error>)
  {
    if key !in s.pointers || s.pointers[key] !in s.entries then (s, Err(UnknownCollection(key)))
    else
      var w := s.pointers[key];
      var e := s.entries[w];
      if |query| != e.dim then (s, Err(DimensionMismatch(e.dim, |query|)))
      else
        (s.(entries := s.entries[w := e.(lastUsed := now)]), IndexAnswer(cfg, e.index, e.posToId, query, k, rerank))
  }

  // ---------------------------------------------------------------- invariant

  function Holders(s: CacheState, w: Witness): set<Key> {
    set k | k in s.pointers && s.pointers[k] == w
  }

  /** Every pointer resolves. */
  predicate Resolves(s: CacheState) {
    forall k :: k in s.pointers ==> s.pointers[k] in s.entries
  }

  /** Every reference count is the number of pointers. */
  ghost predicate CountsMatch(s: CacheState) {
    forall w :: w in s.entries ==> s.entries[w].refcount == |Holders(s, w)|
  }

  ghost predicate StatsMatch(s: CacheState) {
    s.stats == Sum(s.perBackend) && s.stats == Sum(s.perCollection)
  }

  ghost predicate Inv(s: CacheState) {
    && Resolves(s) && CountsMatch(s) && Unpinned(s) == {}
    && s.lastChecked.Keys == s.pointers.Keys
    && StatsMatch(s)
  }

  lemma CountedKeepsStats(s: CacheState, key: Key, d: Counters)
    requires StatsMatch(s)
    ensures StatsMatch(Counted(s, key, d))
  {
    hide Sum, Plus, Tally;
    SumTally(s.perBackend, key.backend, d);
    SumTally(s.perCollection, key, d);
  }

  /** Without its pointer, a key no longer holds its entry; nobody else is affected. */
  lemma UnpointedHolders(s: CacheState, key: Key, w: Witness)
    ensures Holders(Unpointed(s, key), w) == Holders(s, w) - {key}
  {
  }

  lemma PointedHolders(s: CacheState, key: Key, w: Witness, now: int, v: Witness)
    requires key !in s.pointers
    ensures Holders(Pointed(s, key, w, now), v) == Holders(s, v) + if v == w then {key} else {}
  {
  }

  lemma UnpointedCounts(s: CacheState, key: Key)
    requires Resolves(s) && CountsMatch(s)
    ensures Resolves(Unpointed(s, key)) && CountsMatch(Unpointed(s, key))
    ensures Unpinned(Unpointed(s, key)) <= Unpinned(s)
    ensures key in s.pointers && Holders(s, s.pointers[key]) == {key} ==>
      Unpointed(s, key).entries == s.entries - {s.pointers[key]}
    ensures key in s.pointers && Holders(s, s.pointers[key]) != {key} ==>
      Unpointed(s, key).entries.Keys == s.entries.Keys
  {
    var s' := Unpointed(s, key);
    if key in s.pointers {
      var w := s.pointers[key];
      assert key in Holders(s, w);
      assert |Holders(s, w) - {key}| == |Holders(s, w)| - 1;
      assert |Holders(s, w)| == 1 ==> Holders(s, w) - {key} == {};
      forall v | v in s'.entries
        ensures s'.entries[v].refcount == |Holders(s', v)|
      {
        UnpointedHolders(s, key, v);
        assert v != w ==> Holders(s, v) - {key} == Holders(s, v);
      }
      forall k | k in s'.pointers
        ensures s'.pointers[k] in s'.entries
      {
        assert k in Holders(s, s.pointers[k]);
        if s.pointers[k] == w {
          assert k in Holders(s, w) - {key};
        }
      }
    }
  }

  lemma PointedCounts(s: CacheState, key: Key, w: Witness, now: int)
    requires CountsMatch(s) && Resolves(s) && key !in s.pointers && w in s.entries
    requires s.entries[w].refcount < MAX_REFCOUNT
    ensures Resolves(Pointed(s, key, w, now)) && CountsMatch(Pointed(s, key, w, now))
    ensures Unpinned(Pointed(s, key, w, now)) == Unpinned(s) - {w}
  {
    var s' := Pointed(s, key, w, now);
    forall v | v in s'.entries
      ensures s'.entries[v].refcount == |Holders(s', v)|
    {
      PointedHolders(s, key, w, now, v);
      assert key !in Holders(s, v);
    }
  }

  // ---------------------------------------------------------------- what keeps the invariant

  /** The key's own pointer is the only one to the witness being installed. */
  predicate HoldsAlone(s: CacheState, key: Key, w: Witness) {
    key in s.pointers && s.pointers[key] == w && w in s.entries && s.entries[w].refcount == 1
  }

  /** One more pointer would not fit the entry's reference count. */
  predicate Saturated(s: CacheState, key: Key, w: Witness) {
    w in s.entries && s.entries[w].refcount == MAX_REFCOUNT && !(key in s.pointers && s.pointers[key] == w)
  }

  /** Re-installing a witness on the key that alone holds it deletes the entry and leaves the pointer dangling. */
  lemma ReinstallDangles(s: CacheState, key: Key, w: Witness, shared: bool, now: int)
    requires HoldsAlone(s, key, w)
    ensures
      var s' := PointerInstalled(s, key, w, shared, now);
      key in s'.pointers && s'.pointers[key] == w && w !in s'.entries
  {
  }

  lemma InstallStats(s: CacheState, key: Key, w: Witness, shared: bool, now: int)
    requires StatsMatch(s)
    ensures StatsMatch(PointerInstalled(s, key, w, shared, now))
  {
    hide StatsMatch, Sum, Plus, Tally;
    SameStats(s, Unpointed(s, key));
    CountedKeepsStats(Unpointed(s, key), key, INVALIDATION);
    var s1 := Released(s, key);
    SameStats(s1, Pointed(s1, key, w, now));
    CountedKeepsStats(Pointed(s1, key, w, now), key, SHARED_HIT);
  }

  lemma SameStats(s: CacheState, s': CacheState)
    requires StatsMatch(s) && s'.stats == s.stats && s'.perBackend == s.perBackend && s'.perCollection == s.perCollection
    ensures StatsMatch(s')
  {
  }

  lemma ReleasedCounts(s: CacheState, key: Key)
    requires Resolves(s) && CountsMatch(s)
    ensures Resolves(Released(s, key)) && CountsMatch(Released(s, key))
    ensures Unpinned(Released(s, key)) <= Unpinned(s)
  {
    hide Counted, CountsMatch, Resolves, Unpinned;
    UnpointedCounts(s, key);
    CountedOnlyCounts(Unpointed(s, key), key, INVALIDATION);
    SameCounts(Unpointed(s, key), Released(s, key));
  }

  lemma OneFewer(m: map<Key, Witness>, key: Key)
    ensures key in m ==> |m - {key}| == |m| - 1
    ensures key !in m ==> m - {key} == m
  {
    assert (m - {key}).Keys == m.Keys - {key};
  }

  lemma ReleasedIsReady(s: CacheState, key: Key, w: Witness)
    requires Resolves(s) && CountsMatch(s) && w in s.entries
    requires !HoldsAlone(s, key, w) && !Saturated(s, key, w)
    ensures w in Released(s, key).entries && key !in Released(s, key).pointers
    ensures Released(s, key).entries[w].refcount < MAX_REFCOUNT
  {
    hide Resolves, Released, Unpinned;
    ReleasedKeys(s, key);
    NotAloneStays(s, key, w);
    if key in s.pointers && s.pointers[key] == w {
      assert key in Holders(s, w);
    }
  }

  /** Installing a pointer to an entry that is there keeps every count right, if the key does not hold that very entry
      alone and the count has room; a fresh entry gets its first reference. */
  lemma InstallCounts(s: CacheState, key: Key, w: Witness, shared: bool, now: int)
    requires Resolves(s) && CountsMatch(s) && w in s.entries && Unpinned(s) <= {w}
    requires !HoldsAlone(s, key, w) && !Saturated(s, key, w)
    ensures
      var s' := PointerInstalled(s, key, w, shared, now);
      Resolves(s') && CountsMatch(s') && Unpinned(s') == {}
  {
    hide CountsMatch, Resolves, Released, Unpinned, Counted, Pointed;
    var s1 := Released(s, key);
    ReleasedCounts(s, key);
    ReleasedKeys(s, key);
    ReleasedIsReady(s, key, w);
    PointedCounts(s1, key, w, now);
    var s2 := Pointed(s1, key, w, now);
    CountedOnlyCounts(s2, key, SHARED_HIT);
    SameCounts(s2, Counted(s2, key, SHARED_HIT));
  }

  lemma ReleasedKeys(s: CacheState, key: Key)
    ensures Released(s, key).pointers == s.pointers - {key}
    ensures Released(s, key).lastChecked == s.lastChecked
    ensures Released(s, key).entries == Unpointed(s, key).entries
  {
    hide Counted;
    CountedOnlyCounts(Unpointed(s, key), key, INVALIDATION);
    OneFewer(s.pointers, key);
  }

  lemma InstallKeys(s: CacheState, key: Key, w: Witness, shared: bool, now: int)
    ensures
      var s' := PointerInstalled(s, key, w, shared, now);
      && s'.pointers == s.pointers[key := w]
      && s'.lastChecked == s.lastChecked[key := now]
      && s'.entries == Pointed(Released(s, key), key, w, now).entries
  {
    hide Counted, Released;
    ReleasedKeys(s, key);
    var s1 := Pointed(Released(s, key), key, w, now);
    CountedOnlyCounts(s1, key, SHARED_HIT);
    assert (s.pointers - {key})[key := w] == s.pointers[key := w];
  }

  lemma NotAloneStays(s: CacheState, key: Key, w: Witness)
    requires CountsMatch(s) && Resolves(s) && w in s.entries && !HoldsAlone(s, key, w)
    ensures w in Unpointed(s, key).entries
  {
    if key in s.pointers && s.pointers[key] == w {
      assert key in Holders(s, w);
      assert |Holders(s, w)| != 1;
    }
  }

  lemma CountedOnlyCounts(s: CacheState, key: Key, d: Counters)
    ensures Counted(s, key, d).entries == s.entries && Counted(s, key, d).pointers == s.pointers
    ensures Counted(s, key, d).lastChecked == s.lastChecked
  {
  }

  lemma SameCounts(s: CacheState, s': CacheState)
    requires s'.entries == s.entries && s'.pointers == s.pointers
    ensures Resolves(s) == Resolves(s') && CountsMatch(s) == CountsMatch(s') && Unpinned(s) == Unpinned(s')
  {
    if CountsMatch(s) {
      forall w | w in s'.entries ensures s'.entries[w].refcount == |Holders(s', w)| { assert Holders(s', w) == Holders(s, w); }
    }
    if CountsMatch(s') {
      forall w | w in s.entries ensures s.entries[w].refcount == |Holders(s, w)| { assert Holders(s', w) == Holders(s, w); }
    }
  }

  lemma SameStatsTwice(s: CacheState, s': CacheState, key: Key, d: Counters)
    requires StatsMatch(s) && s'.stats == s.stats && s'.perBackend == s.perBackend && s'.perCollection == s.perCollection
    ensures StatsMatch(Counted(s', key, d))
  {
    hide StatsMatch, Counted;
    SameStats(s, s');
    CountedKeepsStats(s', key, d);
  }

  // ---------------------------------------------------------------- operations and runs

  datatype Op =
    | Prime(key: Key, w: Witness, batch: PulledBatch)
    | InstallPrebuilt(key: Key, w: Witness, index: Index, posToId: seq<u64>)
    | Invalidate(key: Key)
    | MarkHit(key: Key)
    | MarkMiss(key: Key)
    | Touch(key: Key)
    | Search(key: Key, query: Vector, k: nat, rerank: Option<nat>)

  function After(s: CacheState, r: Result<CacheState, Error>): CacheState {
    match r
    case Ok(s') => s'
    case Err(_) => s
  }

  /** The effect of one operation; eviction is left out because it never has one (NoVictimEver). */
  function Applied(cfg: Config, s: CacheState, op: Op, now: int): CacheState {
    match op
    case Prime(key, w, batch) => After(s, Primed(cfg, s, key, w, batch, now))
    case InstallPrebuilt(key, w, index, posToId) => After(s, Preinstalled(s, key, w, index, posToId, now))
    case Invalidate(key) => Invalidated(s, key)
    case MarkHit(key) => Counted(s, key, HIT)
    case MarkMiss(key) => Counted(s, key, MISS)
    case Touch(key) => Touched(s, key, now)
    case Search(key, query, k, rerank) => Searched(cfg, s, key, query, k, rerank, now).0
  }

  /** An operation and the time at which it happened. */
  datatype Timed = Timed(op: Op, at: int)

  function Run(cfg: Config, s: CacheState, ops: seq<Timed>): CacheState
    decreases |ops|
  {
    if ops == [] then s else Run(cfg, Applied(cfg, s, ops[0].op, ops[0].at), ops[1..])
  }

  // ---------------------------------------------------------------- what every run keeps

  /** What no operation whatsoever can break. */
  ghost predicate Sound(s: CacheState) {
    Unpinned(s) == {} && StatsMatch(s)
  }

  lemma InstallPins(s: CacheState, key: Key, w: Witness, shared: bool, now: int)
    requires Unpinned(s) <= {w}
    ensures Unpinned(PointerInstalled(s, key, w, shared, now)) == {}
  {
    hide Counted, Released, Unpinned;
    InstallKeys(s, key, w, shared, now);
    ReleasedKeys(s, key);
    UnpointedPins(s, key);
    PointedPins(Released(s, key), key, w, now);
    SamePins(Unpointed(s, key), Released(s, key));
    SamePins(Pointed(Released(s, key), key, w, now), PointerInstalled(s, key, w, shared, now));
  }

  lemma UnpointedPins(s: CacheState, key: Key)
    ensures Unpinned(Unpointed(s, key)) <= Unpinned(s)
  {
  }

  lemma PointedPins(s: CacheState, key: Key, w: Witness, now: int)
    ensures Unpinned(Pointed(s, key, w, now)) == Unpinned(s) - {w}
  {
  }

  lemma SamePins(s: CacheState, s': CacheState)
    requires s'.entries == s.entries
    ensures Unpinned(s') == Unpinned(s)
  {
  }

  lemma AppliedKeepsSound(cfg: Config, s: CacheState, op: Op, now: int)
    requires Sound(s)
    ensures Sound(Applied(cfg, s, op, now))
  {
    hide StatsMatch, Counted, PointerInstalled;
    match op
    case Prime(key, w, b) =>
      PrimedKeepsSound(cfg, s, key, w, b, now);
    case InstallPrebuilt(key, w, index, posToId) =>
      PreinstalledKeepsSound(s, key, w, index, posToId, now);
    case Invalidate(key) =>
      InvalidatedKeepsSound(s, key);
    case MarkHit(key) =>
      CountedKeepsStats(s, key, HIT);
      CountedOnlyCounts(s, key, HIT);
    case MarkMiss(key) =>
      CountedKeepsStats(s, key, MISS);
      CountedOnlyCounts(s, key, MISS);
    case Touch(key) =>
      SameStats(s, Touched(s, key, now));
    case Search(key, query, k, rerank) =>
      SameStats(s, Searched(cfg, s, key, query, k, rerank, now).0);
  }

  lemma PrimedKeepsSound(cfg: Config, s: CacheState, key: Key, w: Witness, b: PulledBatch, now: int)
    requires Sound(s)
    ensures Primed(cfg, s, key, w, b, now).Ok? ==> Sound(Primed(cfg, s, key, w, b, now).value)
  {
    hide StatsMatch, Counted, PointerInstalled, ValidBatch;
    var s1 := WithEntry(s, w, NewEntry(IndexOf(cfg, b), Some(b.generation), b.ids, now));
    var s2 := Counted(s1, key, PRIME);
    CountedOnlyCounts(s1, key, PRIME);
    SameStatsTwice(s, s1, key, PRIME);
    InstallStats(s2, key, w, false, now);
    InstallPins(s2, key, w, false, now);
    InstallStats(s, key, w, true, now);
    InstallPins(s, key, w, true, now);
  }

  lemma PreinstalledKeepsSound(s: CacheState, key: Key, w: Witness, index: Index, posToId: seq<u64>, now: int)
    requires Sound(s)
    ensures
      Preinstalled(s, key, w, index, posToId, now).Ok? ==> Sound(Preinstalled(s, key, w, index, posToId, now).value)
  {
    hide StatsMatch, Counted, PointerInstalled;
    var s1 := WithEntry(s, w, NewEntry(index, None, posToId, now));
    var s2 := s1.(warmInstalls := s1.warmInstalls + 1);
    SameStats(s, s2);
    InstallStats(s2, key, w, false, now);
    InstallPins(s2, key, w, false, now);
    InstallStats(s, key, w, false, now);
    InstallPins(s, key, w, false, now);
  }

  lemma InvalidatedKeepsSound(s: CacheState, key: Key)
    requires Sound(s)
    ensures Sound(Invalidated(s, key))
  {
    hide StatsMatch, Counted, Unpinned;
    var u := Unpointed(s, key);
    UnpointedPins(s, key);
    SameStatsTwice(s, u, key, INVALIDATION);
    CountedOnlyCounts(u, key, INVALIDATION);
    SameStats(if key in s.pointers then Counted(u, key, INVALIDATION) else s, Invalidated(s, key));
    SamePins(u, Invalidated(s, key));
  }

  lemma {:induction false} RunKeepsSound(cfg: Config, s: CacheState, ops: seq<Timed>)
    requires Sound(s)
    ensures Sound(Run(cfg, s, ops))
    decreases |ops|
  {
    hide Sound, Applied;
    if ops != [] {
      AppliedKeepsSound(cfg, s, ops[0].op, ops[0].at);
      RunKeepsSound(cfg, Applied(cfg, s, ops[0].op, ops[0].at), ops[1..]);
    }
  }

  /** In every run at all, guarded or not, no entry is unpinned when an operation ends, so the cap never evicts anything;
      and the global counters are the sums of the counters per backend and per collection. */
  lemma NoVictimEver(cfg: Config, ops: seq<Timed>, cap: nat, s': CacheState)
    ensures
      var s := Run(cfg, EMPTY, ops);
      && s.stats == Sum(s.perBackend) && s.stats == Sum(s.perCollection)
      && (Evicted(s, cap, s') ==> s' == s)
  {
    var s := Run(cfg, EMPTY, ops);
    assert Sound(s) by {
      EmptyInv();
      RunKeepsSound(cfg, EMPTY, ops);
    }
    hide Run, Evicted, Sum;
    if Evicted(s, cap, s') {
      NothingToEvict(s, cap, s');
    }
  }

  // ---------------------------------------------------------------- what guarded runs keep

  /** The operation installs this witness for this key. */
  predicate Installs(cfg: Config, s: CacheState, op: Op) {
    match op
    case Prime(key, w, b) => Primed(cfg, s, key, w, b, 0).Ok?
    case InstallPrebuilt(key, w, index, posToId) => |posToId| == |index.vectors|
    case _ => false
  }

  /** What callers must see to: no installation of the witness that the key alone already holds, no pointer too many for
      the entry's count, no touch of a key that has no pointer. */
  predicate Guarded(cfg: Config, s: CacheState, op: Op) {
    && (Installs(cfg, s, op) ==> !HoldsAlone(s, op.key, op.w) && !Saturated(s, op.key, op.w))
    && (op.Touch? ==> op.key in s.pointers)
  }

  lemma InstallKeepsInv(s: CacheState, s1: CacheState, key: Key, w: Witness, shared: bool, now: int)
    requires Inv(s) && !HoldsAlone(s, key, w) && !Saturated(s, key, w)
    requires s1.pointers == s.pointers && s1.lastChecked == s.lastChecked && StatsMatch(s1)
    requires if w in s.entries then s1.entries == s.entries
             else w in s1.entries && s1.entries == s.entries[w := s1.entries[w]] && s1.entries[w].refcount == 0
    ensures Inv(PointerInstalled(s1, key, w, shared, now))
  {
    hide StatsMatch, PointerInstalled, Unpinned, CountsMatch;
    WithEntryCounts(s, s1, w);
    InstallCounts(s1, key, w, shared, now);
    InstallKeys(s1, key, w, shared, now);
    InstallStats(s1, key, w, shared, now);
  }

  lemma WithEntryCounts(s: CacheState, s1: CacheState, w: Witness)
    requires Resolves(s) && CountsMatch(s) && Unpinned(s) == {} && s1.pointers == s.pointers
    requires if w in s.entries then s1.entries == s.entries
             else w in s1.entries && s1.entries == s.entries[w := s1.entries[w]] && s1.entries[w].refcount == 0
    ensures Resolves(s1) && CountsMatch(s1) && Unpinned(s1) <= {w}
  {
    forall v | v in s1.entries
      ensures s1.entries[v].refcount == |Holders(s1, v)|
    {
      assert Holders(s1, v) == Holders(s, v);
      assert v !in s.entries ==> Holders(s, v) == {};
    }
  }

  lemma PrimedKeepsInv(cfg: Config, s: CacheState, key: Key, w: Witness, b: PulledBatch, now: int)
    requires Inv(s) && Primed(cfg, s, key, w, b, now).Ok? && !HoldsAlone(s, key, w) && !Saturated(s, key, w)
    ensures Inv(Primed(cfg, s, key, w, b, now).value)
  {
    hide StatsMatch, Counted, PointerInstalled, ValidBatch, Inv;
    assert StatsMatch(s) by {
      InvIsSound(s);
    }
    if w in s.entries {
      InstallKeepsInv(s, s, key, w, true, now);
    } else {
      var s1 := WithEntry(s, w, NewEntry(IndexOf(cfg, b), Some(b.generation), b.ids, now));
      CountedOnlyCounts(s1, key, PRIME);
      SameStatsTwice(s, s1, key, PRIME);
      InstallKeepsInv(s, Counted(s1, key, PRIME), key, w, false, now);
    }
  }

  lemma PreinstalledKeepsInv(s: CacheState, key: Key, w: Witness, index: Index, posToId: seq<u64>, now: int)
    requires Inv(s) && |posToId| == |index.vectors| && !HoldsAlone(s, key, w) && !Saturated(s, key, w)
    ensures Inv(Preinstalled(s, key, w, index, posToId, now).value)
  {
    hide StatsMatch, PointerInstalled, Inv;
    InvIsSound(s);
    if w in s.entries {
      InstallKeepsInv(s, s, key, w, false, now);
    } else {
      var s1 := WithEntry(s, w, NewEntry(index, None, posToId, now));
      var s2 := s1.(warmInstalls := s1.warmInstalls + 1);
      SameStats(s, s2);
      InstallKeepsInv(s, s2, key, w, false, now);
    }
  }

  lemma InvIsSound(s: CacheState)
    requires Inv(s)
    ensures Sound(s)
  {
  }

  /** An installation that does not fail keeps the cache consistent if and only if its key does not alone hold the very
      witness it installs, and the count has room. In the first case the pointer is left dangling. */
  lemma InstallKeepsInvExactlyWhen(cfg: Config, s: CacheState, op: Op, now: int)
    requires Inv(s) && (op.Prime? || op.InstallPrebuilt?)
    ensures Inv(Applied(cfg, s, op, now)) <==> Guarded(cfg, s, op)
    ensures Installs(cfg, s, op) && HoldsAlone(s, op.key, op.w) ==>
      var s' := Applied(cfg, s, op, now);
      op.key in s'.pointers && s'.pointers[op.key] == op.w && op.w !in s'.entries
  {
    hide Inv, PointerInstalled, ValidBatch;
    if Installs(cfg, s, op) {
      if HoldsAlone(s, op.key, op.w) {
        ReinstallDangles(s, op.key, op.w, op.Prime?, now);
        DanglingBreaksInv(PointerInstalled(s, op.key, op.w, op.Prime?, now), op.key);
      } else if Saturated(s, op.key, op.w) {
        SaturatedBreaksInv(s, op.key, op.w, op.Prime?, now);
      } else {
        match op
        case Prime(key, w, b) => PrimedKeepsInv(cfg, s, key, w, b, now);
        case InstallPrebuilt(key, w, index, posToId) => PreinstalledKeepsInv(s, key, w, index, posToId, now);
      }
    }
  }

  lemma DanglingBreaksInv(s: CacheState, key: Key)
    requires key in s.pointers && s.pointers[key] !in s.entries
    ensures !Inv(s)
  {
  }

  lemma SaturatedBreaksInv(s: CacheState, key: Key, w: Witness, shared: bool, now: int)
    requires Inv(s) && Saturated(s, key, w)
    ensures !Inv(PointerInstalled(s, key, w, shared, now))
  {
    hide StatsMatch, Counted, Released, Unpinned, Resolves;
    var s1 := Released(s, key);
    var s' := PointerInstalled(s, key, w, shared, now);
    ReleasedKeys(s, key);
    InstallKeys(s, key, w, shared, now);
    assert Holders(s', w) == Holders(s, w) + {key};
    assert s1.entries[w].refcount == MAX_REFCOUNT;
  }

  lemma InvalidatedKeepsInv(s: CacheState, key: Key)
    requires Inv(s)
    ensures Inv(Invalidated(s, key))
  {
    hide StatsMatch, Counted, Unpinned, CountsMatch, Resolves;
    var u := Unpointed(s, key);
    UnpointedCounts(s, key);
    UnpointedKeys(s, key);
    InvalidatedKeepsSound(s, key) by {
      InvIsSound(s);
    }
    CountedOnlyCounts(u, key, INVALIDATION);
    SameCounts(u, Invalidated(s, key));
    OneFewer(s.pointers, key);
  }

  lemma UnpointedKeys(s: CacheState, key: Key)
    ensures Unpointed(s, key).pointers == s.pointers - {key} && Unpointed(s, key).lastChecked == s.lastChecked
  {
    hide WithoutReference;
    if key !in s.pointers {
      OneFewer(s.pointers, key);
    }
  }

  lemma SearchedKeepsInv(cfg: Config, s: CacheState, key: Key, query: Vector, k: nat, rerank: Option<nat>, now: int)
    requires Inv(s)
    ensures Inv(Searched(cfg, s, key, query, k, rerank, now).0)
  {
    hide StatsMatch, IndexAnswer, CountsMatch;
    var s' := Searched(cfg, s, key, query, k, rerank, now).0;
    SameStats(s, s');
    SameRefcounts(s, s');
  }

  lemma SameRefcounts(s: CacheState, s': CacheState)
    requires CountsMatch(s) && s'.pointers == s.pointers && s'.entries.Keys == s.entries.Keys
    requires forall v :: v in s.entries ==> s'.entries[v].refcount == s.entries[v].refcount
    ensures CountsMatch(s') && Unpinned(s') == Unpinned(s)
  {
    forall v | v in s'.entries
      ensures s'.entries[v].refcount == |Holders(s', v)|
    {
      assert Holders(s', v) == Holders(s, v);
    }
  }

  /** Invalidating a key that was left dangling makes the cache consistent again. */
  lemma InvalidationHeals(s: CacheState, key: Key, w: Witness, shared: bool, now: int)
    requires Inv(s) && HoldsAlone(s, key, w)
    ensures Inv(Invalidated(PointerInstalled(s, key, w, shared, now), key))
  {
    var s' := PointerInstalled(s, key, w, shared, now);
    var u := Unpointed(s', key);
    hide StatsMatch, Counted, PointerInstalled, Unpointed, HoldsAlone, CountsMatch, Resolves, Unpinned;
    DanglingState(s, key, w, shared, now);
    InstallStats(s, key, w, shared, now);
    UnpointedKeys(s', key);
    HealedCounts(s, s', key, w);
    HealedStats(s', key);
    CountedOnlyCounts(u, key, INVALIDATION);
    SameCounts(u, Invalidated(s', key));
    OneFewer(s'.pointers, key);
  }

  lemma HealedStats(s: CacheState, key: Key)
    requires StatsMatch(s)
    ensures StatsMatch(Invalidated(s, key))
  {
    hide StatsMatch, Counted;
    var u := Unpointed(s, key);
    SameStatsTwice(s, u, key, INVALIDATION);
    SameStats(if key in s.pointers then Counted(u, key, INVALIDATION) else s, Invalidated(s, key));
  }

  lemma HealedCounts(s: CacheState, s': CacheState, key: Key, w: Witness)
    requires Resolves(s) && CountsMatch(s) && Unpinned(s) == {} && HoldsAlone(s, key, w)
    requires s'.entries == s.entries - {w} && s'.pointers == s.pointers
    ensures Resolves(Unpointed(s', key)) && CountsMatch(Unpointed(s', key)) && Unpinned(Unpointed(s', key)) == {}
  {
    var u := Unpointed(s', key);
    assert u.entries == s.entries - {w};
    forall v | v in u.entries
      ensures u.entries[v].refcount == |Holders(u, v)|
    {
      assert Holders(u, v) == Holders(s, v);
    }
    forall k | k in u.pointers
      ensures u.pointers[k] in u.entries
    {
      OnlyHolder(s, key, w, k);
    }
  }

  lemma OnlyHolder(s: CacheState, key: Key, w: Witness, k: Key)
    requires CountsMatch(s) && HoldsAlone(s, key, w) && k in s.pointers
    ensures s.pointers[k] == w ==> k == key
  {
    if s.pointers[k] == w {
      assert {key, k} <= Holders(s, w);
      SubsetCardinality({key, k}, Holders(s, w));
    }
  }

  lemma DanglingState(s: CacheState, key: Key, w: Witness, shared: bool, now: int)
    requires HoldsAlone(s, key, w) && s.lastChecked.Keys == s.pointers.Keys
    ensures
      var s' := PointerInstalled(s, key, w, shared, now);
      && key in s'.pointers && s'.entries == s.entries - {w}
      && s'.pointers == s.pointers && s'.lastChecked.Keys == s.lastChecked.Keys
  {
    hide Counted, Released;
    ReleasedKeys(s, key);
    InstallKeys(s, key, w, shared, now);
    assert s.pointers[key := w] == s.pointers;
  }

  lemma AppliedKeepsInv(cfg: Config, s: CacheState, op: Op, now: int)
    requires Inv(s) && Guarded(cfg, s, op)
    ensures Inv(Applied(cfg, s, op, now))
  {
    hide StatsMatch, Counted, CountsMatch, Resolves, Unpinned;
    match op
    case Prime(_, _, _) =>
      InstallKeepsInvExactlyWhen(cfg, s, op, now);
    case InstallPrebuilt(_, _, _, _) =>
      InstallKeepsInvExactlyWhen(cfg, s, op, now);
    case Invalidate(key) =>
      InvalidatedKeepsInv(s, key);
    case MarkHit(key) =>
      CountedKeepsInv(s, key, HIT);
    case MarkMiss(key) =>
      CountedKeepsInv(s, key, MISS);
    case Touch(key) =>
      TouchedKeepsInv(s, key, now);
    case Search(key, query, k, rerank) =>
      SearchedKeepsInv(cfg, s, key, query, k, rerank, now);
  }

  lemma CountedKeepsInv(s: CacheState, key: Key, d: Counters)
    requires Inv(s)
    ensures Inv(Counted(s, key, d))
  {
    hide StatsMatch, Counted, CountsMatch, Resolves, Unpinned;
    CountedKeepsStats(s, key, d);
    CountedOnlyCounts(s, key, d);
    SameCounts(s, Counted(s, key, d));
  }

  lemma TouchedKeepsInv(s: CacheState, key: Key, now: int)
    requires Inv(s) && key in s.pointers
    ensures Inv(Touched(s, key, now))
  {
    hide StatsMatch, CountsMatch, Resolves, Unpinned;
    SameStats(s, Touched(s, key, now));
    SameCounts(s, Touched(s, key, now));
  }

  /** Every operation of the run was guarded. */
  predicate GuardedRun(cfg: Config, s: CacheState, ops: seq<Timed>)
    decreases |ops|
  {
    ops == []
    || (Guarded(cfg, s, ops[0].op)
        && GuardedRun(cfg, Applied(cfg, s, ops[0].op, ops[0].at), ops[1..]))
  }

  lemma {:induction false} RunKeepsInv(cfg: Config, s: CacheState, ops: seq<Timed>)
    requires Inv(s) && GuardedRun(cfg, s, ops)
    ensures Inv(Run(cfg, s, ops))
    decreases |ops|
  {
    hide Inv, Applied, Guarded;
    if ops != [] {
      AppliedKeepsInv(cfg, s, ops[0].op, ops[0].at);
      RunKeepsInv(cfg, Applied(cfg, s, ops[0].op, ops[0].at), ops[1..]);
    }
  }

  /** After every guarded run every pointer resolves, and every entry's reference count is the number of its pointers
      and is not zero. */
  lemma GuardedRunIsConsistent(cfg: Config, ops: seq<Timed>)
    requires GuardedRun(cfg, EMPTY, ops)
    ensures
      var s := Run(cfg, EMPTY, ops);
      && (forall key :: key in s.pointers ==> s.pointers[key] in s.entries)
      && (forall w :: w in s.entries ==> s.entries[w].refcount == |Holders(s, w)| && Holders(s, w) != {})
  {
    var s := Run(cfg, EMPTY, ops);
    assert Inv(s) by {
      EmptyInv();
      RunKeepsInv(cfg, EMPTY, ops);
    }
    hide Run, StatsMatch;
    forall w | w in s.entries
      ensures Holders(s, w) != {}
    {
      assert w !in Unpinned(s);
    }
  }

  lemma EmptyInv()
    ensures Inv(EMPTY)
  {
  }

  // ---------------------------------------------------------------- what is counted, and what is served

  lemma HitsAndMissesCount(s: CacheState, key: Key)
    ensures Counted(s, key, HIT).stats == s.stats.(hits := s.stats.hits + 1)
    ensures Counted(s, key, MISS).stats == s.stats.(misses := s.stats.misses + 1)
  {
    hide Tally;
  }

  lemma InvalidatedMeans(s: CacheState, key: Key)
    ensures
      var s' := Invalidated(s, key);
      && s'.pointers == s.pointers - {key} && s'.lastChecked == s.lastChecked - {key}
      && s'.stats == s.stats.(invalidations := s.stats.invalidations + if key in s.pointers then 1 else 0)
  {
    hide Tally, WithoutReference;
    OneFewer(s.pointers, key);
  }

  lemma InstallCountsEvents(s: CacheState, key: Key, w: Witness, shared: bool, now: int)
    ensures
      var c, c' := s.stats, PointerInstalled(s, key, w, shared, now).stats;
      && c'.hits == c.hits && c'.misses == c.misses && c'.primes == c.primes
      && c'.sharedHits == c.sharedHits + if shared then 1 else 0
  {
    hide Tally, WithoutReference;
  }

  /** Priming counts a shared hit when the witness is cached and a prime when it is not. */
  lemma PrimedCounts(cfg: Config, s: CacheState, key: Key, w: Witness, b: PulledBatch, now: int)
    ensures Primed(cfg, s, key, w, b, now).Ok? ==>
      var c, c' := s.stats, Primed(cfg, s, key, w, b, now).value.stats;
      && c'.hits == c.hits && c'.misses == c.misses
      && c'.primes == c.primes + (if w in s.entries then 0 else 1)
      && c'.sharedHits == c.sharedHits + (if w in s.entries then 1 else 0)
  {
    hide Tally, ValidBatch, PointerInstalled;
    InstallCountsEvents(BeforeInstall(cfg, s, key, w, b, now), key, w, w in s.entries, now);
  }

  /** After a prebuilt index has been installed, the key is served from it, or from the entry that its witness already
      had. */
  lemma PreinstalledServes(cfg: Config, s: CacheState, key: Key, w: Witness, index: Index, posToId: seq<u64>, now: int,
                           query: Vector, k: nat, rerank: Option<nat>, now': int, found: seq<(u64, real)>)
    requires !(key in s.pointers && s.pointers[key] == w) && |posToId| == |index.vectors|
    requires
      Searched(cfg, Preinstalled(s, key, w, index, posToId, now).value, key, query, k, rerank, now').1 == Ok(found)
    ensures
      if w in s.entries then |query| == s.entries[w].dim && AreHits(cfg, s.entries[w], query, k, rerank, found)
      else |query| == index.dim && AreHits(cfg, NewEntry(index, None, posToId, now), query, k, rerank, found)
  {
    hide PointerInstalled, AreHits, Searched;
    var s1 := if w in s.entries then s
              else WithEntry(s, w, NewEntry(index, None, posToId, now)).(warmInstalls := s.warmInstalls + 1);
    var s2 := PointerInstalled(s1, key, w, false, now);
    InstallKeys(s1, key, w, false, now);
    InstallAddsNothing(s1, key, w, false, now);
    SearchedMeans(cfg, s2, key, query, k, rerank, now');
    SameHits(cfg, s2.entries[w], s1.entries[w], query, k, rerank, found);
  }

  lemma SameHits(cfg: Config, e: Entry, e': Entry, query: Vector, k: nat, rerank: Option<nat>, found: seq<(u64, real)>)
    requires SameContents(e, e')
    ensures AreHits(cfg, e, query, k, rerank, found) <==> AreHits(cfg, e', query, k, rerank, found)
  {
  }

  // ---------------------------------------------------------------- positions and ids

  predicate SameContents(e: Entry, e': Entry) {
    e.index == e'.index && e.dim == e'.dim && e.posToId == e'.posToId
  }

  /** Entries only disappear or change their bookkeeping. */
  ghost predicate NothingNew(s: CacheState, s': CacheState) {
    forall w :: w in s'.entries ==> w in s.entries && SameContents(s'.entries[w], s.entries[w])
  }

  lemma InstallAddsNothing(s: CacheState, key: Key, w: Witness, shared: bool, now: int)
    ensures NothingNew(s, PointerInstalled(s, key, w, shared, now))
  {
    hide Counted, Released;
    InstallKeys(s, key, w, shared, now);
    ReleasedKeys(s, key);
  }

  lemma UnpointedAddsNothing(s: CacheState, key: Key)
    ensures NothingNew(s, Unpointed(s, key))
  {
  }

  /** The state whose pointer is installed by priming. */
  function BeforeInstall(cfg: Config, s: CacheState, key: Key, w: Witness, b: PulledBatch, now: int): CacheState {
    if w in s.entries then s
    else Counted(WithEntry(s, w, NewEntry(IndexOf(cfg, b), Some(b.generation), b.ids, now)), key, PRIME)
  }

  /** As many ids as indexed vectors. */
  predicate IdsFit(e: Entry) {
    |e.posToId| == |e.index.vectors|
  }

  predicate AllIdsFit(s: CacheState) {
    forall w :: w in s.entries ==> IdsFit(s.entries[w])
  }

  lemma AppliedKeepsIdsFit(cfg: Config, s: CacheState, op: Op, now: int)
    requires AllIdsFit(s)
    ensures AllIdsFit(Applied(cfg, s, op, now))
  {
    hide PointerInstalled, Counted, Unpointed, IndexAnswer;
    match op
    case Prime(key, w, b) =>
      CountedOnlyCounts(WithEntry(s, w, NewEntry(IndexOf(cfg, b), Some(b.generation), b.ids, now)), key, PRIME);
      InstallAddsNothing(BeforeInstall(cfg, s, key, w, b, now), key, w, w in s.entries, now);
    case InstallPrebuilt(key, w, index, posToId) =>
      var s1 := WithEntry(s, w, NewEntry(index, None, posToId, now));
      InstallAddsNothing(s, key, w, false, now);
      InstallAddsNothing(s1.(warmInstalls := s1.warmInstalls + 1), key, w, false, now);
    case Invalidate(key) =>
      UnpointedAddsNothing(s, key);
      CountedOnlyCounts(Unpointed(s, key), key, INVALIDATION);
    case MarkHit(key) => CountedOnlyCounts(s, key, HIT);
    case MarkMiss(key) => CountedOnlyCounts(s, key, MISS);
    case _ =>
  }

  lemma {:induction false} RunKeepsIdsFit(cfg: Config, s: CacheState, ops: seq<Timed>)
    requires AllIdsFit(s)
    ensures AllIdsFit(Run(cfg, s, ops))
    decreases |ops|
  {
    hide AllIdsFit, Applied;
    if ops != [] {
      AppliedKeepsIdsFit(cfg, s, ops[0].op, ops[0].at);
      RunKeepsIdsFit(cfg, Applied(cfg, s, ops[0].op, ops[0].at), ops[1..]);
    }
  }

  predicate PositionsWithin(hits: seq<(nat, real)>, n: nat) {
    forall i :: 0 <= i < |hits| ==> hits[i].0 < n
  }

  lemma {:induction false} FoundIdsExactly(hits: seq<(nat, real)>, posToId: seq<u64>)
    ensures FoundIds(hits, posToId).Ok? <==> PositionsWithin(hits, |posToId|)
    ensures FoundIds(hits, posToId).Ok? ==>
      var found := FoundIds(hits, posToId).value;
      && |found| == |hits|
      && forall i :: 0 <= i < |hits| && hits[i].0 < |posToId| ==> found[i] == (posToId[hits[i].0], hits[i].1)
  {
    if hits != [] {
      FoundIdsExactly(hits[1..], posToId);
      assert forall i :: 0 < i < |hits| ==> hits[i] == hits[1..][i - 1];
    }
  }

  /** What the index finds for the query, under the ids of the entry. */
  predicate AreHits(cfg: Config, e: Entry, query: Vector, k: nat, rerank: Option<nat>, found: seq<(u64, real)>) {
    match cfg.search(e.index, query, k, rerank)
    case None => false
    case Some(hits) =>
      && |found| == |hits|
      && forall i :: 0 <= i < |hits| ==> hits[i].0 < |e.posToId| && found[i] == (e.posToId[hits[i].0], hits[i].1)
  }

  /** A search that succeeds returns the hits of the entry that the key points to, and changes its time of use only. */
  lemma SearchedMeans(cfg: Config, s: CacheState, key: Key, query: Vector, k: nat, rerank: Option<nat>, now: int)
    ensures
      var (s', r) := Searched(cfg, s, key, query, k, rerank, now);
      && (r.Ok? ==>
            && key in s.pointers && s.pointers[key] in s.entries && |query| == s.entries[s.pointers[key]].dim
            && AreHits(cfg, s.entries[s.pointers[key]], query, k, rerank, r.value))
      && s' == s.(entries :=
           if key in s.pointers && s.pointers[key] in s.entries && |query| == s.entries[s.pointers[key]].dim
           then s.entries[s.pointers[key] := s.entries[s.pointers[key]].(lastUsed := now)]
           else s.entries)
  {
    hide FoundIds;
    if key in s.pointers && s.pointers[key] in s.entries {
      var e := s.entries[s.pointers[key]];
      match cfg.search(e.index, query, k, rerank)
      case None =>
      case Some(hits) => FoundIdsExactly(hits, e.posToId);
    }
  }

  /** In every run at all, if a search of an entry's index yields only positions of vectors that were indexed, every
      position has an id, and the ids are returned in the order of the hits: nothing is ever indexed out of range. */
  lemma EveryPositionHasAnId(cfg: Config, ops: seq<Timed>, w: Witness, hits: seq<(nat, real)>)
    requires w in Run(cfg, EMPTY, ops).entries
    requires PositionsWithin(hits, |Run(cfg, EMPTY, ops).entries[w].index.vectors|)
    ensures
      var ids := Run(cfg, EMPTY, ops).entries[w].posToId;
      var r := FoundIds(hits, ids);
      && r.Ok? && |r.value| == |hits|
      && forall i :: 0 <= i < |hits| ==> hits[i].0 < |ids| && r.value[i] == (ids[hits[i].0], hits[i].1)
  {
    hide Run;
    RunKeepsIdsFit(cfg, EMPTY, ops);
    FoundIdsExactly(hits, Run(cfg, EMPTY, ops).entries[w].posToId);
  }
}
