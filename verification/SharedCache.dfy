/** The cache as an object that is updated in place. */
module SharedCache {
  import opened Bundle
  import opened Bytes
  import opened Cache
  import opened Wrappers

  class VectorCache {
    var entries: map<Witness, Entry>
    var pointers: map<Key, Witness>
    var lastChecked: map<Key, int>
    var stats: Counters
    var warmInstalls: nat
    var perBackend: map<BackendId, Counters>
    var perCollection: map<Key, Counters>
    const cfg: Config

    function State(): CacheState
      reads this
    {
      CacheState(entries, pointers, lastChecked, stats, warmInstalls, perBackend, perCollection)
    }

    /** No entry is unpinned and the counters add up. */
    ghost predicate Valid()
      reads this
    {
      Sound(State())
    }

    constructor (cfg: Config)
      ensures Valid() && State() == EMPTY && this.cfg == cfg
    {
      entries, pointers, lastChecked := map[], map[], map[];
      stats, warmInstalls, perBackend, perCollection := ZERO, 0, map[], map[];
      this.cfg := cfg;
      new;
      EmptyInv();
    }

    method Count(key: Key, d: Counters)
      modifies this`stats, this`perBackend, this`perCollection
      ensures State() == Counted(old(State()), key, d)
    {
      hide Tally;
      stats := Plus(stats, d);
      perBackend := Bumped(perBackend, key.backend, d);
      perCollection := Bumped(perCollection, key, d);
    }

    /** A counter is inserted when it is first needed. */
    static method Bumped<K(==)>(m: map<K, Counters>, k: K, d: Counters) returns (m': map<K, Counters>)
      ensures m' == Tally(m, k, d)
    {
      m' := m;
      if k !in m' {
        m' := m'[k := ZERO];
      }
      m' := m'[k := Plus(m'[k], d)];
    }

    method InstallPointer(key: Key, w: Witness, shared: bool, now: int)
      modifies this
      ensures State() == PointerInstalled(old(State()), key, w, shared, now)
    {
      if key in pointers {
        var held := pointers[key];
        pointers := pointers - {key};
        if held in entries {
          var refcount := SaturatingSub(entries[held].refcount);
          if refcount == 0 {
            entries := entries - {held};
            Count(key, INVALIDATION);
          } else {
            entries := entries[held := entries[held].(refcount := refcount)];
          }
        }
      }
      assert State() == Released(old(State()), key);
      pointers := pointers[key := w];
      if w in entries {
        var e := entries[w];
        entries := entries[w := e.(refcount := SaturatingAdd(e.refcount), lastChecked := now)];
      }
      lastChecked := lastChecked[key := now];
      assert State() == Pointed(Released(old(State()), key), key, w, now);
      if shared {
        Count(key, SHARED_HIT);
      }
    }

    /** Some unpinned entry used no later than any other unpinned one. */
    method OldestUnpinned() returns (victim: Option<Witness>)
      ensures victim.None? <==> Unpinned(State()) == {}
      ensures victim.Some? ==> victim.value in Unpinned(State())
      ensures victim.Some? ==>
        forall w :: w in Unpinned(State()) ==> entries[victim.value].lastUsed <= entries[w].lastUsed
    {
      victim := None;
      var rest := entries.Keys;
      while rest != {}
        invariant rest <= entries.Keys
        invariant victim.None? ==> Unpinned(State()) <= rest
        invariant victim.Some? ==> victim.value in Unpinned(State())
        invariant victim.Some? ==>
          forall w :: w in Unpinned(State()) - rest ==> entries[victim.value].lastUsed <= entries[w].lastUsed
        decreases |rest|
      {
        var w :| w in rest;
        if entries[w].refcount == 0
           && (victim.None? || entries[w].lastUsed < entries[victim.value].lastUsed) {
          victim := Some(w);
        }
        rest := rest - {w};
      }
    }

    method EvictLruIfOver(cap: nat)
      modifies this`entries, this`stats
      ensures Evicted(old(State()), cap, State())
    {
      ghost var s := State();
      while |entries| > cap
        invariant Evicted(s, |entries|, State())
        invariant |s.entries| <= cap ==> State() == s
        decreases |entries|
      {
        var victim := OldestUnpinned();
        match victim
        case Some(w) =>
          ghost var before := State();
          entries := entries - {w};
          stats := stats.(invalidations := stats.invalidations + 1);
          EvictedOneMore(s, before, w, State());
        case None =>
          EvictedEnough(s, cap, State());
          return;
      }
      EvictedEnough(s, cap, State());
    }

    method Prime(key: Key, w: Witness, batch: PulledBatch, now: int) returns (r: Result<(), Error>)
      requires Valid()
      modifies this
      ensures Valid()
      ensures match Primed(cfg, old(State()), key, w, batch, now)
        case Err(e) => r == Err(e) && State() == old(State())
        case Ok(s) => r == Ok(()) && State() == s
      ensures r.Ok? ==>
        && stats.hits == old(stats.hits) && stats.misses == old(stats.misses)
        && stats.primes == old(stats.primes) + (if w in old(entries) then 0 else 1)
        && stats.sharedHits == old(stats.sharedHits) + (if w in old(entries) then 1 else 0)
    {
      hide Sound, Counted, PointerInstalled, ValidBatch, NewEntry;
      PrimedCounts(cfg, State(), key, w, batch, now);
      PrimedKeepsSound(cfg, State(), key, w, batch, now);
      if !ValidBatch(batch) {
        return Err(InvalidParameter);
      }
      if w in entries {
        InstallPointer(key, w, true, now);
        return Ok(());
      }
      if !cfg.accepts(IndexOf(cfg, batch)) {
        return Err(IndexError);
      }
      entries := entries[w := NewEntry(IndexOf(cfg, batch), Some(batch.generation), batch.ids, now)];
      Count(key, PRIME);
      InstallPointer(key, w, false, now);
      EvictIfCapped();
      return Ok(());
    }

    method EvictIfCapped()
      requires Valid()
      modifies this`entries, this`stats
      ensures State() == old(State())
    {
      match cfg.maxEntries
      case None =>
      case Some(cap) =>
        EvictLruIfOver(cap);
        NothingToEvict(old(State()), cap, State());
    }

    method InstallPrebuilt(key: Key, w: Witness, index: Index, posToId: seq<u64>, now: int)
      returns (r: Result<(), Error>)
      requires Valid()
      modifies this
      ensures Valid()
      ensures match Preinstalled(old(State()), key, w, index, posToId, now)
        case Err(e) => r == Err(e) && State() == old(State())
        case Ok(s) => r == Ok(()) && State() == s
    {
      hide PointerInstalled, Sound;
      PreinstalledKeepsSound(State(), key, w, index, posToId, now);
      if |posToId| != |index.vectors| {
        return Err(InvalidParameter);
      }
      if w in entries {
        InstallPointer(key, w, false, now);
        return Ok(());
      }
      entries := entries[w := NewEntry(index, None, posToId, now)];
      warmInstalls := warmInstalls + 1;
      InstallPointer(key, w, false, now);
      EvictIfCapped();
      return Ok(());
    }

    method Invalidate(key: Key)
      requires Valid()
      modifies this
      ensures Valid()
      ensures State() == Invalidated(old(State()), key)
      ensures stats == old(stats).(invalidations := old(stats.invalidations) + if key in old(pointers) then 1 else 0)
      ensures pointers == old(pointers) - {key} && lastChecked == old(lastChecked) - {key}
    {
      InvalidatedMeans(State(), key);
      hide Counted, Sound;
      InvalidatedKeepsSound(State(), key);
      if key in pointers {
        var w := pointers[key];
        pointers := pointers - {key};
        if w in entries {
          var refcount := SaturatingSub(entries[w].refcount);
          if refcount == 0 {
            entries := entries - {w};
          } else {
            entries := entries[w := entries[w].(refcount := refcount)];
          }
        }
        assert State() == Unpointed(old(State()), key);
        Count(key, INVALIDATION);
      }
      lastChecked := lastChecked - {key};
    }

    method MarkHit(key: Key)
      requires Valid()
      modifies this
      ensures Valid() && State() == Counted(old(State()), key, HIT)
      ensures stats == old(stats).(hits := old(stats.hits) + 1)
    {
      hide Sound, Counted;
      AppliedKeepsSound(cfg, State(), Op.MarkHit(key), 0);
      HitsAndMissesCount(State(), key);
      Count(key, HIT);
    }

    method MarkMiss(key: Key)
      requires Valid()
      modifies this
      ensures Valid() && State() == Counted(old(State()), key, MISS)
      ensures stats == old(stats).(misses := old(stats.misses) + 1)
    {
      hide Sound, Counted;
      AppliedKeepsSound(cfg, State(), Op.MarkMiss(key), 0);
      HitsAndMissesCount(State(), key);
      Count(key, MISS);
    }

    method Touch(key: Key, now: int)
      requires Valid()
      modifies this
      ensures Valid() && State() == Touched(old(State()), key, now)
    {
      AppliedKeepsSound(cfg, State(), Op.Touch(key), now);
      lastChecked := lastChecked[key := now];
    }

    method Search(key: Key, query: Vector, k: nat, rerank: Option<nat>, now: int)
      returns (r: Result<seq<(u64, real)>, Error>)
      requires Valid()
      modifies this
      ensures Valid()
      ensures (State(), r) == Searched(cfg, old(State()), key, query, k, rerank, now)
      ensures r.Ok? ==>
        && key in pointers && pointers[key] in entries && |query| == entries[pointers[key]].dim
        && AreHits(cfg, entries[pointers[key]], query, k, rerank, r.value) && entries[pointers[key]].lastUsed == now
    {
      SearchedMeans(cfg, State(), key, query, k, rerank, now);
      AppliedKeepsSound(cfg, State(), Op.Search(key, query, k, rerank), now);
      if key !in pointers || pointers[key] !in entries {
        return Err(UnknownCollection(key));
      }
      var w := pointers[key];
      var e := entries[w];
      if |query| != e.dim {
        return Err(DimensionMismatch(e.dim, |query|));
      }
      entries := entries[w := e.(lastUsed := now)];
      match cfg.search(e.index, query, k, rerank)
      case None => r := Err(IndexError);
      case Some(hits) => r := MapPositions(hits, e.posToId);
    }

    static method MapPositions(hits: seq<(nat, real)>, posToId: seq<u64>)
      returns (r: Result<seq<(u64, real)>, Error>)
      ensures r == FoundIds(hits, posToId)
    {
      var found: seq<(u64, real)> := [];
      assert hits[0..] == hits;
      FollowingNothing(FoundIds(hits, posToId));
      for i := 0 to |hits|
        invariant FoundIds(hits, posToId) == Following(found, FoundIds(hits[i..], posToId))
      {
        assert hits[i..][1..] == hits[i + 1..];
        if hits[i].0 >= |posToId| {
          return Err(Panic);
        }
        var x := (posToId[hits[i].0], hits[i].1);
        FollowingTwice(found, [x], FoundIds(hits[i + 1..], posToId));
        found := found + [x];
      }
      assert found + [] == found;
      return Ok(found);
    }
  }

  ghost function Following(found: seq<(u64, real)>, r: Result<seq<(u64, real)>, Error>)
    : Result<seq<(u64, real)>, Error>
  {
    match r
    case Ok(rest) => Ok(found + rest)
    case Err(e) => Err(e)
  }

  lemma FollowingNothing(r: Result<seq<(u64, real)>, Error>)
    ensures Following([], r) == r
  {
    match r
    case Ok(rest) => assert [] + rest == rest;
    case Err(_) =>
  }

  lemma FollowingTwice(a: seq<(u64, real)>, b: seq<(u64, real)>, r: Result<seq<(u64, real)>, Error>)
    ensures Following(a + b, r) == Following(a, Following(b, r))
  {
    match r
    case Ok(rest) => assert a + b + rest == a + (b + rest);
    case Err(_) =>
  }

  /** Removing the oldest unpinned entry continues an eviction. */
  lemma EvictedOneMore(s: CacheState, t: CacheState, w: Witness, t': CacheState)
    requires Evicted(s, |t.entries|, t) && w in Unpinned(t)
    requires forall v :: v in Unpinned(t) ==> t.entries[w].lastUsed <= t.entries[v].lastUsed
    requires t' == t.(entries := t.entries - {w}, stats := t.stats.(invalidations := t.stats.invalidations + 1))
    ensures Evicted(s, |t'.entries|, t')
  {
    assert t'.entries.Keys == t.entries.Keys - {w};
  }

  lemma EvictedEnough(s: CacheState, cap: nat, t: CacheState)
    requires Evicted(s, |t.entries|, t)
    requires |s.entries| <= cap ==> t == s
    requires |t.entries| <= cap || Unpinned(t) == {}
    ensures Evicted(s, cap, t)
  {
  }
}
