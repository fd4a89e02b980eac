/** The router as an object: it owns a cache and knows the registered backends. */
module RuLakeObject {
  import opened Backend
  import opened Bundle
  import opened Bytes
  import opened Cache
  import opened Lake
  import opened SharedCache
  import opened Wrappers

  /** Each hit under the names of its backend and collection. */
  predicate AreNamed(key: Key, found: seq<(u64, real)>, results: seq<SearchResult>) {
    && |results| == |found|
    && forall i :: 0 <= i < |found| ==>
         results[i] == SearchResult(key.backend, key.collection, found[i].0, found[i].1)
  }

  class RuLake {
    var backends: map<BackendId, Adapter>
    const cache: VectorCache
    const consistency: Consistency

    /** The data of the registered backends. */
    function Snapshot(): Backends
      reads this, backends.Values
    {
      map id | id in backends :: backends[id].collections
    }

    ghost predicate Valid()
      reads this, cache, backends.Values
    {
      && cache.Valid()
      && forall id :: id in backends ==> backends[id].id == id
    }

    /** The snapshot, one backend at a time. */
    lemma SnapshotOf(id: BackendId)
      ensures id in Snapshot() <==> id in backends
      ensures id in backends ==> Snapshot()[id] == backends[id].collections
    {
    }

    constructor (cfg: Config, consistency: Consistency)
      ensures Valid() && fresh(cache) && cache.cfg == cfg && this.consistency == consistency
      ensures Snapshot() == map[] && cache.State() == EMPTY
    {
      backends := map[];
      cache := new VectorCache(cfg);
      this.consistency := consistency;
    }

    method RegisterBackend(backend: Adapter) returns (r: Result<(), Error>)
      requires Valid()
      modifies this`backends
      ensures Valid()
      ensures r.Ok? <==> backend.id !in old(backends)
      ensures backends == if r.Ok? then old(backends)[backend.id := backend] else old(backends)
      ensures Snapshot() == BackendsAfter(old(Snapshot()), Register(backend.id, backend.collections))
    {
      if backend.id in backends {
        return Err(InvalidParameter);
      }
      backends := backends[backend.id := backend];
      return Ok(());
    }

    method EnsureFresh(key: Key, now: int) returns (r: Result<(), Error>)
      requires Valid()
      modifies cache
      ensures Valid() && Snapshot() == old(Snapshot())
      ensures (cache.State(), r) == EnsuredFresh(cache.cfg, consistency, Snapshot(), old(cache.State()), key, now)
    {
      hide Primed, Counted, Sound, WitnessOf, VerifyWitness, CanSkipCheck, Snapshot;
      SnapshotOf(key.backend);
      if CanSkipCheck(cache.State(), key, consistency, now) {
        cache.MarkHit(key);
        return Ok(());
      }
      if key.backend !in backends {
        return Err(UnknownBackend(key.backend));
      }
      var backend := backends[key.backend];
      var bundle := backend.CurrentBundle(key.collection, cache.cfg);
      if bundle.Err? {
        return Err(bundle.error);
      }
      var target := bundle.value.rvfWitness;
      if key in cache.pointers && cache.pointers[key] == target {
        cache.MarkHit(key);
        cache.Touch(key, now);
        return Ok(());
      }
      cache.MarkMiss(key);
      var batch := backend.PullVectors(key.collection);
      match batch
      case Err(e) => r := Err(e);
      case Ok(b) => r := cache.Prime(key, target, b, now);
    }

    method SearchOne(backend: BackendId, collection: CollectionId, query: Vector, k: nat, rerank: Option<nat>, now: int)
      returns (answer: Answer)
      requires Valid()
      modifies cache
      ensures Valid() && Snapshot() == old(Snapshot())
      ensures (cache.State(), answer) ==
              SearchedOne(cache.cfg, consistency, Snapshot(), old(cache.State()), Key(backend, collection), query, k,
                          rerank, now)
      ensures answer.Ok? ==>
        var key := Key(backend, collection);
        && key in cache.pointers && cache.pointers[key] in cache.entries
        && exists found :: AreHits(cache.cfg, cache.entries[cache.pointers[key]], query, k, rerank, found)
                           && AreNamed(key, found, answer.value)
    {
      hide EnsuredFresh, Sound, Searched, AreHits;
      var key := Key(backend, collection);
      var r := EnsureFresh(key, now);
      if r.Err? {
        return Err(r.error);
      }
      var hits := cache.Search(key, query, k, rerank, now);
      answer := Labelled(key, hits);
      assert hits.Ok? ==> AreNamed(key, hits.value, answer.value);
    }

    method InvalidateCache(key: Key)
      requires Valid()
      modifies cache
      ensures Valid() && cache.State() == Invalidated(old(cache.State()), key)
    {
      hide Sound;
      cache.Invalidate(key);
    }
  }
}
