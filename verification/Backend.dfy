/** What the router sees of a backend, and the in-memory reference backend. */
module Backend {
  import opened Bundle
  import opened Bytes
  import opened Cache
  import opened Wrappers

  type Reference = s: Utf8 | |s| < 0x1_0000_0000_0000_0000 witness []

  /** A collection as its backend presents it: where the data is said to be, the data, and the coherence token. */
  datatype Collection = Collection(dataRef: Reference, dim: u64, ids: seq<u64>, vectors: seq<Vector>, generation: u64)

  type Contents = map<CollectionId, Collection>

  function Pulled(c: Collection): PulledBatch {
    PulledBatch(c.ids, c.vectors, c.dim, c.generation)
  }

  function FieldsOf(cfg: Config, c: Collection): Fields {
    Fields(c.dataRef, c.dim, cfg.rotationSeed, cfg.rerankFactor, Num(c.generation))
  }

  function WitnessOf(cfg: Config, c: Collection): Witness {
    NewBundle(FieldsOf(cfg, c)).rvfWitness
  }

  /** The part of a collection that its witness digests. */
  predicate SameDigest(c: Collection, c': Collection) {
    c.dataRef == c'.dataRef && c.dim == c'.dim && c.generation == c'.generation
  }

  /** Under one configuration two collections have the same witness exactly when they have the same reference, dimension
      and generation, whatever their data. */
  lemma WitnessSameExactlyWhen(cfg: Config, c: Collection, c': Collection)
    ensures WitnessOf(cfg, c) == WitnessOf(cfg, c') <==> SameDigest(c, c')
  {
    hide Preimage;
    if WitnessOf(cfg, c) == WitnessOf(cfg, c') {
      PreimageInjective(FieldsOf(cfg, c), FieldsOf(cfg, c'));
    }
  }

  /** Under different configurations the rotation seeds and the rerank factors must agree as well. */
  lemma WitnessSameAcrossExactlyWhen(cfg: Config, c: Collection, cfg': Config, c': Collection)
    ensures
      WitnessOf(cfg, c) == WitnessOf(cfg', c')
      <==> && c.dataRef == c'.dataRef && c.dim == c'.dim && c.generation == c'.generation
           && cfg.rotationSeed == cfg'.rotationSeed && cfg.rerankFactor == cfg'.rerankFactor
  {
    hide Preimage;
    if WitnessOf(cfg, c) == WitnessOf(cfg', c') {
      PreimageInjective(FieldsOf(cfg, c), FieldsOf(cfg', c'));
    }
  }

  // ---------------------------------------------------------------- the in-memory backend

  function LocalRef(id: BackendId, name: CollectionId): Reference {
    LocalDataRef(id.text, name.text)
  }

  function Bumped(g: u64): u64 {
    if g == 0xFFFF_FFFF_FFFF_FFFF then 0 else g + 1
  }

  /** The first vector of another length than dim. */
  function Misfit(dim: nat, vectors: seq<Vector>): Option<Vector> {
    if vectors == [] then None
    else if |vectors[0]| != dim then Some(vectors[0])
    else Misfit(dim, vectors[1..])
  }

  function Put(cs: Contents, id: BackendId, name: CollectionId, dim: u64, ids: seq<u64>, vectors: seq<Vector>)
    : Result<Contents, Error>
  {
    if |ids| != |vectors| then Err(InvalidParameter)
    else match Misfit(dim, vectors)
      case Some(v) => Err(DimensionMismatch(dim, |v|))
      case None =>
        var generation := if name in cs then cs[name].generation else 0;
        Ok(cs[name := Collection(LocalRef(id, name), dim, ids, vectors, Bumped(generation))])
  }

  /** Vector lengths are 64-bit in the source. */
  type Row = v: Vector | |v| < 0x1_0000_0000_0000_0000 witness []

  function Append(cs: Contents, id: BackendId, name: CollectionId, vectorId: u64, vector: Row)
    : Result<Contents, Error>
  {
    if name !in cs then Err(UnknownCollection(Key(id, name)))
    else
      var c := cs[name];
      var dim := if c.dim == 0 then |vector| else c.dim;
      if |vector| != dim then Err(DimensionMismatch(dim, |vector|))
      else Ok(cs[name := c.(dim := dim, ids := c.ids + [vectorId], vectors := c.vectors + [vector],
                            generation := Bumped(c.generation))])
  }

  // ---------------------------------------------------------------- what one write does

  /** Every successful write to a collection changes its witness, so a cache that compares witnesses sees it. */
  lemma WriteChangesWitness(cfg: Config, cs: Contents, id: BackendId, name: CollectionId, cs': Contents)
    requires name in cs
    requires
      || (exists dim, ids, vectors :: Put(cs, id, name, dim, ids, vectors) == Ok(cs'))
      || (exists vectorId, v :: Append(cs, id, name, vectorId, v) == Ok(cs'))
    ensures name in cs' && WitnessOf(cfg, cs'[name]) != WitnessOf(cfg, cs[name])
    ensures cs'[name].generation == (cs[name].generation + 1) % 0x1_0000_0000_0000_0000
    ensures forall other :: other != name ==>
      (other in cs <==> other in cs') && (other in cs ==> cs'[other] == cs[other])
  {
    hide WitnessOf, Misfit, LocalRef;
    WitnessSameExactlyWhen(cfg, cs'[name], cs[name]);
  }

  /** As many ids as vectors, and vectors of the stated length. */
  predicate Shaped(c: Collection) {
    |c.ids| == |c.vectors| && forall v :: v in c.vectors ==> |v| == c.dim
  }

  lemma {:induction false} MisfitNone(dim: nat, vectors: seq<Vector>)
    ensures Misfit(dim, vectors).None? <==> forall v :: v in vectors ==> |v| == dim
  {
    if vectors != [] {
      MisfitNone(dim, vectors[1..]);
      assert vectors == [vectors[0]] + vectors[1..];
    }
  }

  /** A collection is put as given and in shape, whatever was there before. */
  lemma PutShapes(cs: Contents, id: BackendId, name: CollectionId, dim: u64, ids: seq<u64>, vectors: seq<Vector>)
    ensures Put(cs, id, name, dim, ids, vectors).Ok? <==> |ids| == |vectors| && forall v :: v in vectors ==> |v| == dim
    ensures Put(cs, id, name, dim, ids, vectors).Ok? ==>
      var c := Put(cs, id, name, dim, ids, vectors).value[name];
      && Shaped(c) && c.dim == dim && c.ids == ids && c.vectors == vectors
      && c.dataRef == LocalDataRef(id.text, name.text)
      && c.generation == ((if name in cs then cs[name].generation else 0) + 1) % 0x1_0000_0000_0000_0000
  {
    MisfitNone(dim, vectors);
  }

  /** Appending adds the vector last. It keeps the shape if and only if it does not give a length to a collection that
      already has vectors of length zero. */
  lemma AppendKeepsShapeExactlyWhen(cs: Contents, id: BackendId, name: CollectionId, vectorId: u64, vector: Row)
    requires name in cs && Shaped(cs[name]) && Append(cs, id, name, vectorId, vector).Ok?
    ensures
      var c, c' := cs[name], Append(cs, id, name, vectorId, vector).value[name];
      c'.ids == c.ids + [vectorId] && c'.vectors == c.vectors + [vector] && |vector| == c'.dim
    ensures
      Shaped(Append(cs, id, name, vectorId, vector).value[name])
      <==> !(cs[name].dim == 0 && cs[name].vectors != [] && vector != [])
  {
    var c, c' := cs[name], Append(cs, id, name, vectorId, vector).value[name];
    assert c'.vectors == c.vectors + [vector];
    if c.dim == 0 && c.vectors != [] && vector != [] {
      assert c.vectors[0] in c.vectors && c.vectors[0] in c'.vectors;
    }
  }

  // ---------------------------------------------------------------- what all writes so far left to be pulled

  datatype LocalWrite =
    | PutAll(dim: u64, ids: seq<u64>, vectors: seq<Vector>)
    | AppendOne(vectorId: u64, vector: Row)

  function WriteOutcome(cs: Contents, id: BackendId, name: CollectionId, w: LocalWrite): Result<Contents, Error> {
    match w
    case PutAll(dim, ids, vectors) => Put(cs, id, name, dim, ids, vectors)
    case AppendOne(vectorId, vector) => Append(cs, id, name, vectorId, vector)
  }

  /** A collection's contents after writes to it, failed ones included, from an empty backend. */
  function Written(id: BackendId, name: CollectionId, ws: seq<LocalWrite>): Contents {
    if ws == [] then map[]
    else
      var before := Written(id, name, ws[..|ws| - 1]);
      match WriteOutcome(before, id, name, ws[|ws| - 1])
      case Ok(after) => after
      case Err(_) => before
  }

  predicate WellFormedPut(w: LocalWrite) {
    w.PutAll? && |w.ids| == |w.vectors| && forall v :: v in w.vectors ==> |v| == w.dim
  }

  /** What appends add to a collection of dimension dim, and the dimension they leave: the first vector with coordinates
      fixes a dimension of zero, later ones must agree, and malformed puts do nothing. */
  function Added(dim: u64, ws: seq<LocalWrite>): (seq<u64>, seq<Vector>, u64) {
    if ws == [] then ([], [], dim)
    else
      var (ids, vectors, d) := Added(dim, ws[..|ws| - 1]);
      var w := ws[|ws| - 1];
      if w.AppendOne? && (d == 0 || |w.vector| == d) then (ids + [w.vectorId], vectors + [w.vector], |w.vector|)
      else (ids, vectors, d)
  }

  predicate LastPut(ws: seq<LocalWrite>, p: nat) {
    p < |ws| && WellFormedPut(ws[p]) && forall q :: p < q < |ws| ==> !WellFormedPut(ws[q])
  }

  /** What is there to be pulled is the p-th write, the last well-formed put, followed by what was appended since. */
  predicate Explains(c: Collection, ws: seq<LocalWrite>, p: nat) {
    && LastPut(ws, p)
    && var (ids, vectors, dim) := Added(ws[p].dim, ws[p + 1..]);
       c.ids == ws[p].ids + ids && c.vectors == ws[p].vectors + vectors && c.dim == dim
  }

  /** There is a collection to pull exactly when some put was well formed; then what is pulled is the last such put,
      followed by what was appended since, in order. */
  lemma {:induction false} PulledIsLastPutAndAppends(id: BackendId, name: CollectionId, ws: seq<LocalWrite>)
    returns (p: nat)
    ensures name in Written(id, name, ws) <==> exists q :: 0 <= q < |ws| && WellFormedPut(ws[q])
    ensures name in Written(id, name, ws) ==> Explains(Written(id, name, ws)[name], ws, p)
  {
    p := 0;
    if ws != [] {
      var n := |ws| - 1;
      var init, w := ws[..n], ws[n];
      p := PulledIsLastPutAndAppends(id, name, init);
      var before := Written(id, name, init);
      assert forall q :: 0 <= q < n ==> ws[q] == init[q];
      hide Explains, Misfit, LocalRef, WellFormedPut;
      if WellFormedPut(w) {
        PutExplains(before, id, name, ws);
        p := n;
      } else if name in before {
        OneMoreExplains(before, id, name, ws, p);
      } else {
        NothingStored(before, id, name, w);
      }
    }
  }

  lemma PutExplains(before: Contents, id: BackendId, name: CollectionId, ws: seq<LocalWrite>)
    requires ws != [] && WellFormedPut(ws[|ws| - 1])
    ensures WriteOutcome(before, id, name, ws[|ws| - 1]).Ok?
    ensures name in WriteOutcome(before, id, name, ws[|ws| - 1]).value
    ensures Explains(WriteOutcome(before, id, name, ws[|ws| - 1]).value[name], ws, |ws| - 1)
  {
    var w := ws[|ws| - 1];
    PutShapes(before, id, name, w.dim, w.ids, w.vectors);
    assert ws[|ws|..] == [];
    assert w.ids + [] == w.ids && w.vectors + [] == w.vectors;
  }

  lemma NothingStored(before: Contents, id: BackendId, name: CollectionId, w: LocalWrite)
    requires name !in before && !WellFormedPut(w)
    ensures WriteOutcome(before, id, name, w).Err?
  {
    if w.PutAll? {
      PutShapes(before, id, name, w.dim, w.ids, w.vectors);
    }
  }

  lemma OneMoreExplains(before: Contents, id: BackendId, name: CollectionId, ws: seq<LocalWrite>, p: nat)
    requires ws != [] && name in before && !WellFormedPut(ws[|ws| - 1])
    requires Explains(before[name], ws[..|ws| - 1], p)
    ensures
      var r := WriteOutcome(before, id, name, ws[|ws| - 1]);
      var after := if r.Ok? then r.value else before;
      name in after && Explains(after[name], ws, p)
  {
    var n, w := |ws| - 1, ws[|ws| - 1];
    var since := ws[p + 1..n];
    assert forall q :: 0 <= q < n ==> ws[..n][q] == ws[q];
    assert ws[..n][p + 1..] == since;
    assert ws[p + 1..] == since + [w];
    if w.PutAll? {
      PutShapes(before, id, name, w.dim, w.ids, w.vectors);
    }
    hide WellFormedPut, Misfit;
    OneMoreAdded(before[name], ws[p], since, w);
  }

  lemma OneMoreAdded(c: Collection, put: LocalWrite, since: seq<LocalWrite>, w: LocalWrite)
    requires put.PutAll? && var (ids, vectors, dim) := Added(put.dim, since);
      c.ids == put.ids + ids && c.vectors == put.vectors + vectors && c.dim == dim
    ensures
      var (ids, vectors, dim) := Added(put.dim, since + [w]);
      if w.AppendOne? && (c.dim == 0 || |w.vector| == c.dim) then
        put.ids + ids == c.ids + [w.vectorId] && put.vectors + vectors == c.vectors + [w.vector] && dim == |w.vector|
      else put.ids + ids == c.ids && put.vectors + vectors == c.vectors && dim == c.dim
  {
    assert (since + [w])[..|since|] == since;
  }

  // ---------------------------------------------------------------- the file-system backend's tokens

  const NANOS: int := 1_000_000_000

  /** A modification time in nanoseconds, possibly before the epoch. */
  type Mtime = t: int | t < 0x1_0000_0000_0000_0000 * NANOS

  function Seconds(t: Mtime): u64 {
    if t < 0 then 0 else t / NANOS
  }

  /** A file as the file-system backend presents it. */
  function File(path: Name, dim: u64, ids: seq<u64>, vectors: seq<Vector>, mtime: Mtime): Collection {
    Collection(Ascii("file://") + path, dim, ids, vectors, Seconds(mtime))
  }

  /** Rewriting a file in place is not seen exactly when the dimension stays and the second does. */
  lemma RewriteUnseenExactlyWhen(cfg: Config, path: Name, dim: u64, ids: seq<u64>, vectors: seq<Vector>, t: Mtime,
                                 dim': u64, ids': seq<u64>, vectors': seq<Vector>, t': Mtime)
    ensures
      WitnessOf(cfg, File(path, dim, ids, vectors, t)) == WitnessOf(cfg, File(path, dim', ids', vectors', t'))
      <==> dim == dim' && Seconds(t) == Seconds(t')
  {
    hide WitnessOf, Ascii;
    WitnessSameExactlyWhen(cfg, File(path, dim, ids, vectors, t), File(path, dim', ids', vectors', t'));
  }

  // ---------------------------------------------------------------- the objects

  /** What the router sees of a backend of any kind: an id, and collections it can describe and pull. */
  class Adapter {
    const id: BackendId
    var collections: Contents

    constructor (id: BackendId, collections: Contents)
      ensures this.id == id && this.collections == collections
    {
      this.id := id;
      this.collections := collections;
    }

    /** The data changes by whatever means the backend has. */
    method Change(contents: Contents)
      modifies this
      ensures collections == contents
    {
      collections := contents;
    }

    method PullVectors(name: CollectionId) returns (r: Result<PulledBatch, Error>)
      ensures r == if name in collections then Ok(Pulled(collections[name])) else Err(UnknownCollection(Key(id, name)))
    {
      if name !in collections {
        return Err(UnknownCollection(Key(id, name)));
      }
      return Ok(Pulled(collections[name]));
    }

    /** The bundle verifies and describes what would be pulled. */
    method CurrentBundle(name: CollectionId, cfg: Config) returns (r: Result<RuLakeBundle, Error>)
      ensures r.Err? ==> name !in collections && r.error == UnknownCollection(Key(id, name))
      ensures r.Ok? ==>
        && name in collections && VerifyWitness(r.value)
        && r.value.rvfWitness == WitnessOf(cfg, collections[name])
    {
      if name !in collections {
        return Err(UnknownCollection(Key(id, name)));
      }
      return Ok(NewBundle(FieldsOf(cfg, collections[name])));
    }
  }

  /** The in-memory backend: an adapter whose collections have references of its own. */
  class LocalBackend {
    const adapter: Adapter

    ghost predicate Valid()
      reads adapter
    {
      forall name :: name in adapter.collections ==>
        adapter.collections[name].dataRef == LocalRef(adapter.id, name)
    }

    constructor (id: BackendId)
      ensures Valid() && fresh(adapter) && adapter.id == id && adapter.collections == map[]
    {
      adapter := new Adapter(id, map[]);
    }

    method PutCollection(name: CollectionId, dim: u64, ids: seq<u64>, vectors: seq<Vector>)
      returns (r: Result<(), Error>)
      requires Valid()
      modifies adapter
      ensures Valid()
      ensures match Put(old(adapter.collections), adapter.id, name, dim, ids, vectors)
        case Err(e) => r == Err(e) && adapter.collections == old(adapter.collections)
        case Ok(cs) => r == Ok(()) && adapter.collections == cs
    {
      if |ids| != |vectors| {
        return Err(InvalidParameter);
      }
      assert vectors[0..] == vectors;
      for i := 0 to |vectors|
        invariant adapter.collections == old(adapter.collections)
        invariant Misfit(dim, vectors) == Misfit(dim, vectors[i..])
      {
        assert vectors[i..][1..] == vectors[i + 1..];
        if |vectors[i]| != dim {
          return Err(DimensionMismatch(dim, |vectors[i]|));
        }
      }
      var entry := if name in adapter.collections then adapter.collections[name]
                   else Collection(LocalRef(adapter.id, name), dim, [], [], 0);
      entry := entry.(dim := dim);
      entry := entry.(ids := ids);
      entry := entry.(vectors := vectors);
      entry := entry.(generation := Bumped(entry.generation));
      adapter.collections := adapter.collections[name := entry];
      return Ok(());
    }

    method AppendVector(name: CollectionId, vectorId: u64, vector: Row) returns (r: Result<(), Error>)
      requires Valid()
      modifies adapter
      ensures Valid()
      ensures match Append(old(adapter.collections), adapter.id, name, vectorId, vector)
        case Err(e) => r == Err(e) && adapter.collections == old(adapter.collections)
        case Ok(cs) => r == Ok(()) && adapter.collections == cs
    {
      if name !in adapter.collections {
        return Err(UnknownCollection(Key(adapter.id, name)));
      }
      var entry := adapter.collections[name];
      if entry.dim == 0 {
        entry := entry.(dim := |vector|);
      }
      if |vector| != entry.dim {
        return Err(DimensionMismatch(entry.dim, |vector|));
      }
      entry := entry.(ids := entry.ids + [vectorId]);
      entry := entry.(vectors := entry.vectors + [vector]);
      entry := entry.(generation := Bumped(entry.generation));
      adapter.collections := adapter.collections[name := entry];
      return Ok(());
    }
  }
}
