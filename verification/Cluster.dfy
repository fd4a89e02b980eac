/** The cluster manager: nodes come and go, and every shard is placed where the hash ring says. */
module Cluster {
  import opened Bytes
  import opened Hashing
  import opened Sharding
  import opened Wrappers

  datatype ClusterError = InvalidConfig

  datatype ShardStatus = Active | Migrating | Replicating | Offline

  datatype ShardInfo = ShardInfo(
    shardId: u32,
    primaryNode: NodeId,
    replicaNodes: seq<NodeId>,
    vectorCount: nat,
    status: ShardStatus,
    createdAt: int,
    modifiedAt: int)

  /** The nodes of a shard, the primary first. */
  function Placement(shard: ShardInfo): seq<NodeId> {
    [shard.primaryNode] + shard.replicaNodes
  }

  function ShardKey(id: u32): string {
    "shard:" + Decimal(id)
  }

  /** The text that is hashed for a shard is "shard:" and its number, so different shards hash different texts. */
  lemma ShardsHashApart(a: u32, b: u32)
    ensures ShardKey(a)[..6] == "shard:" && IsNumeral(ShardKey(a)[6..]) && Read(ShardKey(a)[6..]) == a
    ensures ShardKey(a) == ShardKey(b) <==> a == b
  {
    hide Decimal;
    DecimalReads(a);
    DecimalReads(b);
    assert ShardKey(a)[6..] == Decimal(a) && ShardKey(b)[6..] == Decimal(b);
  }

  /** Where the ring puts a shard. */
  function PlaceOf(ring: Ring, hashOf: string -> u64, id: u32, replication: nat): seq<NodeId> {
    NodesFor(ring, hashOf(ShardKey(id)), replication)
  }

  predicate Placed(shards: map<u32, ShardInfo>, ring: Ring, hashOf: string -> u64, id: u32, replication: nat) {
    id in shards && Placement(shards[id]) == PlaceOf(ring, hashOf, id, replication)
  }

  /** The text is "shard:" and the shard's number in decimal digits. */
  predicate NamesShard(name: string, id: u32) {
    |name| > 6 && name[..6] == "shard:" && IsNumeral(name[6..]) && Read(name[6..]) == id
  }

  /** A shard is placed if and only if it is on the nodes that the ring lists for the hash of that text. */
  lemma PlacedExactlyWhen(shards: map<u32, ShardInfo>, ring: Ring, hashOf: string -> u64, id: u32, replication: nat,
                          name: string)
    requires NamesShard(name, id)
    ensures
      Placed(shards, ring, hashOf, id, replication)
      <==> id in shards
           && [shards[id].primaryNode] + shards[id].replicaNodes == NodesFor(ring, hashOf(name), replication)
  {
    hide NodesFor, Decimal, Read;
    NumeralIsDecimal(name[6..]);
    assert name == "shard:" + name[6..];
  }

  /** All shards are where the ring puts them. */
  ghost predicate AllPlaced(shards: map<u32, ShardInfo>, ring: Ring, hashOf: string -> u64, count: u32, replication: nat) {
    forall id: u32 :: id < count ==> Placed(shards, ring, hashOf, id, replication)
  }

  /** Apart from where they are and when they were changed, shards that there were are as before. */
  predicate SameShard(a: ShardInfo, b: ShardInfo) {
    b == a.(primaryNode := b.primaryNode, replicaNodes := b.replicaNodes, modifiedAt := b.modifiedAt)
  }

  ghost predicate SameShards(shards: map<u32, ShardInfo>, shards': map<u32, ShardInfo>) {
    forall id :: id in shards ==> id in shards' && SameShard(shards[id], shards'[id])
  }

  lemma PlaceNotEmpty(ring: Ring, hashOf: string -> u64, id: u32, replication: nat)
    requires Ascending(ring)
    ensures PlaceOf(ring, hashOf, id, replication) == [] <==> ring == []
  {
    if ring != [] {
      PrimaryIsNearest(ring, hashOf(ShardKey(id)));
    }
  }

  /** The shard's nodes change if and only if the node is among them. */
  predicate MovedExactlyFrom(before: map<u32, ShardInfo>, after: map<u32, ShardInfo>, node: NodeId, id: u32) {
    && id in before && id in after
    && (Placement(after[id]) == Placement(before[id]) <==> node !in Placement(before[id]))
  }

  /** The shard's primary stays or becomes the node. */
  predicate PrimaryMovedOnlyTo(before: map<u32, ShardInfo>, after: map<u32, ShardInfo>, node: NodeId, id: u32) {
    && id in before && id in after
    && (after[id].primaryNode == before[id].primaryNode || after[id].primaryNode == node)
  }

  lemma PlaceOfIs(ring: Ring, hashOf: string -> u64, id: u32, replication: nat)
    requires Ascending(ring)
    ensures PlaceOf(ring, hashOf, id, replication) == NodesFor(ring, hashOf(ShardKey(id)), replication)
    ensures PlaceOf(ring, hashOf, id, replication) == [] <==> ring == []
  {
    PlaceNotEmpty(ring, hashOf, id, replication);
  }

  /** When a node leaves and others remain, the shards that move are exactly those that it held. */
  lemma ShardsMovedByLeaving(before: map<u32, ShardInfo>, after: map<u32, ShardInfo>, ring: Ring, node: NodeId,
                             hashOf: string -> u64, count: u32, replication: nat, id: u32)
    requires AllPlaced(before, ring, hashOf, count, replication) && id < count
    requires AllPlaced(after, Left(ring, node), hashOf, count, replication)
    ensures MovedExactlyFrom(before, after, node, id)
  {
    hide PlaceOf, NodesFor, Preference, Left;
    assert Placed(before, ring, hashOf, id, replication) && Placed(after, Left(ring, node), hashOf, id, replication);
    PlaceOfLeft(ring, node, hashOf, id, replication);
  }

  lemma PlaceOfLeft(ring: Ring, node: NodeId, hashOf: string -> u64, id: u32, replication: nat)
    ensures
      PlaceOf(Left(ring, node), hashOf, id, replication) == PlaceOf(ring, hashOf, id, replication)
      <==> node !in PlaceOf(ring, hashOf, id, replication)
  {
    LeavingChangesExactly(ring, node, hashOf(ShardKey(id)), replication);
  }

  /** When a node joins, a shard's primary moves only to that node. */
  lemma PrimariesMovedByJoining(before: map<u32, ShardInfo>, after: map<u32, ShardInfo>, ring: Ring, node: NodeId,
                                hashes: seq<u64>, hashOf: string -> u64, count: u32, replication: nat, id: u32)
    requires Ascending(ring) && ring != [] && hashes != []
    requires AllPlaced(before, ring, hashOf, count, replication) && id < count
    requires AllPlaced(after, Joined(ring, node, hashes), hashOf, count, replication)
    ensures PrimaryMovedOnlyTo(before, after, node, id)
  {
    hide Preference, Joined, Ascending;
    assert Placed(before, ring, hashOf, id, replication);
    assert Placed(after, Joined(ring, node, hashes), hashOf, id, replication);
    JoiningMovesOnlyToNewcomer(ring, node, hashes, hashOf(ShardKey(id)));
    assert after[id].primaryNode == Placement(after[id])[0] && before[id].primaryNode == Placement(before[id])[0];
  }

  class ClusterManager<Node> {
    const replicationFactor: nat
    const shardCount: u32
    const hashRing: ConsistentHashRing
    var nodes: map<NodeId, Node>
    var shards: map<u32, ShardInfo>

    ghost predicate Valid()
      reads this, hashRing
    {
      hashRing.Valid()
    }

    /** Every shard is where the ring puts it. */
    ghost predicate Balanced()
      reads this, hashRing
    {
      AllPlaced(shards, hashRing.ring, hashRing.hashOf, shardCount, replicationFactor)
    }

    constructor (replicationFactor: nat, shardCount: u32, hashOf: string -> u64)
      ensures Valid() && fresh(hashRing) && hashRing.ring == [] && hashRing.hashOf == hashOf
      ensures nodes == map[] && shards == map[]
      ensures this.replicationFactor == replicationFactor && this.shardCount == shardCount
    {
      this.replicationFactor, this.shardCount := replicationFactor, shardCount;
      hashRing := new ConsistentHashRing(hashOf);
      nodes, shards := map[], map[];
    }

    method AddNode(id: NodeId, node: Node, now: int) returns (r: Result<(), ClusterError>)
      requires Valid()
      modifies this`nodes, this`shards, hashRing
      ensures Valid() && nodes == old(nodes)[id := node] && SameShards(old(shards), shards)
      ensures id in old(hashRing.nodes) ==> hashRing.ring == old(hashRing.ring)
      ensures id !in old(hashRing.nodes) ==>
        && hashRing.ring == Joined(old(hashRing.ring), id, VirtualHashes(hashRing.hashOf, id, VIRTUAL_NODE_COUNT))
        && r.Ok? && Balanced()
      ensures hashRing.ring != [] ==> r.Ok? && Balanced()
      ensures old(Balanced()) && old(hashRing.ring) != [] ==>
        forall s: u32 :: s < shardCount ==> PrimaryMovedOnlyTo(old(shards), shards, id, s)
    {
      hide Ascending, Joined, AllPlaced, SameShards;
      ghost var ring, before, hashes := hashRing.ring, shards, VirtualHashes(hashRing.hashOf, id, VIRTUAL_NODE_COUNT);
      hashRing.AddNode(id);
      nodes := nodes[id := node];
      r := RebalanceShards(now);
      JoinedNotEmpty(ring, id, hashes);
      if Balanced() && ring != [] {
        PrimariesAfterJoining(before, shards, ring, hashRing.ring, id, hashes, hashRing.hashOf, shardCount,
                              replicationFactor);
      }
    }

    method RemoveNode(id: NodeId, now: int) returns (r: Result<(), ClusterError>)
      requires Valid()
      modifies this`nodes, this`shards, hashRing
      ensures Valid() && nodes == old(nodes) - {id} && SameShards(old(shards), shards)
      ensures hashRing.ring == Left(old(hashRing.ring), id)
      ensures hashRing.ring != [] ==> r.Ok? && Balanced()
      ensures old(Balanced()) && hashRing.ring != [] ==>
        forall s: u32 :: s < shardCount ==> MovedExactlyFrom(old(shards), shards, id, s)
      ensures hashRing.ring == [] ==> shards == old(shards)
    {
      hide Ascending, Left, AllPlaced, SameShards;
      ghost var ring, before := hashRing.ring, shards;
      hashRing.RemoveNode(id);
      nodes := nodes - {id};
      r := RebalanceShards(now);
      if hashRing.ring != [] && old(Balanced()) {
        forall s: u32 | s < shardCount
          ensures MovedExactlyFrom(before, shards, id, s)
        {
          ShardsMovedByLeaving(before, shards, ring, id, hashRing.hashOf, shardCount, replicationFactor, s);
        }
      }
    }

    method AssignShard(id: u32, now: int) returns (r: Result<ShardInfo, ClusterError>)
      requires Valid()
      modifies this`shards
      ensures Valid()
      ensures r.Ok? <==> hashRing.ring != []
      ensures r.Err? ==> shards == old(shards)
      ensures r.Ok? ==>
        && shards == old(shards)[id := r.value]
        && r.value == ShardInfo(id, r.value.primaryNode, r.value.replicaNodes, 0, Active, now, now)
        && Placed(shards, hashRing.ring, hashRing.hashOf, id, replicationFactor)
        && (forall name :: NamesShard(name, id) ==>
              [r.value.primaryNode] + r.value.replicaNodes
              == NodesFor(hashRing.ring, hashRing.hashOf(name), replicationFactor))
    {
      var found := hashRing.GetNodes(ShardKey(id), replicationFactor);
      PlaceNotEmpty(hashRing.ring, hashRing.hashOf, id, replicationFactor);
      if found == [] {
        return Err(InvalidConfig);
      }
      var shard := ShardInfo(id, found[0], found[1..], 0, Active, now, now);
      assert Placement(shard) == found;
      shards := shards[id := shard];
      forall name | NamesShard(name, id)
        ensures Placement(shard) == NodesFor(hashRing.ring, hashRing.hashOf(name), replicationFactor)
      {
        PlacedExactlyWhen(shards, hashRing.ring, hashRing.hashOf, id, replicationFactor, name);
      }
      return Ok(shard);
    }

    method RebalanceShards(now: int) returns (r: Result<(), ClusterError>)
      requires Valid()
      modifies this`shards
      ensures Valid() && SameShards(old(shards), shards)
      ensures hashRing.ring != [] ==> r.Ok? && Balanced()
      ensures hashRing.ring == [] ==>
        && shards == old(shards)
        && (r.Ok? <==> forall id: u32 :: id < shardCount ==> id in shards)
    {
      hide PlaceOf, Ascending, AllPlaced, SameShards, NodesFor, ShardKey;
      NonePlaced(shards, hashRing.ring, hashRing.hashOf, replicationFactor);
      SameShardsAtFirst(shards);
      var id: u32 := 0;
      while id < shardCount
        invariant id <= shardCount
        invariant Valid() && SameShards(old(shards), shards)
        invariant hashRing.ring != [] ==>
          AllPlaced(shards, hashRing.ring, hashRing.hashOf, id, replicationFactor)
        invariant hashRing.ring == [] ==> shards == old(shards) && forall s: u32 :: s < id ==> s in shards
      {
        if id in shards {
          var found := hashRing.GetNodes(ShardKey(id), replicationFactor);
          PlaceOfIs(hashRing.ring, hashRing.hashOf, id, replicationFactor);
          if found != [] {
            var shard := shards[id].(primaryNode := found[0], replicaNodes := found[1..], modifiedAt := now);
            assert Placement(shard) == found;
            OneMorePlaced(old(shards), shards, hashRing.ring, hashRing.hashOf, id, replicationFactor, shard);
            shards := shards[id := shard];
          }
        } else {
          ghost var before := shards;
          var outcome := AssignShard(id, now);
          if outcome.Err? {
            return Err(outcome.error);
          }
          OneMorePlaced(old(shards), before, hashRing.ring, hashRing.hashOf, id, replicationFactor, outcome.value);
        }
        id := id + 1;
      }
      return Ok(());
    }
  }

  lemma NonePlaced(shards: map<u32, ShardInfo>, ring: Ring, hashOf: string -> u64, replication: nat)
    ensures AllPlaced(shards, ring, hashOf, 0, replication)
  {
  }

  lemma SameShardsAtFirst(shards: map<u32, ShardInfo>)
    ensures SameShards(shards, shards)
  {
  }

  lemma OneMorePlaced(first: map<u32, ShardInfo>, shards: map<u32, ShardInfo>, ring: Ring, hashOf: string -> u64, id: u32,
                      replication: nat, shard: ShardInfo)
    requires SameShards(first, shards) && (id in shards ==> SameShard(shards[id], shard))
    requires Placement(shard) == PlaceOf(ring, hashOf, id, replication) && id + 1 < 0x1_0000_0000
    ensures SameShards(first, shards[id := shard])
    ensures AllPlaced(shards, ring, hashOf, id, replication) ==>
      AllPlaced(shards[id := shard], ring, hashOf, id + 1, replication)
  {
    hide PlaceOf;
    if AllPlaced(shards, ring, hashOf, id, replication) {
      var shards' := shards[id := shard];
      forall s: u32 | s < id + 1
        ensures Placed(shards', ring, hashOf, s, replication)
      {
        assert s < id ==> Placed(shards, ring, hashOf, s, replication);
      }
    }
  }

  lemma JoinedNotEmpty(ring: Ring, node: NodeId, hashes: seq<u64>)
    requires hashes != []
    ensures Joined(ring, node, hashes) != []
  {
  }

  lemma PrimariesAfterJoining(before: map<u32, ShardInfo>, after: map<u32, ShardInfo>, ring: Ring, ring': Ring, node: NodeId,
                              hashes: seq<u64>, hashOf: string -> u64, count: u32, replication: nat)
    requires Ascending(ring) && ring != [] && hashes != [] && (ring' == ring || ring' == Joined(ring, node, hashes))
    requires AllPlaced(after, ring', hashOf, count, replication)
    ensures AllPlaced(before, ring, hashOf, count, replication) ==>
      forall id: u32 :: id < count ==>
        PrimaryMovedOnlyTo(before, after, node, id)
  {
    hide Ascending, Joined, PlaceOf;
    if AllPlaced(before, ring, hashOf, count, replication) {
      forall id: u32 | id < count
        ensures PrimaryMovedOnlyTo(before, after, node, id)
      {
        if ring' == ring {
          assert Placed(before, ring, hashOf, id, replication) && Placed(after, ring, hashOf, id, replication);
          assert Placement(before[id])[0] == Placement(after[id])[0];
        } else {
          PrimariesMovedByJoining(before, after, ring, node, hashes, hashOf, count, replication, id);
        }
      }
    }
  }
}
