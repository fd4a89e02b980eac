/** The hash ring as an object, jump hashing and the shard router. */
module Sharding {
  import opened Bytes
  import opened Collections
  import opened Hashing

  const VIRTUAL_NODE_COUNT: nat := 150

  function Decimal(n: nat): string {
    (if n < 10 then [] else Decimal(n / 10)) + ["0123456789"[n % 10]]
  }

  /** Digits only, and no zero in front of others. */
  predicate IsNumeral(s: string) {
    s != [] && (forall i :: 0 <= i < |s| ==> '0' <= s[i] <= '9') && (s[0] == '0' ==> |s| == 1)
  }

  /** The number that digits stand for. */
  function Read(s: string): int {
    if s == [] then 0 else 10 * Read(s[..|s| - 1]) + (s[|s| - 1] as int - '0' as int)
  }

  lemma DecimalStep(n: nat, c: char)
    requires '0' <= c <= '9'
    ensures n > 0 ==> Decimal(10 * n + (c as int - '0' as int)) == Decimal(n) + [c]
    ensures Decimal(c as int - '0' as int) == [c]
  {
    var d := c as int - '0' as int;
    assert "0123456789"[d] == c;
    assert (10 * n + d) / 10 == n && (10 * n + d) % 10 == d;
    assert [] + [c] == [c];
  }

  lemma ReadStep(s: string, c: char)
    ensures Read(s + [c]) == 10 * Read(s) + (c as int - '0' as int)
    ensures Read([]) == 0 && Decimal(0) == "0"
  {
    assert (s + [c])[..|s|] == s;
    DecimalStep(0, '0');
  }

  /** A number is written as a numeral, which reads as the number. */
  lemma {:induction false} DecimalReads(n: nat)
    ensures IsNumeral(Decimal(n)) && Read(Decimal(n)) == n
    ensures n > 0 ==> Decimal(n)[0] != '0'
  {
    hide Read, Decimal;
    var c := Digit(n % 10);
    if n < 10 {
      DecimalStep(0, c);
      ReadStep([], c);
      assert [] + [c] == [c];
    } else {
      var init := Decimal(n / 10);
      DecimalReads(n / 10);
      DecimalStep(n / 10, c);
      ReadStep(init, c);
      NumeralGrows(init, c);
    }
  }

  function Digit(d: nat): (c: char)
    requires d < 10
    ensures '0' <= c <= '9' && c as int - '0' as int == d
  {
    "0123456789"[d]
  }

  lemma NumeralGrows(init: string, c: char)
    requires IsNumeral(init) && init[0] != '0' && '0' <= c <= '9'
    ensures IsNumeral(init + [c]) && (init + [c])[0] != '0'
  {
  }

  /** There is one numeral for each number. */
  lemma {:induction false} NumeralIsDecimal(s: string)
    requires IsNumeral(s)
    ensures Read(s) >= 0 && s == Decimal(Read(s))
  {
    hide Read, Decimal;
    var init, c := s[..|s| - 1], s[|s| - 1];
    assert s == init + [c];
    ReadStep(init, c);
    if init == [] {
      DecimalStep(0, c);
    } else {
      assert init[0] == s[0];
      NumeralIsDecimal(init);
      assert Read(init) != 0;
      DecimalStep(Read(init), c);
    }
  }

  /** What is hashed for a node's i-th virtual node. */
  function VirtualName(node: NodeId, i: nat): string {
    node.text + ":" + Decimal(i)
  }

  /** Where a node's first virtual nodes fall. */
  function VirtualHashes(hashOf: string -> u64, node: NodeId, count: nat): (hashes: seq<u64>)
    ensures |hashes| == count
  {
    if count == 0 then [] else VirtualHashes(hashOf, node, count - 1) + [hashOf(VirtualName(node, count - 1))]
  }

  lemma {:induction false} VirtualHashAt(hashOf: string -> u64, node: NodeId, count: nat, i: nat)
    requires i < count
    ensures VirtualHashes(hashOf, node, count)[i] == hashOf(VirtualName(node, i))
  {
    if i < count - 1 {
      VirtualHashAt(hashOf, node, count - 1, i);
    }
  }

  lemma LastColon(s: string, t: string, s': string, t': string)
    requires s + ":" + t == s' + ":" + t' && ':' !in t && ':' !in t'
    ensures s == s' && t == t'
  {
    var whole := s + ":" + t;
    assert whole[|s|] == ':' && whole[|s'|] == ':';
    assert forall p :: |s| < p < |whole| ==> whole[p] in t;
    assert forall p :: |s'| < p < |whole| ==> whole[p] in t';
    assert s == whole[..|s|] && t == whole[|s| + 1..];
  }

  /** Each virtual node of each node hashes a text of its own: the node's name, a colon and the number. */
  lemma VirtualNodesHashApart(hashOf: string -> u64, node: NodeId, i: nat, node': NodeId, i': nat)
    requires i < VIRTUAL_NODE_COUNT
    ensures |VirtualHashes(hashOf, node, VIRTUAL_NODE_COUNT)| == 150
    ensures VirtualHashes(hashOf, node, VIRTUAL_NODE_COUNT)[i] == hashOf(VirtualName(node, i))
    ensures
      var name := VirtualName(node, i);
      && name[..|node.text| + 1] == node.text + ":"
      && IsNumeral(name[|node.text| + 1..]) && Read(name[|node.text| + 1..]) == i
    ensures VirtualName(node, i) == VirtualName(node', i') <==> node == node' && i == i'
  {
    hide Decimal;
    VirtualHashAt(hashOf, node, VIRTUAL_NODE_COUNT, i);
    DecimalReads(i);
    DecimalReads(i');
    var name := VirtualName(node, i);
    assert name[..|node.text| + 1] == node.text + ":" && name[|node.text| + 1..] == Decimal(i);
    if VirtualName(node, i) == VirtualName(node', i') {
      LastColon(node.text, Decimal(i), node'.text, Decimal(i'));
    }
  }

  lemma {:induction false} DedupPrefix<T(!new)>(s: seq<T>, k: nat)
    requires k <= |s|
    ensures Dedup(s[..k]) <= Dedup(s)
  {
    if k < |s| {
      var init := s[..|s| - 1];
      DedupPrefix(init, k);
      assert init[..k] == s[..k];
    } else {
      assert s[..k] == s;
    }
  }

  class ConsistentHashRing {
    var ring: Ring
    var nodes: map<NodeId, nat>
    const hashOf: string -> u64

    /** The ring is in order and only registered nodes have points. */
    ghost predicate Valid()
      reads this
    {
      Ascending(ring) && NodeSet(ring) <= nodes.Keys
    }

    constructor (hashOf: string -> u64)
      ensures Valid() && ring == [] && nodes == map[] && this.hashOf == hashOf
    {
      ring, nodes := [], map[];
      this.hashOf := hashOf;
    }

    method AddNode(node: NodeId)
      requires Valid()
      modifies this
      ensures Valid()
      ensures node in old(nodes) ==> ring == old(ring) && nodes == old(nodes)
      ensures node !in old(nodes) ==>
        && ring == Joined(old(ring), node, VirtualHashes(hashOf, node, VIRTUAL_NODE_COUNT))
        && nodes == old(nodes)[node := VIRTUAL_NODE_COUNT]
    {
      if node in nodes {
        return;
      }
      for i := 0 to VIRTUAL_NODE_COUNT
        invariant ring == Joined(old(ring), node, VirtualHashes(hashOf, node, i))
        invariant nodes == old(nodes)
      {
        var hash := hashOf(node.text + ":" + Decimal(i));
        ghost var hashes := VirtualHashes(hashOf, node, i + 1);
        assert hashes[..i] == VirtualHashes(hashOf, node, i);
        ring := Inserted(ring, Point(hash, node));
      }
      ghost var hashes := VirtualHashes(hashOf, node, VIRTUAL_NODE_COUNT);
      nodes := nodes[node := VIRTUAL_NODE_COUNT];
      JoinedAscends(old(ring), node, hashes);
      JoinedNodes(old(ring), node, hashes);
    }

    method RemoveNode(node: NodeId)
      requires Valid()
      modifies this
      ensures Valid()
      ensures ring == Left(old(ring), node) && nodes == old(nodes) - {node}
    {
      LeftAscends(ring, node);
      LeftNodes(ring, node);
      if node !in nodes {
        return;
      }
      ring := Left(ring, node);
      nodes := nodes - {node};
    }

    method GetNodes(key: string, count: nat) returns (found: seq<NodeId>)
      ensures found == NodesFor(ring, hashOf(key), count)
    {
      hide Dedup, Walk, From, Owners, NodesFor, AtLeastOne;
      found := [];
      var hash := hashOf(key);
      ghost var owners, enough := Owners(Walk(ring, hash)), AtLeastOne(count);
      WalkOwners(ring, hash, count);
      if ring == [] {
        return;
      }
      var seen: set<NodeId> := {};
      var onwards := From(ring, hash);
      for i := 0 to |onwards|
        invariant found == Dedup(owners[..i]) && |found| < enough
        invariant forall node :: node in seen <==> node in found
      {
        var node := onwards[i].node;
        WalkOwner(ring, hash, i);
        OneMoreVisited(owners, i, enough);
        if node !in seen {
          seen := seen + {node};
          found := found + [node];
          if |found| >= count {
            EnoughVisited(owners, i + 1, count);
            return;
          }
        }
      }
      for i := 0 to |ring|
        invariant found == Dedup(owners[..|onwards| + i]) && |found| < enough
        invariant forall node :: node in seen <==> node in found
      {
        var node := ring[i].node;
        WalkOwner(ring, hash, |onwards| + i);
        OneMoreVisited(owners, |onwards| + i, enough);
        if node !in seen {
          seen := seen + {node};
          found := found + [node];
          if |found| >= count {
            EnoughVisited(owners, |onwards| + i + 1, count);
            return;
          }
        }
      }
      assert owners[..|owners|] == owners;
    }
  }

  lemma WalkOwners(ring: Ring, hash: u64, count: nat)
    ensures
      var owners := Owners(Walk(ring, hash));
      && |owners| == |From(ring, hash)| + |ring|
      && NodesFor(ring, hash, count) == Take(Dedup(owners), AtLeastOne(count))
      && (ring == [] ==> NodesFor(ring, hash, count) == [])
    ensures Dedup(Owners(Walk(ring, hash))[..0]) == []
    ensures AtLeastOne(count) > 0 && AtLeastOne(count) >= count
  {
  }

  lemma WalkOwner(ring: Ring, hash: u64, i: nat)
    requires i < |From(ring, hash)| + |ring|
    ensures |Owners(Walk(ring, hash))| == |From(ring, hash)| + |ring|
    ensures Owners(Walk(ring, hash))[i] ==
            if i < |From(ring, hash)| then From(ring, hash)[i].node else ring[i - |From(ring, hash)|].node
  {
  }

  lemma EnoughVisited(owners: seq<NodeId>, i: nat, count: nat)
    requires i <= |owners| && count <= |Dedup(owners[..i])| <= AtLeastOne(count) && Dedup(owners[..i]) != []
    ensures Dedup(owners[..i]) == Take(Dedup(owners), AtLeastOne(count))
  {
    DedupPrefix(owners, i);
  }

  lemma OneMoreVisited(owners: seq<NodeId>, i: nat, enough: nat)
    requires i < |owners| && |Dedup(owners[..i])| < enough
    ensures
      var found := Dedup(owners[..i]);
      Dedup(owners[..i + 1]) == if owners[i] in found then found else found + [owners[i]]
    ensures |Dedup(owners[..i + 1])| <= enough
  {
    assert owners[..i + 1][..i] == owners[..i];
  }

  lemma JoinedNodes(ring: Ring, node: NodeId, hashes: seq<u64>)
    requires Ascending(ring)
    ensures NodeSet(Joined(ring, node, hashes)) <= NodeSet(ring) + {node}
    ensures hashes != [] ==> node in NodeSet(Joined(ring, node, hashes))
  {
    JoinedAscends(ring, node, hashes);
    var r := Joined(ring, node, hashes);
    hide Joined;
    forall x | x in NodeSet(r)
      ensures x in NodeSet(ring) + {node}
    {
      var i :| 0 <= i < |r| && r[i].node == x;
      assert r[i] in r;
      if x != node {
        var k :| 0 <= k < |ring| && ring[k] == r[i];
      }
    }
    if hashes != [] {
      assert hashes[0] in hashes;
      assert Point(hashes[0], node) in r;
    }
  }

  lemma {:induction false} LeftNodes(ring: Ring, node: NodeId)
    ensures NodeSet(Left(ring, node)) == NodeSet(ring) - {node}
    ensures node !in NodeSet(ring) ==> Left(ring, node) == ring
  {
    if ring != [] {
      var rest := ring[1..];
      LeftNodes(rest, node);
      NodesCons(ring[0], rest);
      assert ring == [ring[0]] + rest;
      NodesCons(ring[0], Left(rest, node));
      assert [] + Left(rest, node) == Left(rest, node);
    }
  }

  lemma NodesCons(p: Point, ring: Ring)
    ensures NodeSet([p] + ring) == {p.node} + NodeSet(ring)
  {
    var r := [p] + ring;
    assert r[0] == p;
    assert forall i :: 0 <= i < |ring| ==> r[i + 1] == ring[i];
    assert forall i :: 0 < i < |r| ==> r[i] == ring[i - 1];
  }

  // ---------------------------------------------------------------- jump hashing

  function Scrambled(hash: u64): u64 {
    (hash * 2862933555777941757 + 1) % 0x1_0000_0000_0000_0000
  }

  /** The next landing, computed exactly. */
  function ExactNext(b: nat, hash: u64): nat {
    (b + 1) * 0x8000_0000 / (hash / 0x2_0000_0000 + 1)
  }

  /** The next landing is the quotient of (b + 1) * 2^31 by one more than the 31 high bits of the hash, rounded down. */
  lemma ExactNextIsFloor(b: nat, hash: u64)
    ensures
      var r, d := ExactNext(b, hash), hash / 8_589_934_592 + 1;
      r * d <= (b + 1) * 2_147_483_648 < (r + 1) * d
  {
    var d := hash / 0x2_0000_0000 + 1;
    var x := (b + 1) * 0x8000_0000;
    assert x == (x / d) * d + x % d;
    assert (x / d + 1) * d == (x / d) * d + d;
  }

  /** The scrambling is the affine step of a linear congruential generator: 0 goes to 1, and each step up adds the
      multiplier; and no two hashes are scrambled alike. */
  lemma ScrambledIsAffine(hash: u64, hash': u64)
    ensures Scrambled(0) == 1
    ensures hash < 0xFFFF_FFFF_FFFF_FFFF ==>
      Scrambled(hash + 1) == (Scrambled(hash) + 2_862_933_555_777_941_757) % 0x1_0000_0000_0000_0000
    ensures Scrambled(hash) == Scrambled(hash') <==> hash == hash'
  {
    var m, a := 0x1_0000_0000_0000_0000, 2_862_933_555_777_941_757;
    ModAdd(hash * a + 1, a, m);
    assert (hash + 1) * a + 1 == hash * a + 1 + a;
    if Scrambled(hash) == Scrambled(hash') {
      Unscrambled(hash);
      Unscrambled(hash');
    }
  }

  /** The multiplier has an inverse modulo 2^64, which undoes the scrambling. */
  lemma Unscrambled(hash: u64)
    ensures ((Scrambled(hash) - 1) * 16_133_697_096_952_638_549) % 0x1_0000_0000_0000_0000 == hash
  {
    var m, a, inverse, t := 0x1_0000_0000_0000_0000, 2_862_933_555_777_941_757, 16_133_697_096_952_638_549,
                            2_503_948_805_982_125_087;
    assert a * inverse == 1 + t * m;
    var q := (hash * a + 1) / m;
    assert hash * a + 1 == q * m + Scrambled(hash);
    Undo(hash, a, inverse, t, m, q, Scrambled(hash));
    ModUnique((Scrambled(hash) - 1) * inverse, hash * t - q * inverse, hash, m);
  }

  lemma Undo(h: int, a: int, inverse: int, t: int, m: int, q: int, x: int)
    requires a * inverse == 1 + t * m && h * a + 1 == q * m + x
    ensures (x - 1) * inverse == (h * t - q * inverse) * m + h
  {
    assert (x - 1) * inverse == (h * a - q * m) * inverse;
    assert (h * a) * inverse == h * (a * inverse);
    assert h * (1 + t * m) == h + (h * t) * m;
    assert (q * m) * inverse == (q * inverse) * m;
  }

  /** However the division is rounded, the next landing is beyond this one. */
  ghost predicate MovesOn(next: (nat, u64) -> nat) {
    forall b: nat, hash: u64 :: next(b, hash) >= b + 1
  }

  lemma ExactNextMovesOn()
    ensures MovesOn(ExactNext)
  {
    forall b: nat, hash: u64
      ensures ExactNext(b, hash) >= b + 1
    {
      var d := hash / 0x2_0000_0000 + 1;
      assert 1 <= d <= 0x8000_0000;
      MulMonotone(d, 0x8000_0000, b + 1);
      QuotientAtLeast((b + 1) * 0x8000_0000, b + 1, d);
    }
  }

  lemma QuotientAtLeast(x: nat, y: nat, d: nat)
    requires d > 0 && d * y <= x
    ensures x / d >= y
  {
    var q := x / d;
    assert x == q * d + x % d;
    assert (q - y) * d == q * d - d * y;
    MulBounds(q - y, d);
  }

  /** The last landing before n, from a state where the last landing is b (or none) and the next is j. */
  function JumpFrom(next: (nat, u64) -> nat, hash: u64, b: int, j: nat, n: nat): (r: int)
    requires MovesOn(next) && -1 <= b < j
    decreases n - j
  {
    if j >= n then b
    else
      var hash' := Scrambled(hash);
      JumpFrom(next, hash', j, next(j, hash'), n)
  }

  /** A bucket number; without buckets the largest 32-bit number. */
  function Jump(next: (nat, u64) -> nat, hash: u64, n: u32): u32
    requires MovesOn(next)
  {
    JumpFromBelow(next, hash, -1, 0, n);
    var b := JumpFrom(next, hash, -1, 0, n);
    if b == -1 then 0xFFFF_FFFF else b
  }

  lemma {:induction false} JumpFromBelow(next: (nat, u64) -> nat, hash: u64, b: int, j: nat, n: nat)
    requires MovesOn(next) && -1 <= b < j
    ensures b <= JumpFrom(next, hash, b, j, n)
    ensures JumpFrom(next, hash, b, j, n) < n || JumpFrom(next, hash, b, j, n) == b
    ensures b < n ==> JumpFrom(next, hash, b, j, n) < n
    ensures j < n ==> JumpFrom(next, hash, b, j, n) >= j
    decreases n - j
  {
    if j < n {
      var hash' := Scrambled(hash);
      JumpFromBelow(next, hash', j, next(j, hash'), n);
    }
  }

  /** Buckets are below n. */
  lemma JumpInRange(next: (nat, u64) -> nat, hash: u64, n: u32)
    requires MovesOn(next)
    ensures n > 0 ==> Jump(next, hash, n) < n
    ensures n == 0 ==> Jump(next, hash, n) == 0xFFFF_FFFF
  {
    JumpFromBelow(next, hash, -1, 0, n);
  }

  lemma {:induction false} JumpFromGrows(next: (nat, u64) -> nat, hash: u64, b: int, j: nat, n: nat, m: nat)
    requires MovesOn(next) && -1 <= b < j && n <= m
    ensures
      var x, y := JumpFrom(next, hash, b, j, n), JumpFrom(next, hash, b, j, m);
      y == x || y >= n
    decreases n - j
  {
    if j < n {
      var hash' := Scrambled(hash);
      JumpFromGrows(next, hash', j, next(j, hash'), n, m);
    } else {
      JumpFromBelow(next, hash, b, j, m);
    }
  }

  /** With more buckets a key keeps its bucket or moves to one of the new ones. */
  lemma JumpMovesOnlyToNewBuckets(next: (nat, u64) -> nat, hash: u64, n: u32, m: u32)
    requires MovesOn(next) && 0 < n <= m
    ensures Jump(next, hash, m) == Jump(next, hash, n) || n <= Jump(next, hash, m) < m
  {
    JumpFromGrows(next, hash, -1, 0, n, m);
    JumpFromBelow(next, hash, -1, 0, n);
    JumpFromBelow(next, hash, -1, 0, m);
  }

  /** The hash after i scramblings. */
  function HashAt(hash: u64, i: nat): u64 {
    if i == 0 then hash else Scrambled(HashAt(hash, i - 1))
  }

  /** Where the i-th jump lands; the first is at bucket 0. */
  function Landing(next: (nat, u64) -> nat, hash: u64, i: nat): nat {
    if i == 0 then 0 else next(Landing(next, hash, i - 1), HashAt(hash, i))
  }

  lemma {:induction false} JumpFromLanding(next: (nat, u64) -> nat, hash: u64, i: nat, n: nat) returns (last: nat)
    requires MovesOn(next) && (i > 0 ==> Landing(next, hash, i - 1) < n)
    ensures
      var b := if i == 0 then -1 else Landing(next, hash, i - 1);
      && b < Landing(next, hash, i)
      && (n > 0 ==>
            && JumpFrom(next, HashAt(hash, i), b, Landing(next, hash, i), n) == Landing(next, hash, last)
            && Landing(next, hash, last) < n <= Landing(next, hash, last + 1))
    decreases n - Landing(next, hash, i)
  {
    last := if i == 0 then 0 else i - 1;
    if Landing(next, hash, i) < n {
      last := JumpFromLanding(next, hash, i + 1, n);
    }
  }

  /** The jumps go ever further; a key's bucket is the last landing below the number of buckets. */
  lemma JumpIsLastLanding(next: (nat, u64) -> nat, hash: u64, n: u32) returns (last: nat)
    requires MovesOn(next) && n > 0
    ensures Jump(next, hash, n) == Landing(next, hash, last)
    ensures Landing(next, hash, last) < n <= Landing(next, hash, last + 1)
  {
    last := JumpFromLanding(next, hash, 0, n);
  }

  class ShardRouter {
    const shardCount: u32
    const hashOf: string -> u64
    const next: (nat, u64) -> nat
    var cache: map<string, u32>

    /** Only computed shards are cached. */
    ghost predicate Valid()
      reads this
    {
      MovesOn(next) && forall key :: key in cache ==> cache[key] == Jump(next, hashOf(key), shardCount)
    }

    constructor (shardCount: u32, hashOf: string -> u64, next: (nat, u64) -> nat)
      requires MovesOn(next)
      ensures Valid() && cache == map[]
      ensures this.shardCount == shardCount && this.hashOf == hashOf && this.next == next
    {
      this.shardCount, this.hashOf, this.next := shardCount, hashOf, next;
      cache := map[];
    }

    method GetShard(key: string) returns (shard: u32)
      requires Valid()
      modifies this`cache
      ensures Valid()
      ensures shard == Jump(next, hashOf(key), shardCount)
    {
      if key in cache {
        return cache[key];
      }
      shard := JumpConsistentHash(key, shardCount);
      cache := cache[key := shard];
    }

    method JumpConsistentHash(key: string, buckets: u32) returns (bucket: u32)
      requires MovesOn(next)
      ensures bucket == Jump(next, hashOf(key), buckets)
    {
      var hash := hashOf(key);
      var b: int, j: nat := -1, 0;
      while j < buckets
        invariant -1 <= b < j && b < buckets
        invariant JumpFrom(next, hash, b, j, buckets) == JumpFrom(next, hashOf(key), -1, 0, buckets)
        decreases buckets - j
      {
        b := j;
        hash := Scrambled(hash);
        j := next(j, hash);
      }
      bucket := if b == -1 then 0xFFFF_FFFF else b;
    }

    method ClearCache()
      requires Valid()
      modifies this`cache
      ensures Valid() && cache == map[]
    {
      cache := map[];
    }
  }
}
