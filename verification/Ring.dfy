/** The consistent-hash ring: virtual nodes on a circle of 2^64 points, each key served by the next node clockwise. */
module Ring {
  import opened Bytes

  type Nodes = map<u64, nat>

  const CIRCLE := 0x1_0000_0000_0000_0000

  // ---- the reference: nearest node clockwise ----

  function Distance(from: u64, to: u64): nat {
    if to >= from then to - from else to - from + CIRCLE
  }

  /** No node is met earlier when walking clockwise from `k`. */
  ghost predicate Nearest(hashes: set<u64>, k: u64, h: u64) {
    h in hashes && forall g :: g in hashes ==> Distance(k, h) <= Distance(k, g)
  }

  lemma NearestUnique(hashes: set<u64>, k: u64, g: u64, h: u64)
    requires Nearest(hashes, k, g) && Nearest(hashes, k, h)
    ensures g == h
  {
    assert Distance(k, g) == Distance(k, h);
  }

  ghost function Successor(hashes: set<u64>, k: u64): (h: u64)
    requires hashes != {}
    ensures Nearest(hashes, k, h)
    decreases |hashes|
  {
    var g :| g in hashes;
    var rest := hashes - {g};
    if rest == {} then
      assert hashes == {g};
      g
    else
      var h := Successor(rest, k);
      if Distance(k, g) <= Distance(k, h) then g else h
  }

  /** The shard a ring assigns to a point. */
  ghost function RouteOn(nodes: Nodes, k: u64): (shard: nat)
    requires nodes != map[]
    ensures forall h :: Nearest(nodes.Keys, k, h) ==> shard == nodes[h]
  {
    var g := Successor(nodes.Keys, k);
    assert forall h :: Nearest(nodes.Keys, k, h) ==> h == g by {
      forall h | Nearest(nodes.Keys, k, h) ensures h == g {
        NearestUnique(nodes.Keys, k, g, h);
      }
    }
    nodes[g]
  }

  // ---- changing the ring ----

  /** `add_shard`: the new shard takes over the points of its virtual nodes, colliding ones included. */
  function Added(nodes: Nodes, points: set<u64>, shard: nat): Nodes {
    nodes + map h | h in points :: shard
  }

  /** `remove_shard`. */
  function Removed(nodes: Nodes, shard: nat): Nodes {
    map h | h in nodes && nodes[h] != shard :: nodes[h]
  }

  lemma AddedNone(nodes: Nodes, shard: nat)
    ensures Added(nodes, {}, shard) == nodes
  {
  }

  lemma AddedAt(nodes: Nodes, points: set<u64>, shard: nat, h: u64)
    ensures h in Added(nodes, points, shard) <==> h in nodes || h in points
    ensures h in Added(nodes, points, shard) ==>
              Added(nodes, points, shard)[h] == if h in points then shard else nodes[h]
  {
  }

  lemma AddedPoint(nodes: Nodes, points: set<u64>, shard: nat, p: u64)
    ensures Added(nodes, points, shard)[p := shard] == Added(nodes, points + {p}, shard)
  {
  }

  /**
   Adding a shard leaves every key where it was or moves it to the new shard, and it moves iff a point of the
   new shard is met no later than the node that served it.
   */
  lemma AddDisruptsLittle(nodes: Nodes, points: set<u64>, shard: nat, k: u64, g: u64, h: u64)
    requires Nearest(nodes.Keys, k, g) && Nearest(Added(nodes, points, shard).Keys, k, h)
    ensures if exists p :: p in points && Distance(k, p) <= Distance(k, g) then h in points else h == g
    ensures Added(nodes, points, shard)[h] == if h in points then shard else nodes[g]
    ensures RouteOn(Added(nodes, points, shard), k) in {RouteOn(nodes, k), shard}
  {
    var after := Added(nodes, points, shard);
    assert after.Keys == nodes.Keys + points;
    if h !in points {
      assert Nearest(nodes.Keys, k, h);
      NearestUnique(nodes.Keys, k, g, h);
      forall p | p in points ensures Distance(k, p) > Distance(k, g) {
        assert p in after.Keys && Distance(k, h) <= Distance(k, p);
        assert p != h;
        Apart(k, p, h);
      }
    } else {
      assert g in after.Keys && Distance(k, h) <= Distance(k, g);
    }
  }

  lemma Apart(k: u64, p: u64, h: u64)
    requires p != h
    ensures Distance(k, p) != Distance(k, h)
  {
  }

  /** Removing a shard moves only the keys it was serving. */
  lemma RemoveDisruptsLittle(nodes: Nodes, shard: nat, k: u64, g: u64, h: u64)
    requires Nearest(nodes.Keys, k, g) && Nearest(Removed(nodes, shard).Keys, k, h)
    ensures h == g <==> nodes[g] != shard
    ensures RouteOn(nodes, k) != shard ==> RouteOn(Removed(nodes, shard), k) == RouteOn(nodes, k)
  {
    var after := Removed(nodes, shard);
    assert after.Keys <= nodes.Keys;
    if nodes[g] != shard {
      assert g in after;
      assert Nearest(after.Keys, k, g);
      NearestUnique(after.Keys, k, g, h);
    }
  }

  /**
   Adding and then removing a shard restores the ring iff the shard was not on it and none of its points was
   taken.
   */
  lemma AddThenRemoveIff(nodes: Nodes, points: set<u64>, shard: nat)
    ensures Removed(Added(nodes, points, shard), shard) == nodes
       <==> points !! nodes.Keys && forall h :: h in nodes ==> nodes[h] != shard
  {
    var back := Removed(Added(nodes, points, shard), shard);
    if points !! nodes.Keys && forall h :: h in nodes ==> nodes[h] != shard {
      assert back == nodes;
    } else if h :| h in points && h in nodes {
      assert h !in back;
    } else {
      var h :| h in nodes && nodes[h] == shard;
      assert h !in back;
    }
  }

  // ---- the sorted vector ----

  predicate Increasing(s: seq<u64>) {
    forall i, j :: 0 <= i < j < |s| ==> s[i] < s[j]
  }

  /** The vector is the key set of the map, in increasing order. */
  ghost predicate Sorts(s: seq<u64>, hashes: set<u64>) {
    Increasing(s) && forall h :: h in s <==> h in hashes
  }

  method BinarySearch(s: seq<u64>, x: u64) returns (found: bool, index: nat)
    requires Increasing(s)
    ensures index <= |s|
    ensures found ==> index < |s| && s[index] == x
    ensures !found ==> (forall i :: 0 <= i < index ==> s[i] < x) && (forall i :: index <= i < |s| ==> s[i] > x)
  {
    var low, high := 0, |s|;
    while low < high
      invariant 0 <= low <= high <= |s|
      invariant forall i :: 0 <= i < low ==> s[i] < x
      invariant forall i :: high <= i < |s| ==> s[i] > x
    {
      var mid := (low + high) / 2;
      if s[mid] == x {
        return true, mid;
      } else if s[mid] < x {
        low := mid + 1;
      } else {
        high := mid;
      }
    }
    found, index := false, low;
  }

  /** The insertion point in the sorted vector, wrapped around, is the nearest node clockwise. */
  lemma InsertionPointIsNearest(s: seq<u64>, hashes: set<u64>, k: u64, index: nat)
    requires Sorts(s, hashes) && s != [] && index <= |s|
    requires forall i :: 0 <= i < index ==> s[i] < k
    requires forall i :: index <= i < |s| ==> s[i] >= k
    ensures Nearest(hashes, k, s[if index == |s| then 0 else index])
  {
    var p := if index == |s| then 0 else index;
    assert s[p] in s;
    forall g | g in hashes ensures Distance(k, s[p]) <= Distance(k, g) {
      assert g in s;
      var i :| 0 <= i < |s| && s[i] == g;
      assert p < i ==> s[p] < s[i];
      assert i < p ==> s[i] < k;
    }
  }

  /** What a lookup comes to; on an empty ring the code indexes an empty vector. */
  datatype Served = ServedBy(shard: nat) | Panics

  class ConsistentHashRing {
    /** Hash of "shard-i-vnode-j", and of a key. */
    const pointOf: (nat, nat) -> u64
    const hashOf: bytes -> u64
    const vnodes: nat
    var nodes: Nodes
    var sortedHashes: seq<u64>

    ghost predicate Valid()
      reads this
    {
      Sorts(sortedHashes, nodes.Keys)
    }

    ghost function Points(shard: nat): set<u64> {
      PointsUpTo(shard, vnodes)
    }

    ghost function PointsUpTo(shard: nat, n: nat): set<u64> {
      set v: nat | 0 <= v < n :: pointOf(shard, v)
    }

    /** `new`: the shards' virtual nodes go onto the ring one after another. */
    constructor (pointOf: (nat, nat) -> u64, hashOf: bytes -> u64, shardCount: nat, vnodes: nat)
      ensures Valid()
      ensures this.pointOf == pointOf && this.hashOf == hashOf && this.vnodes == vnodes
      ensures nodes == Initial(shardCount)
      ensures nodes == map[] <==> shardCount == 0 || vnodes == 0
      ensures forall h :: h in nodes ==> LastOn(h, nodes[h], shardCount)
      ensures forall s, v :: 0 <= s < shardCount && 0 <= v < vnodes ==> pointOf(s, v) in nodes
    {
      this.pointOf, this.hashOf, this.vnodes := pointOf, hashOf, vnodes;
      nodes, sortedHashes := map[], [];
      new;
      for shard := 0 to shardCount
        invariant nodes == Initial(shard)
      {
        InsertPoints(shard);
      }
      Rebuild();
      EmptyAtFirstIff(shardCount);
      InitialExactly(shardCount);
    }

    ghost predicate HasPoint(shard: nat, h: u64) {
      exists v :: 0 <= v < vnodes && pointOf(shard, v) == h
    }

    /** Among the first `shardCount` shards, `s` is the last one with a virtual node at `h`. */
    ghost predicate LastOn(h: u64, s: nat, shardCount: nat) {
      s < shardCount && HasPoint(s, h) && forall s' :: s < s' < shardCount ==> !HasPoint(s', h)
    }

    lemma {:induction false} InitialExactly(shardCount: nat)
      ensures forall h :: h in Initial(shardCount) ==> LastOn(h, Initial(shardCount)[h], shardCount)
      ensures forall s, v :: 0 <= s < shardCount && 0 <= v < vnodes ==> pointOf(s, v) in Initial(shardCount)
      decreases shardCount
    {
      hide Added; hide ConsistentHashRing.Points; hide ConsistentHashRing.HasPoint;
      if shardCount > 0 {
        var last := shardCount - 1;
        InitialExactly(last);
        var before, points := Initial(last), Points(last);
        forall h | h in Initial(shardCount) ensures LastOn(h, Initial(shardCount)[h], shardCount) {
          AddedAt(before, points, last, h);
          PointsMean(last, h);
        }
        forall s, v | 0 <= s < shardCount && 0 <= v < vnodes ensures pointOf(s, v) in Initial(shardCount) {
          var h := pointOf(s, v);
          AddedAt(before, points, last, h);
          if s == last {
            PointIsThere(last, v);
            PointsMean(last, h);
          }
        }
      }
    }

    lemma PointsMean(shard: nat, h: u64)
      ensures h in Points(shard) <==> HasPoint(shard, h)
    {
    }

    lemma PointIsThere(shard: nat, v: nat)
      requires v < vnodes
      ensures HasPoint(shard, pointOf(shard, v))
    {
    }

    /** A ring is empty at first, so that looking anything up panics, iff it was given no shards or no virtual nodes. */
    lemma {:induction false} EmptyAtFirstIff(shardCount: nat)
      ensures Initial(shardCount) == map[] <==> shardCount == 0 || vnodes == 0
      decreases shardCount
    {
      if shardCount > 0 {
        EmptyAtFirstIff(shardCount - 1);
        var points := Points(shardCount - 1);
        if vnodes > 0 {
          assert pointOf(shardCount - 1, 0) in points;
          assert pointOf(shardCount - 1, 0) in Initial(shardCount);
        } else {
          assert points == {};
        }
      }
    }

    /** Shards 0, 1, ... put on the ring in order, a later one taking over a point an earlier one holds. */
    ghost function Initial(shardCount: nat): Nodes {
      if shardCount == 0 then map[] else Added(Initial(shardCount - 1), Points(shardCount - 1), shardCount - 1)
    }

    /** `get_shard`. */
    method GetShard(key: bytes) returns (r: Served)
      requires Valid()
      ensures r == if nodes == map[] then Panics else ServedBy(RouteOn(nodes, hashOf(key)))
      ensures nodes != map[] ==> exists h :: Nearest(nodes.Keys, hashOf(key), h) && r == ServedBy(nodes[h])
    {
      var k := hashOf(key);
      if sortedHashes == [] {
        assert nodes.Keys == {} by {
          forall h ensures h !in nodes.Keys {
            assert h !in sortedHashes;
          }
        }
        return Panics;
      }
      assert sortedHashes[0] in nodes;
      var found, index := BinarySearch(sortedHashes, k);
      var pos := if found then index else if index == |sortedHashes| then 0 else index;
      assert sortedHashes[pos] in nodes;
      InsertionPointIsNearest(sortedHashes, nodes.Keys, k, index);
      NearestUnique(nodes.Keys, k, sortedHashes[pos], Successor(nodes.Keys, k));
      r := ServedBy(nodes[sortedHashes[pos]]);
    }

    /** `add_shard`. */
    method AddShard(shard: nat)
      requires Valid()
      modifies this
      ensures Valid() && nodes == Added(old(nodes), Points(shard), shard)
      ensures forall v :: 0 <= v < vnodes ==> pointOf(shard, v) in nodes && nodes[pointOf(shard, v)] == shard
      ensures forall h :: h in old(nodes) ==> h in nodes && (nodes[h] == old(nodes)[h] || nodes[h] == shard)
      ensures forall h :: h in nodes && (h !in old(nodes) || nodes[h] != old(nodes)[h]) ==>
                exists v :: 0 <= v < vnodes && pointOf(shard, v) == h
    {
      InsertPoints(shard);
      Rebuild();
    }

    method InsertPoints(shard: nat)
      modifies this`nodes
      ensures nodes == Added(old(nodes), Points(shard), shard)
    {
      NoPoints(shard);
      AddedNone(nodes, shard);
      hide *;
      for v := 0 to vnodes
        invariant nodes == Added(old(nodes), PointsUpTo(shard, v), shard)
      {
        OnePointMore(shard, v);
        AddedPoint(old(nodes), PointsUpTo(shard, v), shard, pointOf(shard, v));
        nodes := nodes[pointOf(shard, v) := shard];
      }
      PointsAll(shard);
    }

    lemma NoPoints(shard: nat)
      ensures PointsUpTo(shard, 0) == {}
    {
    }

    lemma PointsAll(shard: nat)
      ensures Points(shard) == PointsUpTo(shard, vnodes)
    {
    }

    lemma OnePointMore(shard: nat, v: nat)
      ensures PointsUpTo(shard, v + 1) == PointsUpTo(shard, v) + {pointOf(shard, v)}
    {
    }

    /** `remove_shard`. */
    method RemoveShard(shard: nat)
      requires Valid()
      modifies this
      ensures Valid() && nodes == Removed(old(nodes), shard)
      ensures forall h :: h in nodes <==> h in old(nodes) && old(nodes)[h] != shard
      ensures forall h :: h in nodes ==> nodes[h] == old(nodes)[h]
      ensures nodes == map[] <==> forall h :: h in old(nodes) ==> old(nodes)[h] == shard
    {
      RemovedAllIff(nodes, shard);
      nodes := map h | h in nodes && nodes[h] != shard :: nodes[h];
      Rebuild();
    }

    /** Collect the keys of the map and sort them. */
    method Rebuild()
      modifies this`sortedHashes
      ensures Valid()
    {
      sortedHashes := [];
      var rest := nodes.Keys;
      while rest != {}
        invariant rest <= nodes.Keys && Sorts(sortedHashes, nodes.Keys - rest)
        decreases |rest|
      {
        var h :| h in rest;
        var _, index := BinarySearch(sortedHashes, h);
        InsertKeepsSorted(sortedHashes, nodes.Keys - rest, index, h);
        sortedHashes := sortedHashes[..index] + [h] + sortedHashes[index..];
        assert nodes.Keys - rest + {h} == nodes.Keys - (rest - {h});
        rest := rest - {h};
      }
    }
  }

  lemma RemovedAllIff(nodes: Nodes, shard: nat)
    ensures Removed(nodes, shard) == map[] <==> forall h :: h in nodes ==> nodes[h] == shard
  {
    if h :| h in nodes && nodes[h] != shard {
      assert h in Removed(nodes, shard);
    }
  }

  lemma InsertKeepsSorted(s: seq<u64>, hashes: set<u64>, index: nat, h: u64)
    requires Sorts(s, hashes) && h !in hashes && index <= |s|
    requires (forall i :: 0 <= i < index ==> s[i] < h) && (forall i :: index <= i < |s| ==> s[i] > h)
    ensures Sorts(s[..index] + [h] + s[index..], hashes + {h})
  {
    var t := s[..index] + [h] + s[index..];
    assert forall i :: 0 <= i < |t| ==> t[i] == if i < index then s[i] else if i == index then h else s[i - 1];
    assert Increasing(t);
    assert s == s[..index] + s[index..];
    forall g ensures g in t <==> g in hashes + {h} {
      assert g in t <==> g in s[..index] || g == h || g in s[index..];
      assert g in s <==> g in s[..index] || g in s[index..];
    }
  }
}
