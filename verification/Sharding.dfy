/** The sharded in-memory index: several hash maps and their key counters that together act as one map. */
module Sharding {
  import opened Bytes
  import opened KeyValue
  import opened Slices

  /** The list collected for a shard, empty if none was. */
  function GroupOf<T>(groups: map<nat, seq<T>>, i: nat): seq<T> {
    if i in groups then groups[i] else []
  }

  // ---- choosing a shard ----

  predicate IsPowerOfTwo(n: nat) {
    n == 1 || (n > 1 && n % 2 == 0 && IsPowerOfTwo(n / 2))
  }

  /** `x & y`. */
  function BitAnd(x: nat, y: nat): nat {
    if x == 0 || y == 0 then 0
    else 2 * BitAnd(x / 2, y / 2) + (if x % 2 == 1 && y % 2 == 1 then 1 else 0)
  }

  /** `shard_for_key` after hashing: a mask for powers of two, otherwise a remainder. */
  function ShardFor(hash: u64, n: nat): nat
    requires n > 0
  {
    if IsPowerOfTwo(n) then BitAnd(hash, n - 1) else hash % n
  }

  /** The remainder of a number by an even one, from the remainder of its half. */
  lemma RemainderByHalves(x: nat, half: nat)
    requires half > 0
    ensures x % (2 * half) == 2 * (x / 2 % half) + x % 2
  {
    var q := x / 2;
    var s, t := q % half, q / half;
    var th := t * half;
    DoubleProduct(t, half);
    assert q == th + s;
    assert x == 2 * th + (2 * s + x % 2);
    Quotient(x, 2 * half, t, 2 * s + x % 2);
  }

  lemma DoubleProduct(t: int, half: int)
    ensures t * (2 * half) == 2 * (t * half)
  {
  }

  lemma {:induction false} MaskIsModulo(x: nat, n: nat)
    requires IsPowerOfTwo(n)
    ensures BitAnd(x, n - 1) == x % n
    decreases n
  {
    if n > 1 {
      var half := n / 2;
      MaskIsModulo(x / 2, half);
      RemainderByHalves(x, half);
      MaskStep(x, n);
    } else {
      assert x % 1 == 0;
    }
  }

  lemma MaskStep(x: nat, n: nat)
    requires n > 1 && n % 2 == 0
    ensures BitAnd(x, n - 1) == 2 * BitAnd(x / 2, n / 2 - 1) + x % 2
  {
    assert (n - 1) / 2 == n / 2 - 1 && (n - 1) % 2 == 1;
  }

  /** Mask and remainder agree, and stay in range. */
  lemma ShardForIsModulo(hash: u64, n: nat)
    requires n > 0
    ensures ShardFor(hash, n) == hash % n < n
  {
    if IsPowerOfTwo(n) {
      MaskIsModulo(hash, n);
    }
  }

  class ShardedIndex {
    /** SipHash under this index's random seed. */
    const hash: bytes -> u64
    const n: nat
    const metrics: bool
    var data: seq<Store>
    var keyCount: seq<nat>
    /** The one map the shards stand for. */
    ghost var contents: Store

    ghost function Route(): Router {
      k => if n > 0 then ShardFor(hash(k), n) else 0
    }

    function ShardForKey(key: bytes): (sid: nat)
      requires n > 0
      ensures sid == Route()(key) == hash(key) % n < n
    {
      ShardForIsModulo(hash(key), n);
      ShardFor(hash(key), n)
    }

    /** Every enabled counter is the size of its shard. */
    ghost predicate Counted()
      reads this`data, this`keyCount
    {
      && n > 0 && |data| == |keyCount| == n
      && (metrics ==> forall i :: 0 <= i < n ==> keyCount[i] == |data[i]|)
    }

    /** Every shard holds exactly the keys of `m` routed to it. */
    ghost predicate Holds(m: Store)
      reads this`data
    {
      |data| == n && forall i :: 0 <= i < n ==> data[i] == Slice(m, Route(), i)
    }

    ghost predicate Valid()
      reads this
    {
      Counted() && Holds(contents)
    }

    constructor (hash: bytes -> u64, n: nat, metrics: bool)
      requires n > 0
      ensures Valid() && contents == map[]
      ensures this.hash == hash && this.n == n && this.metrics == metrics
    {
      this.hash, this.n, this.metrics := hash, n, metrics;
      data, keyCount := seq(n, i => map[]), seq(n, i => 0);
      contents := map[];
      new;
      assert forall i :: 0 <= i < n ==> Slice(map[], Route(), i) == map[];
    }

    /** A stored key lives in the shard its hash chooses, and in no other. */
    lemma WhereKeysLive(key: bytes, i: nat)
      requires Valid() && i < n
      ensures key in data[i] <==> key in contents && i == hash(key) % n
      ensures key in data[i] ==> data[i][key] == contents[key]
    {
      ShardForIsModulo(hash(key), n);
      hide ShardFor;
    }

    // ---- one shard ----

    method PutInShard(sid: nat, key: bytes, value: bytes) returns (prev: Option<bytes>)
      requires Counted() && sid < n
      modifies this`data, this`keyCount
      ensures Counted()
      ensures data == old(data)[sid := old(data)[sid][key := value]]
      ensures prev == Lookup(old(data)[sid], key)
    {
      var shard := data[sid];
      prev := Lookup(shard, key);
      data := data[sid := shard[key := value]];
      if prev.None? && metrics {
        keyCount := keyCount[sid := keyCount[sid] + 1];
      }
      assert |shard[key := value]| == |shard| + (if key in shard then 0 else 1);
    }

    /** The decrement never underflows: a key that was there was counted. */
    method RemoveFromShard(sid: nat, key: bytes) returns (prev: Option<bytes>)
      requires Counted() && sid < n
      modifies this`data, this`keyCount
      ensures Counted()
      ensures data == old(data)[sid := old(data)[sid] - {key}]
      ensures prev == Lookup(old(data)[sid], key)
    {
      var shard := data[sid];
      prev := Lookup(shard, key);
      if prev.Some? {
        data := data[sid := shard - {key}];
        assert |shard - {key}| == |shard| - 1 by {
          assert (shard - {key}).Keys == shard.Keys - {key};
        }
        if metrics {
          assert keyCount[sid] > 0;
          keyCount := keyCount[sid := keyCount[sid] - 1];
        }
      } else {
        assert shard - {key} == shard;
      }
    }

    // ---- single keys ----

    /** `insert`. */
    method Insert(key: bytes, value: bytes) returns (prev: Option<bytes>)
      requires Valid()
      modifies this
      ensures Valid() && contents == old(contents)[key := value]
      ensures prev == Lookup(old(contents), key)
    {
      var sid := ShardForKey(key);
      prev := PutInShard(sid, key, value);
      contents := contents[key := value];
      forall i | 0 <= i < n ensures data[i] == Slice(contents, Route(), i) {
        SlicePut(old(contents), Route(), i, key, value);
      }
    }

    /** `remove`. */
    method Remove(key: bytes) returns (existed: bool)
      requires Valid()
      modifies this
      ensures Valid() && contents == old(contents) - {key}
      ensures existed == (key in old(contents))
    {
      var sid := ShardForKey(key);
      var prev := RemoveFromShard(sid, key);
      existed := prev.Some?;
      contents := contents - {key};
      forall i | 0 <= i < n ensures data[i] == Slice(contents, Route(), i) {
        SliceRemove(old(contents), Route(), i, key);
      }
    }

    /** `get`. */
    method Get(key: bytes) returns (value: Option<bytes>)
      requires Valid()
      ensures value == Lookup(contents, key)
    {
      value := Lookup(data[ShardForKey(key)], key);
    }

    /**
     `global_stats().total_keys`: with metrics on the counters of all shards add up to the number of keys,
     without them nothing is counted.
     */
    method TotalKeys() returns (total: nat)
      requires Valid()
      ensures total == if metrics then |contents| else 0
    {
      hide ShardedIndex.Route; hide Slice;
      total := 0;
      if metrics {
        for i := 0 to n
          invariant total == SliceSizes(contents, Route(), i)
        {
          total := total + keyCount[i];
        }
        AllRouted();
        SlicesCover(contents, Route(), n);
      }
    }

    lemma CountedShards()
      requires Counted()
      ensures n > 0 && |data| == n
    {
    }

    lemma AllRouted()
      requires n > 0
      ensures forall k :: Route()(k) < n
    {
      forall k ensures Route()(k) < n {
        ShardForIsModulo(hash(k), n);
      }
    }

    /** The shards of `flushdb`: every map cleared, its size taken off its counter. */
    method Clear()
      requires Valid()
      modifies this
      ensures Valid() && contents == map[]
    {
      for i := 0 to n
        invariant Counted() && forall j :: 0 <= j < i ==> data[j] == map[]
      {
        var oldCount := |data[i]|;
        data := data[i := map[]];
        if metrics {
          keyCount := keyCount[i := keyCount[i] - oldCount];
        }
      }
      contents := map[];
      assert forall i :: 0 <= i < n ==> Slice(map[], Route(), i) == map[];
    }

    // ---- many keys ----

    /** `mset`: split by shard, apply shard by shard in ascending order; the outcome is the left-to-right fold. */
    method MSet(entries: seq<Entry>)
      requires Valid()
      modifies this
      ensures Valid() && contents == PutAll(old(contents), entries)
    {
      var groups := GroupEntries(entries);
      CountedShards();
      hide *;
      ghost var m := contents;
      HoldsSlices(m);
      for sid := 0 to n
        invariant Counted() && |data| == n && contents == m
        invariant forall i :: 0 <= i < sid ==> data[i] == Slice(PutAll(m, entries), Route(), i)
        invariant forall i :: sid <= i < n ==> data[i] == Slice(m, Route(), i)
      {
        ApplyGroup(sid, GroupOf(groups, sid), entries, m);
      }
      contents := PutAll(contents, entries);
      HoldsSlices(contents);
    }

    lemma HoldsSlices(m: Store)
      ensures Holds(m) <==> |data| == n && forall i :: 0 <= i < n ==> data[i] == Slice(m, Route(), i)
      ensures Valid() <==> Counted() && Holds(contents)
    {
    }

    method ApplyGroup(sid: nat, group: seq<Entry>, ghost entries: seq<Entry>, ghost m: Store)
      requires Counted() && sid < n && |data| == n
      requires group == Only(entries, Route(), sid) && data[sid] == Slice(m, Route(), sid)
      modifies this`data, this`keyCount
      ensures Counted() && |data| == n
      ensures data == old(data)[sid := Slice(PutAll(m, entries), Route(), sid)]
    {
      hide *;
      GroupedPut(m, entries, Route(), sid);
      if group != [] {
        PutGroup(sid, group);
      } else {
        PutNone(data[sid]);
      }
    }

    method GroupEntries(entries: seq<Entry>) returns (groups: map<nat, seq<Entry>>)
      requires n > 0
      ensures forall i :: GroupOf(groups, i) == Only(entries, Route(), i)
    {
      groups := map[];
      ghost var route := Route();
      assert entries[..0] == [];
      for j := 0 to |entries|
        invariant forall i :: GroupOf(groups, i) == Only(entries[..j], route, i)
      {
        var sid := ShardForKey(entries[j].0);
        assert entries[..j + 1] == entries[..j] + [entries[j]];
        forall i ensures Only(entries[..j + 1], route, i)
                      == if route(entries[j].0) == i then Only(entries[..j], route, i) + [entries[j]]
                          else Only(entries[..j], route, i)
        {
          OnlySnoc(entries[..j], entries[j], route, i);
        }
        ghost var before := groups;
        groups := groups[sid := GroupOf(groups, sid) + [entries[j]]];
        assert forall i ::
            GroupOf(groups, i) == if i == sid then GroupOf(before, i) + [entries[j]] else GroupOf(before, i);
      }
      assert entries[..|entries|] == entries;
    }

    method PutGroup(sid: nat, group: seq<Entry>)
      requires Counted() && sid < n
      modifies this`data, this`keyCount
      ensures Counted()
      ensures data == old(data)[sid := PutAll(old(data)[sid], group)]
    {
      assert group[..0] == [];
      for j := 0 to |group|
        invariant Counted()
        invariant data == old(data)[sid := PutAll(old(data)[sid], group[..j])]
      {
        assert group[..j + 1] == group[..j] + [group[j]];
        PutAllSnoc(old(data)[sid], group[..j], group[j]);
        var _ := PutInShard(sid, group[j].0, group[j].1);
      }
      assert group[..|group|] == group;
    }

    /** `mget`: one answer per requested key, in caller order, duplicates included. */
    method MGet(keys: seq<bytes>) returns (results: seq<Option<bytes>>)
      requires Valid()
      ensures |results| == |keys|
      ensures forall j :: 0 <= j < |keys| ==> results[j] == Lookup(contents, keys[j])
    {
      hide Positions; hide ShardedIndex.Route;
      var groups := GroupPositions(keys);
      ghost var route := Route();
      results := seq(|keys|, _ => None);
      for sid := 0 to n
        invariant |results| == |keys|
        invariant forall j :: 0 <= j < |keys| && route(keys[j]) < sid ==> results[j] == Lookup(contents, keys[j])
      {
        PositionsExact(keys, route, sid);
        results := Fill(data[sid], keys, GroupOf(groups, sid), results);
      }
      AllRouted();
    }

    /** Answers from one shard go to the positions that asked for them. */
    static method Fill(shard: Store, keys: seq<bytes>, list: seq<nat>, results: seq<Option<bytes>>)
      returns (r: seq<Option<bytes>>)
      requires |results| == |keys| && forall p :: p in list ==> p < |keys|
      ensures |r| == |keys|
      ensures forall p :: 0 <= p < |keys| ==> r[p] == if p in list then Lookup(shard, keys[p]) else results[p]
    {
      r := results;
      for t := 0 to |list|
        invariant |r| == |keys|
        invariant forall p :: 0 <= p < |keys| ==> r[p] == if p in list[..t] then Lookup(shard, keys[p]) else results[p]
      {
        assert list[..t + 1] == list[..t] + [list[t]] && list[t] in list;
        r := r[list[t] := Lookup(shard, keys[list[t]])];
      }
      assert list[..|list|] == list;
    }

    method GroupPositions(keys: seq<bytes>) returns (groups: map<nat, seq<nat>>)
      requires n > 0
      ensures forall i :: GroupOf(groups, i) == Positions(keys, Route(), i)
      ensures forall i :: i in groups ==> i < n
    {
      groups := map[];
      ghost var route := Route();
      assert keys[..0] == [];
      for j := 0 to |keys|
        invariant forall i :: GroupOf(groups, i) == Positions(keys[..j], route, i)
        invariant forall i :: i in groups ==> i < n
      {
        var sid := ShardForKey(keys[j]);
        forall i ensures Positions(keys[..j + 1], route, i)
                      == if route(keys[j]) == i then Positions(keys[..j], route, i) + [j]
                          else Positions(keys[..j], route, i)
        {
          PositionsSnoc(keys, j, route, i);
        }
        ghost var before := groups;
        groups := groups[sid := GroupOf(groups, sid) + [j]];
        assert forall i :: GroupOf(groups, i) == if i == sid then GroupOf(before, i) + [j] else GroupOf(before, i);
      }
      assert keys[..|keys|] == keys;
    }

    /**
     The shard writes of the persistent store's `mset`: the groups of a deduplicated map, in whatever order
     the hash map yields them.
     */
    method OverlayGroups(keys: seq<bytes>, kv: Store)
      requires Valid() && forall k :: k in kv <==> k in keys
      modifies this
      ensures Valid() && contents == old(contents) + kv
    {
      var groups := GroupPositions(keys);
      CountedShards();
      HoldsSlices(contents);
      hide *;
      OverlayEach(groups, keys, kv, contents);
      contents := contents + kv;
      HoldsSlices(contents);
    }

    method OverlayEach(groups: map<nat, seq<nat>>, keys: seq<bytes>, kv: Store, ghost m: Store)
      requires Counted() && |data| == n && forall k :: k in kv <==> k in keys
      requires forall i :: GroupOf(groups, i) == Positions(keys, Route(), i)
      requires forall i :: i in groups ==> i < n
      requires forall i :: 0 <= i < n ==> data[i] == Slice(m, Route(), i)
      modifies this`data, this`keyCount
      ensures Counted() && |data| == n
      ensures forall i :: 0 <= i < n ==> data[i] == Slice(m + kv, Route(), i)
    {
      hide *;
      var todo: set<nat> := groups.Keys;
      forall i | 0 <= i < n && i !in groups ensures data[i] == Slice(m + kv, Route(), i) {
        Ungrouped(groups, keys, kv, m, i);
      }
      while todo != {}
        invariant Counted() && |data| == n
        invariant forall i: nat :: i in todo ==> i < n && data[i] == Slice(m, Route(), i)
        invariant forall i :: 0 <= i < n && i !in todo ==> data[i] == Slice(m + kv, Route(), i)
        decreases |todo|
      {
        var sid :| sid in todo;
        OverlayGroup(sid, GroupOf(groups, sid), keys, kv, m);
        todo := todo - {sid};
      }
    }

    /** A shard no key was grouped under is not affected. */
    lemma Ungrouped(groups: map<nat, seq<nat>>, keys: seq<bytes>, kv: Store, m: Store, i: nat)
      requires i !in groups && GroupOf(groups, i) == Positions(keys, Route(), i)
      requires forall k :: k in kv <==> k in keys
      ensures Slice(m, Route(), i) == Slice(m + kv, Route(), i)
    {
      hide Positions; hide Slice; hide ShardedIndex.Route; hide PutAll;
      GroupOverlay(m, keys, kv, Route(), i);
      assert Pairs(keys, [], kv) == [];
      PutNone(Slice(m, Route(), i));
    }

    method OverlayGroup(sid: nat, list: seq<nat>, keys: seq<bytes>, kv: Store, ghost m: Store)
      requires Counted() && sid < n && |data| == n && forall k :: k in kv <==> k in keys
      requires list == Positions(keys, Route(), sid) && data[sid] == Slice(m, Route(), sid)
      modifies this`data, this`keyCount
      ensures Counted() && |data| == n
      ensures data == old(data)[sid := Slice(m + kv, Route(), sid)]
    {
      hide *;
      PositionsExact(keys, Route(), sid);
      GroupOverlay(m, keys, kv, Route(), sid);
      PutGroup(sid, Pairs(keys, list, kv));
    }

    // ---- moving a key ----

    ghost function Renamed(m: Store, from: bytes, to: bytes): Store {
      if from in m then Moved(m, from, to) else m
    }

    lemma RenamedIs(m: Store, from: bytes, to: bytes)
      ensures Renamed(m, from, to) == if from in m then Moved(m, from, to) else m
    {
    }

    lemma RenamedSlices(m: Store, from: bytes, to: bytes, i: nat)
      requires from in m
      ensures var route := Route();
              var removed := if route(from) == i then Slice(m, route, i) - {from} else Slice(m, route, i);
              Slice(Renamed(m, from, to), route, i) == if route(to) == i then removed[to := m[from]] else removed
    {
      hide Slice; hide ShardedIndex.Route;
      SliceRemove(m, Route(), i, from);
      SlicePut(m - {from}, Route(), i, to, m[from]);
    }

    /** The shard updates of `rename`. */
    method Rename(from: bytes, to: bytes) returns (moved: Option<bytes>)
      requires Valid()
      modifies this
      ensures Valid() && contents == Renamed(old(contents), from, to)
      ensures moved == Lookup(old(contents), from)
    {
      var a, b := ShardForKey(from), ShardForKey(to);
      if a == b {
        moved := MoveWithin(a, from, to);
      } else {
        moved := MoveAcross(a, b, from, to);
      }
      contents := Renamed(contents, from, to);
      AdoptRename(old(contents), old(data), from, to);
    }

    /** The shard updates of `renamenx`; `None` if the source key is missing. */
    method RenameNx(from: bytes, to: bytes) returns (r: Option<bool>)
      requires Valid()
      modifies this
      ensures Valid()
      ensures contents == if to in old(contents) then old(contents) else Renamed(old(contents), from, to)
      ensures r == if from !in old(contents) then None else Some(to !in old(contents))
    {
      var a, b := ShardForKey(from), ShardForKey(to);
      if a == b {
        var shard := data[a];
        if from !in shard { return None; }
        if to in shard { return Some(false); }
        data := data[a := (shard - {from})[to := shard[from]]];
        assert |(shard - {from})[to := shard[from]]| == |shard| by {
          assert (shard - {from}).Keys == shard.Keys - {from};
        }
      } else {
        if from !in data[a] { return None; }
        if to in data[b] { return Some(false); }
        var _ := MoveAcross(a, b, from, to);
      }
      contents := Renamed(contents, from, to);
      AdoptRename(old(contents), old(data), from, to);
      r := Some(true);
    }

    method MoveWithin(a: nat, from: bytes, to: bytes) returns (moved: Option<bytes>)
      requires Counted() && a < n
      modifies this`data, this`keyCount
      ensures Counted()
      ensures moved == Lookup(old(data)[a], from)
      ensures data == if moved.None? then old(data)
                      else old(data)[a := (old(data)[a] - {from})[to := moved.value]]
    {
      moved := RemoveFromShard(a, from);
      if moved.Some? {
        var _ := PutInShard(a, to, moved.value);
      } else {
        assert old(data)[a] - {from} == old(data)[a];
      }
    }

    /** `with_two_shards_write`: both shards, locked in id order, the closure given them as source and target. */
    method MoveAcross(a: nat, b: nat, from: bytes, to: bytes) returns (moved: Option<bytes>)
      requires Counted() && a < n && b < n && a != b
      modifies this`data, this`keyCount
      ensures Counted()
      ensures moved == Lookup(old(data)[a], from)
      ensures data == if moved.None? then old(data)
                      else old(data)[a := old(data)[a] - {from}][b := old(data)[b][to := moved.value]]
    {
      var first, second := if a <= b then a else b, if a <= b then b else a;
      var g1, g2 := data[first], data[second];
      var fromMap, toMap := if a == first then g1 else g2, if a == first then g2 else g1;
      if from !in fromMap {
        return None;
      }
      var value := fromMap[from];
      moved := RemoveFromShard(a, from);
      var _ := PutInShard(b, to, value);
    }

    lemma AdoptRename(m: Store, before: seq<Store>, from: bytes, to: bytes)
      requires n > 0 && |before| == |data| == n && forall i :: 0 <= i < n ==> before[i] == Slice(m, Route(), i)
      requires var a, b := Route()(from), Route()(to);
               && a < n && b < n
               && data == if from !in before[a] then before
                          else if a == b then before[a := (before[a] - {from})[to := before[a][from]]]
                          else before[a := before[a] - {from}][b := before[b][to := before[a][from]]]
      ensures Holds(Renamed(m, from, to))
    {
      hide ShardedIndex.Route; hide ShardFor;
      if from in m {
        forall i | 0 <= i < n ensures data[i] == Slice(Renamed(m, from, to), Route(), i) {
          RenamedSlices(m, from, to, i);
        }
      }
    }
  }
}
