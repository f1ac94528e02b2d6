/**
 The cluster store: several in-memory stores behind the slot manager, with the rebalancer running beside the
 clients.
 */
module Cluster {
  import opened Bytes
  import opened KeyValue
  import opened Slices
  import opened Sharding
  import opened Slots
  import opened Commands

  // ---- the reference: one map, and a routing that only decides which renames are refused ----

  /**
   As one map, except that renames across shards are refused and an occupied target is reported before a
   missing source.
   */
  function Step(m: Store, c: Command, route: Router): (Store, Reply) {
    if (c.CmdRename? || c.CmdRenameNx?) && route(c.from) != route(c.to) then (m, WrongShard)
    else if c.CmdRenameNx? && c.to in m then (m, Flag(false))
    else OneMap(m, c)
  }

  /**
   What can happen next: a client command or a flush, new aggregated load figures, the rebalancer planning,
   it starting the next planned migration, or someone rolling a migration back.
   */
  datatype Event =
    | Client(c: Command)
    | Flush
    | Aggregate(ops: map<nat, nat>, access: map<SlotId, nat>)
    | Plan
    | StartNext
    | Rollback(slot: SlotId)

  /** The reference does not see migrations at all. */
  function Run(m: Store, events: seq<Event>, route: Router): (Store, seq<Reply>)
    decreases |events|
  {
    if events == [] then (m, [])
    else if events[0].Client? || events[0].Flush? then
      var (m', r) := if events[0].Flush? then (map[], Done) else Step(m, events[0].c, route);
      var (m'', rs) := Run(m', events[1..], route);
      (m'', [r] + rs)
    else Run(m, events[1..], route)
  }

  /** The load counters: accesses of each slot, operations of each shard. */
  datatype Load = Load(access: seq<nat>, ops: seq<nat>)

  /** All counters at zero. */
  function Idle(n: nat): Load {
    Load(seq(TOTAL_SLOTS, _ => 0), seq(n, _ => 0))
  }

  /** The keys of a batch, in order. */
  function KeysOf(entries: seq<Entry>): (r: seq<bytes>)
    ensures |r| == |entries| && forall i :: 0 <= i < |r| ==> r[i] == entries[i].0
  {
    seq(|entries|, i requires 0 <= i < |entries| => entries[i].0)
  }

  /** The keys a command names, each of which counts as load, even if the command is refused. */
  function Named(c: Command): seq<bytes> {
    match c
    case CmdSet(key, _) => [key]
    case CmdGet(key) => [key]
    case CmdDel(key) => [key]
    case CmdMSet(entries) => KeysOf(entries)
    case CmdMGet(keys) => keys
    case CmdRename(from, to) => [from, to]
    case CmdRenameNx(from, to) => [from, to]
    case CmdDbSize => []
  }

  /** The keys named by client commands since the last flush. */
  function Recent(events: seq<Event>): seq<bytes>
    decreases |events|
  {
    if events == [] then []
    else
      var (init, last) := (events[..|events| - 1], events[|events| - 1]);
      match last
      case Flush => []
      case Client(c) => Recent(init) + Named(c)
      case _ => Recent(init)
  }

  /** The shard of a key when slots are at these homes. */
  function HomeOf(home: seq<nat>, lossy: bytes -> bytes): Router {
    k => if |home| == TOTAL_SLOTS then home[SlotOf(lossy(k))] else 0
  }

  class InClusterStore {
    const mgr: SlotManager
    /** `from_utf8_lossy` of a key. */
    const lossy: bytes -> bytes
    const n: nat
    var shards: seq<Store>
    var totalOperations: nat
    var crossShardOperations: nat
    /** Migrations the rebalancer has planned and not yet started. */
    var plan: seq<Migration>
    /** The one map the cluster stands for, and the shard that holds the keys of each slot. */
    ghost var contents: Store
    ghost var home: seq<nat>

    ghost function Route(): Router
      reads this`home
    {
      HomeOf(home, lossy)
    }

    /** Every slot is served by the shard that holds its keys. */
    ghost predicate Routed()
      reads this`home, mgr`slots
    {
      && |home| == TOTAL_SLOTS == |mgr.slots| && n > 0
      && forall s :: 0 <= s < TOTAL_SLOTS ==> Owner(mgr.slots[s]) == home[s] < n
    }

    ghost predicate Holds(m: Store)
      reads this`shards, this`home
    {
      |shards| == n && forall i :: 0 <= i < n ==> shards[i] == Slice(m, Route(), i)
    }

    /** Planned migrations name home shards as their sources. */
    ghost predicate PlanSound()
      reads this`plan, this`home
    {
      forall i :: 0 <= i < |plan| ==> plan[i].slot < |home| && plan[i].from == home[plan[i].slot]
    }

    ghost predicate Valid()
      reads this, mgr
    {
      mgr.Valid() && mgr.shardCount == n && Routed() && Holds(contents) && PlanSound()
    }

    /** `InClusterStore::new` over `n` empty stores. */
    constructor (n: nat, lossy: bytes -> bytes)
      requires n > 0
      ensures Valid() && contents == map[] && fresh(mgr) && this.n == n && this.lossy == lossy
      ensures mgr.active == map[] && plan == []
      ensures forall s :: 0 <= s < TOTAL_SLOTS ==> home[s] == s % n
    {
      var manager := new SlotManager(n);
      mgr := manager;
      this.n, this.lossy := n, lossy;
      shards := seq(n, _ => map[]);
      totalOperations, crossShardOperations, plan := 0, 0, [];
      contents := map[];
      home := seq(TOTAL_SLOTS, s => s % n);
      new;
      assert forall i :: 0 <= i < n ==> Slice(map[], Route(), i) == map[];
    }

    /** Routing a key through the slot table gives its home shard, whatever is migrating. */
    lemma RoutesHome(key: bytes)
      requires Routed()
      ensures mgr.KeyShard(lossy(key)) == Route()(key) < n
    {
      hide SlotOf;
    }

    /** A stored key lives in the shard that serves its slot, and in no other. */
    lemma WhereKeysLive(key: bytes, i: nat)
      requires Valid() && i < n
      ensures |mgr.slots| == TOTAL_SLOTS && |shards| == n
      ensures key in shards[i] <==> key in contents && i == Owner(mgr.slots[SlotOf(lossy(key))])
      ensures key in shards[i] ==> shards[i][key] == contents[key]
    {
      hide SlotOf; hide SlotManager.Valid;
      RoutesHome(key);
    }

    lemma HomeShard(key: bytes)
      requires Valid()
      ensures mgr.KeyShard(lossy(key)) == Route()(key) < n
    {
      hide SlotManager.Valid; hide Slice;
      RoutesHome(key);
    }

    // ---- load ----

    ghost function SlotRoute(): Router {
      var f := lossy;
      k => SlotOf(f(k))
    }

    /** Between two readings of the load exactly these keys were counted, for their slots and for their shards. */
    ghost predicate Noted(before: Load, after: Load, keys: seq<bytes>)
      reads this`home
    {
      Grown(before.access, after.access, keys, SlotRoute()) && Grown(before.ops, after.ops, keys, Route())
    }

    ghost function LoadNow(): Load
      reads mgr`slotAccess, mgr`shardOps
    {
      Load(mgr.slotAccess, mgr.shardOps)
    }

    /** One operation on a key counted as load. */
    method Note(key: bytes)
      requires Valid()
      modifies mgr`slotAccess, mgr`shardOps
      ensures Valid()
      ensures Noted(old(LoadNow()), LoadNow(), [key])
    {
      hide Slice; hide InClusterStore.Route; hide SlotOf; hide Grown;
      RoutesHome(key);
      GrownOne(mgr.slotAccess, key, SlotRoute());
      GrownOne(mgr.shardOps, key, Route());
      mgr.RecordOperation(lossy(key));
    }

    lemma NotedNone(load: Load)
      ensures Noted(load, load, [])
    {
      GrownNone(load.access, SlotRoute());
      GrownNone(load.ops, Route());
    }

    /** Counting some keys and then others is counting them all. */
    lemma NotedThen(a: Load, b: Load, c: Load, keys: seq<bytes>, more: seq<bytes>)
      requires Noted(a, b, keys) && Noted(b, c, more)
      ensures Noted(a, c, keys + more)
    {
      hide Grown; hide SlotOf;
      GrownThen(a.access, b.access, c.access, keys, more, SlotRoute());
      GrownThen(a.ops, b.ops, c.ops, keys, more, Route());
    }

    /** `record_operation`. */
    method Record(key: bytes)
      requires Valid()
      modifies this`totalOperations, mgr`slotAccess, mgr`shardOps
      ensures Valid() && totalOperations == old(totalOperations) + 1
      ensures Noted(old(LoadNow()), LoadNow(), [key])
    {
      hide SlotManager.Valid; hide Slice; hide InClusterStore.Route; hide InClusterStore.Noted;
      Note(key);
      totalOperations := totalOperations + 1;
    }

    // ---- single keys ----

    method Set(key: bytes, value: bytes)
      requires Valid()
      modifies this`shards, this`contents, this`totalOperations, mgr`slotAccess, mgr`shardOps
      ensures Valid() && contents == old(contents)[key := value]
      ensures totalOperations == old(totalOperations) + 1
      ensures Noted(old(LoadNow()), LoadNow(), [key])
    {
      hide SlotManager.Valid; hide Slice; hide InClusterStore.Route; hide InClusterStore.Noted;
      Record(key);
      RoutesHome(key);
      var sid := mgr.GetKeyShard(lossy(key));
      shards := shards[sid := shards[sid][key := value]];
      contents := contents[key := value];
      forall i | 0 <= i < n ensures shards[i] == Slice(contents, Route(), i) {
        SlicePut(old(contents), Route(), i, key, value);
      }
    }

    method Get(key: bytes) returns (value: Option<bytes>)
      requires Valid()
      modifies this`totalOperations, mgr`slotAccess, mgr`shardOps
      ensures Valid()
      ensures value == Lookup(contents, key)
      ensures totalOperations == old(totalOperations) + 1
      ensures Noted(old(LoadNow()), LoadNow(), [key])
    {
      hide SlotManager.Valid; hide InClusterStore.Route; hide InClusterStore.Noted;
      Record(key);
      RoutesHome(key);
      var sid := mgr.GetKeyShard(lossy(key));
      value := Lookup(shards[sid], key);
    }

    method Del(key: bytes) returns (existed: bool)
      requires Valid()
      modifies this`shards, this`contents, this`totalOperations, mgr`slotAccess, mgr`shardOps
      ensures Valid() && contents == old(contents) - {key}
      ensures existed == (key in old(contents))
      ensures totalOperations == old(totalOperations) + 1
      ensures Noted(old(LoadNow()), LoadNow(), [key])
    {
      hide SlotManager.Valid; hide InClusterStore.Route; hide InClusterStore.Noted;
      Record(key);
      RoutesHome(key);
      var sid := mgr.GetKeyShard(lossy(key));
      existed := key in shards[sid];
      shards := shards[sid := shards[sid] - {key}];
      contents := contents - {key};
      forall i | 0 <= i < n ensures shards[i] == Slice(contents, Route(), i) {
        SliceRemove(old(contents), Route(), i, key);
      }
    }

    // ---- many keys ----

    /** The shards a batch touches. */
    ghost function Spread(entries: seq<Entry>): set<nat>
      reads this`home
    {
      set i: nat | 0 <= i < n && Only(entries, Route(), i) != []
    }

    ghost function KeySpread(keys: seq<bytes>): set<nat>
      reads this`home
    {
      set i: nat | 0 <= i < n && Positions(keys, Route(), i) != []
    }

    /** `mset`: one group per shard, written in whatever order the hash map yields them. */
    method MSet(entries: seq<Entry>)
      requires Valid()
      modifies this`shards, this`contents, this`crossShardOperations, mgr`slotAccess, mgr`shardOps
      ensures Valid() && contents == PutAll(old(contents), entries)
      ensures Noted(old(LoadNow()), LoadNow(), KeysOf(entries))
      ensures crossShardOperations == old(crossShardOperations) + (if |Spread(entries)| > 1 then 1 else 0)
    {
      hide SlotManager.Valid; hide Slice; hide InClusterStore.Route; hide PutAll; hide Only; hide InClusterStore.Noted;
      if entries == [] {
        PutNone(contents);
        NotedNone(LoadNow());
        OnlyNone(Route());
        assert Spread(entries) == {};
        return;
      }
      var groups := GroupEntries(entries);
      WriteGroups(groups, entries, contents);
      assert groups.Keys == Spread(entries) by {
        forall i: nat ensures i in groups <==> i < n && Only(entries, Route(), i) != [] {
          assert GroupOf(groups, i) == Only(entries, Route(), i);
        }
      }
      if |groups.Keys| > 1 {
        crossShardOperations := crossShardOperations + 1;
      }
      contents := PutAll(contents, entries);
    }

    method GroupEntries(entries: seq<Entry>) returns (groups: map<nat, seq<Entry>>)
      requires Valid()
      modifies mgr`slotAccess, mgr`shardOps
      ensures Valid()
      ensures Noted(old(LoadNow()), LoadNow(), KeysOf(entries))
      ensures forall i :: GroupOf(groups, i) == Only(entries, Route(), i)
      ensures forall i :: i in groups ==> i < n && groups[i] != []
    {
      hide InClusterStore.Valid; hide InClusterStore.Noted; hide InClusterStore.Route; hide SlotManager.KeyShard;
      hide Only; hide Positions;
      groups := map[];
      NotedNone(LoadNow());
      OnlyNone(Route());
      assert entries[..0] == [];
      for j := 0 to |entries|
        invariant Valid()
        invariant Noted(old(LoadNow()), LoadNow(), KeysOf(entries[..j]))
        invariant forall i :: GroupOf(groups, i) == Only(entries[..j], Route(), i)
        invariant forall i :: i in groups ==> i < n && groups[i] != []
      {
        var key := entries[j].0;
        HomeShard(key);
        var sid := mgr.GetKeyShard(lossy(key));
        assert entries[..j + 1] == entries[..j] + [entries[j]];
        forall i ensures Only(entries[..j + 1], Route(), i)
                      == if sid == i then Only(entries[..j], Route(), i) + [entries[j]]
                          else Only(entries[..j], Route(), i)
        {
          OnlySnoc(entries[..j], entries[j], Route(), i);
        }
        ghost var before := groups;
        groups := groups[sid := GroupOf(groups, sid) + [entries[j]]];
        GroupGrows(before, groups, sid, entries[j]);
        ghost var load := LoadNow();
        Note(key);
        NotedThen(old(LoadNow()), load, LoadNow(), KeysOf(entries[..j]), [key]);
        assert KeysOf(entries[..j + 1]) == KeysOf(entries[..j]) + [key];
      }
      assert entries[..|entries|] == entries;
    }

    method WriteGroups(groups: map<nat, seq<Entry>>, ghost entries: seq<Entry>, ghost m: Store)
      requires Holds(m)
      requires forall i :: GroupOf(groups, i) == Only(entries, Route(), i)
      requires forall i :: i in groups ==> i < n
      modifies this`shards
      ensures Holds(PutAll(m, entries))
    {
      hide Slice; hide InClusterStore.Route; hide PutAll; hide Only;
      var todo: set<nat> := groups.Keys;
      forall i | 0 <= i < n && i !in groups ensures shards[i] == Slice(PutAll(m, entries), Route(), i) {
        GroupedPut(m, entries, Route(), i);
        PutNone(shards[i]);
      }
      while todo != {}
        invariant |shards| == n
        invariant forall i: nat :: i in todo ==> i < n && i in groups && shards[i] == Slice(m, Route(), i)
        invariant forall i :: 0 <= i < n && i !in todo ==> shards[i] == Slice(PutAll(m, entries), Route(), i)
        decreases |todo|
      {
        var sid :| sid in todo;
        GroupedPut(m, entries, Route(), sid);
        var updated := InsertAll(shards[sid], groups[sid]);
        shards := shards[sid := updated];
        todo := todo - {sid};
      }
    }

    /** `mget`: answers in caller order. */
    method MGet(keys: seq<bytes>) returns (results: seq<Option<bytes>>)
      requires Valid()
      modifies this`crossShardOperations, mgr`slotAccess, mgr`shardOps
      ensures Valid()
      ensures Noted(old(LoadNow()), LoadNow(), keys)
      ensures results == LookupAll(contents, keys)
      ensures crossShardOperations == old(crossShardOperations) + (if |KeySpread(keys)| > 1 then 1 else 0)
    {
      hide SlotManager.Valid; hide Slice; hide InClusterStore.Route; hide Positions; hide InClusterStore.Noted;
      if keys == [] {
        PositionsNone(Route());
        NotedNone(LoadNow());
        assert KeySpread(keys) == {};
        return [];
      }
      var groups := GroupPositions(keys);
      results := ReadGroups(groups, keys);
      assert groups.Keys == KeySpread(keys) by {
        forall i: nat ensures i in groups <==> i < n && Positions(keys, Route(), i) != [] {
          assert GroupOf(groups, i) == Positions(keys, Route(), i);
        }
      }
      if |groups.Keys| > 1 {
        crossShardOperations := crossShardOperations + 1;
      }
    }

    method GroupPositions(keys: seq<bytes>) returns (groups: map<nat, seq<nat>>)
      requires Valid()
      modifies mgr`slotAccess, mgr`shardOps
      ensures Valid()
      ensures Noted(old(LoadNow()), LoadNow(), keys)
      ensures forall i :: GroupOf(groups, i) == Positions(keys, Route(), i)
      ensures forall i :: i in groups ==> i < n && groups[i] != []
    {
      hide InClusterStore.Valid; hide InClusterStore.Noted; hide InClusterStore.Route; hide SlotManager.KeyShard;
      hide Only; hide Positions;
      groups := map[];
      NotedNone(LoadNow());
      PositionsNone(Route());
      assert keys[..0] == [];
      for j := 0 to |keys|
        invariant Valid()
        invariant Noted(old(LoadNow()), LoadNow(), keys[..j])
        invariant forall i :: GroupOf(groups, i) == Positions(keys[..j], Route(), i)
        invariant forall i :: i in groups ==> i < n && groups[i] != []
      {
        HomeShard(keys[j]);
        var sid := mgr.GetKeyShard(lossy(keys[j]));
        forall i ensures Positions(keys[..j + 1], Route(), i)
                      == if sid == i then Positions(keys[..j], Route(), i) + [j] else Positions(keys[..j], Route(), i)
        {
          PositionsSnoc(keys, j, Route(), i);
        }
        ghost var before := groups;
        groups := groups[sid := GroupOf(groups, sid) + [j]];
        GroupGrows<nat>(before, groups, sid, j);
        ghost var load := LoadNow();
        Note(keys[j]);
        NotedThen(old(LoadNow()), load, LoadNow(), keys[..j], [keys[j]]);
        assert keys[..j + 1] == keys[..j] + [keys[j]];
      }
      assert keys[..|keys|] == keys;
    }

    method ReadGroups(groups: map<nat, seq<nat>>, keys: seq<bytes>) returns (results: seq<Option<bytes>>)
      requires Valid() && forall i :: GroupOf(groups, i) == Positions(keys, Route(), i)
      ensures results == LookupAll(contents, keys)
    {
      hide SlotManager.Valid; hide InClusterStore.Route; hide Positions;
      results := seq(|keys|, _ => None);
      ghost var route := Route();
      var todo: set<nat> := groups.Keys;
      while todo != {}
        invariant |results| == |keys| && todo <= groups.Keys
        invariant forall j :: 0 <= j < |keys| && route(keys[j]) in groups && route(keys[j]) !in todo ==>
                    results[j] == Lookup(contents, keys[j])
        decreases |todo|
      {
        var sid :| sid in todo;
        PositionsExact(keys, route, sid);
        var list := groups[sid];
        assert list == GroupOf(groups, sid);
        if list != [] {
          assert list[0] in list;
          RoutesHome(keys[list[0]]);
          results := ShardedIndex.Fill(shards[sid], keys, list, results);
        }
        todo := todo - {sid};
      }
      forall j | 0 <= j < |keys| ensures results[j] == Lookup(contents, keys[j]) {
        PositionsExact(keys, route, route(keys[j]));
        assert j in GroupOf(groups, route(keys[j]));
      }
    }

    // ---- renaming ----

    method NoteTwo(a: bytes, b: bytes)
      requires Valid()
      modifies mgr`slotAccess, mgr`shardOps
      ensures Valid()
      ensures Noted(old(LoadNow()), LoadNow(), [a, b])
    {
      hide InClusterStore.Valid; hide InClusterStore.Noted;
      ghost var before := LoadNow();
      Note(a);
      ghost var between := LoadNow();
      Note(b);
      NotedThen(before, between, LoadNow(), [a], [b]);
      assert [a] + [b] == [a, b];
    }

    method Rename(from: bytes, to: bytes) returns (r: Reply)
      requires Valid()
      modifies this`shards, this`contents, mgr`slotAccess, mgr`shardOps
      ensures Valid() && (contents, r) == Step(old(contents), CmdRename(from, to), Route())
      ensures r == if Route()(from) != Route()(to) then WrongShard
                   else if from in old(contents) then Done
                   else KeyNotFound
      ensures contents == if r == Done then (old(contents) - {from})[to := old(contents)[from]] else old(contents)
      ensures Noted(old(LoadNow()), LoadNow(), [from, to])
    {
      hide SlotManager.Valid; hide InClusterStore.Route; hide InClusterStore.Noted;
      RoutesHome(from);
      RoutesHome(to);
      var a := mgr.GetKeyShard(lossy(from));
      var b := mgr.GetKeyShard(lossy(to));
      NoteTwo(from, to);
      if a != b {
        return WrongShard;
      }
      if from !in shards[a] {
        return KeyNotFound;
      }
      MoveWithin(a, from, to);
      r := Done;
    }

    method RenameNx(from: bytes, to: bytes) returns (r: Reply)
      requires Valid()
      modifies this`shards, this`contents, mgr`slotAccess, mgr`shardOps
      ensures Valid() && (contents, r) == Step(old(contents), CmdRenameNx(from, to), Route())
      ensures r == if Route()(from) != Route()(to) then WrongShard
                   else if to in old(contents) then Flag(false)
                   else if from in old(contents) then Flag(true)
                   else KeyNotFound
      ensures contents == if r == Flag(true) then (old(contents) - {from})[to := old(contents)[from]] else old(contents)
      ensures Noted(old(LoadNow()), LoadNow(), [from, to])
    {
      hide SlotManager.Valid; hide InClusterStore.Route; hide InClusterStore.Noted;
      RoutesHome(from);
      RoutesHome(to);
      var a := mgr.GetKeyShard(lossy(from));
      var b := mgr.GetKeyShard(lossy(to));
      NoteTwo(from, to);
      if a != b {
        return WrongShard;
      }
      if to in shards[a] {
        return Flag(false);
      }
      if from !in shards[a] {
        return KeyNotFound;
      }
      MoveWithin(a, from, to);
      r := Flag(true);
    }

    /** `InMemoryStore::rename` of a key that is there. */
    method MoveWithin(sid: nat, from: bytes, to: bytes)
      requires Valid() && sid < n && Route()(from) == Route()(to) == sid && from in contents
      modifies this`shards, this`contents
      ensures Valid() && contents == Moved(old(contents), from, to)
    {
      hide SlotManager.Valid; hide InClusterStore.Route;
      ghost var m := contents;
      shards := shards[sid := (shards[sid] - {from})[to := shards[sid][from]]];
      contents := Moved(m, from, to);
      forall i | 0 <= i < n ensures shards[i] == Slice(contents, Route(), i) {
        SliceRemove(m, Route(), i, from);
        SlicePut(m - {from}, Route(), i, to, m[from]);
      }
    }

    // ---- the whole keyspace ----

    method FlushDb()
      requires Valid()
      modifies this`shards, this`contents, mgr`slotAccess, mgr`shardOps, mgr`opsPerSecond, mgr`accessCount
      ensures Valid() && contents == map[] && mgr.opsPerSecond == map[] && mgr.accessCount == map[]
      ensures LoadNow() == Idle(n)
    {
      hide SlotManager.Valid; hide InClusterStore.Route;
      for i := 0 to n
        invariant |shards| == n && PlanSound() && mgr.Valid() && Routed()
        invariant forall j :: 0 <= j < i ==> shards[j] == map[]
      {
        shards := shards[i := map[]];
      }
      contents := map[];
      assert forall i :: 0 <= i < n ==> Slice(map[], Route(), i) == map[];
      mgr.ResetMetrics();
    }

    /** `dbsize`: the shard sizes add up to the number of keys. */
    method DbSize() returns (total: nat)
      requires Valid()
      ensures total == |contents|
    {
      hide SlotManager.Valid; hide InClusterStore.Route; hide Slice;
      total := 0;
      for i := 0 to n
        invariant total == SliceSizes(contents, Route(), i)
      {
        total := total + |shards[i]|;
      }
      forall k | k in contents ensures Route()(k) < n {
        RoutesHome(k);
      }
      SlicesCover(contents, Route(), n);
    }

    // ---- the rebalancer ----

    /** Aggregated figures of any kind leave the store as it is. */
    method AggregateLoad(ops: map<nat, nat>, access: map<SlotId, nat>)
      requires Valid()
      modifies mgr`opsPerSecond, mgr`accessCount
      ensures Valid() && contents == old(contents)
    {
      hide InClusterStore.Route; hide Slice;
      mgr.Aggregate(ops, access);
    }

    /** One look at the load: whatever is planned names home shards as sources. */
    method PlanMigrations()
      requires Valid()
      modifies this`plan, mgr`queue
      ensures Valid() && contents == old(contents)
      ensures old(plan) <= plan && mgr.queue == old(mgr.queue) + plan[|old(plan)|..]
      ensures mgr.PlannedNow(plan[|old(plan)|..])
    {
      hide InClusterStore.Route; hide Slice; hide SlotManager.PlannedNow;
      var migrations := mgr.TriggerRebalance();
      plan := plan + migrations;
      assert plan[|old(plan)|..] == migrations;
    }

    /** Starting the next planned migration, or being refused, leaves every slot served by the same shard. */
    method StartNextMigration()
      requires Valid()
      modifies this`plan, mgr`slots, mgr`active, mgr`version, mgr`changes
      ensures Valid() && contents == old(contents)
      ensures plan == if old(plan) == [] then [] else old(plan)[1..]
      ensures if old(plan) == [] || old(plan)[0].slot in old(mgr.active)
              then mgr.slots == old(mgr.slots) && mgr.active == old(mgr.active)
              else
                var m := old(plan)[0];
                && mgr.slots == old(mgr.slots)[m.slot := Migrating(m.from, m.to)]
                && mgr.active == old(mgr.active)[m.slot := Task(m.from, m.to)]
    {
      hide SlotManager.Valid; hide InClusterStore.Route; hide Slice;
      if plan == [] {
        return;
      }
      var m := plan[0];
      plan := plan[1..];
      var _ := mgr.StartSlotMigration(m.slot, m.from, m.to);
    }

    /** Rolling a migration back, or being refused, leaves every slot served by the same shard. */
    method RollBack(slot: SlotId)
      requires Valid()
      modifies mgr`slots, mgr`active, mgr`version, mgr`changes
      ensures Valid() && contents == old(contents)
      ensures mgr.active == old(mgr.active) - {slot}
      ensures mgr.slots == if slot in old(mgr.active) then old(mgr.slots)[slot := Stable(old(mgr.active)[slot].from)]
                           else old(mgr.slots)
    {
      hide SlotManager.Valid; hide InClusterStore.Route; hide Slice;
      var _ := mgr.RollbackMigration(slot);
    }

    // ---- whole runs ----

    method Execute(c: Command) returns (r: Reply)
      requires Valid()
      modifies this`shards, this`contents, this`totalOperations, this`crossShardOperations, mgr
      ensures Noted(old(LoadNow()), LoadNow(), Named(c))
      ensures totalOperations == old(totalOperations) + (if c.CmdSet? || c.CmdGet? || c.CmdDel? then 1 else 0)
      ensures mgr.slots == old(mgr.slots) && mgr.active == old(mgr.active)
      ensures Valid() && (contents, r) == Step(old(contents), c, Route())
    {
      hide SlotManager.Valid; hide InClusterStore.Route; hide InClusterStore.Valid; hide PutAll; hide LookupAll;
      hide InClusterStore.Noted; hide KeysOf;
      NotedNone(LoadNow());
      match c
      case CmdSet(key, value) => Set(key, value); r := Done;
      case CmdGet(key) => var v := Get(key); r := Value(v);
      case CmdDel(key) => var b := Del(key); r := Flag(b);
      case CmdMSet(entries) => MSet(entries); r := Done;
      case CmdMGet(keys) => var vs := MGet(keys); r := Values(vs);
      case CmdRename(from, to) => r := Rename(from, to);
      case CmdRenameNx(from, to) => r := RenameNx(from, to);
      case CmdDbSize => var size := DbSize(); r := Count(size);
    }

    /**
     Every interleaving of client commands with the rebalancer's steps answers exactly as one map
     does that knows nothing of slots, shards or migrations, except that renames across home shards
     are refused.
     */
    method ExecuteAll(events: seq<Event>) returns (replies: seq<Reply>)
      requires Valid()
      modifies this`shards, this`contents, this`totalOperations, this`crossShardOperations, this`plan, mgr
      ensures Valid() && (contents, replies) == Run(old(contents), events, Route())
      ensures Noted(if Flush in events then Idle(n) else old(LoadNow()), LoadNow(), Recent(events))
    {
      hide InClusterStore.Valid; hide InClusterStore.Route; hide InClusterStore.Noted; hide Step; hide Run; hide Recent;
      hide Idle;
      replies := [];
      ghost var m, start := contents, LoadNow();
      RunNothing(m, events, Route());
      NotedNone(LoadNow());
      for i := 0 to |events|
        invariant Valid() && (contents, replies) == Run(m, events[..i], Route())
        invariant Noted(if Flush in events[..i] then Idle(n) else start, LoadNow(), Recent(events[..i]))
      {
        assert events[..i + 1] == events[..i] + [events[i]];
        RunSnoc(m, events, i, Route());
        RecentSnoc(events, i);
        ghost var since := if Flush in events[..i] then Idle(n) else start;
        ghost var load := LoadNow();
        match events[i] {
          case Client(c) =>
            var r := Execute(c);
            replies := replies + [r];
            NotedThen(since, load, LoadNow(), Recent(events[..i]), Named(c));
          case Flush =>
            FlushDb();
            replies := replies + [Done];
            NotedNone(LoadNow());
          case Aggregate(ops, access) => AggregateLoad(ops, access);
          case Plan => PlanMigrations();
          case StartNext => StartNextMigration();
          case Rollback(slot) => RollBack(slot);
        }
      }
      assert events[..|events|] == events;
    }

    // ---- rerouting a slot, which the rebalancer never does ----

    /** What `get` replies under a slot table; there is no answer from a shard that does not exist. */
    ghost function Answer(table: seq<SlotState>, key: bytes): Reply
      reads this`shards
      requires |table| == TOTAL_SLOTS
    {
      var sid := Owner(table[SlotOf(lossy(key))]);
      if sid < |shards| then Value(Lookup(shards[sid], key)) else WrongShard
    }

    /** `get` answers for every key as one map does. */
    ghost predicate AnswersAsOneMap(table: seq<SlotState>)
      reads this`shards, this`contents
    {
      |table| == TOTAL_SLOTS && forall key :: Answer(table, key) == Value(Lookup(contents, key))
    }

    /** Every key that falls into the slot is served by a shard that exists and is not stored. */
    ghost predicate NothingToLose(slot: nat, target: nat)
      reads this`contents
    {
      forall key :: SlotOf(lossy(key)) == slot ==> target < n && key !in contents
    }

    /** No stored key falls into the slot. */
    ghost predicate SlotEmpty(slot: nat)
      reads this`contents
    {
      forall key :: key in contents ==> SlotOf(lossy(key)) != slot
    }

    ghost predicate NotPlanned(slot: nat)
      reads this`plan
    {
      forall i :: 0 <= i < |plan| ==> plan[i].slot != slot
    }

    /**
     A slot handed to another owner without its data. `get` answers for a key as one map does iff the key
     lies in another slot, or the owner is the same, or the new owner exists and the key is not stored.
     */
    lemma RerouteStrandsKeys(slot: SlotId, s: SlotState, key: bytes)
      requires Valid() && slot < TOTAL_SLOTS
      ensures |mgr.slots| == TOTAL_SLOTS
      ensures Answer(mgr.slots[slot := s], key) == Value(Lookup(contents, key)) <==>
                || SlotOf(lossy(key)) != slot
                || Owner(s) == Owner(mgr.slots[slot])
                || (Owner(s) < n && key !in contents)
    {
      hide SlotOf;
      RoutesHome(key);
    }

    lemma RerouteAnswersIff(slot: SlotId, s: SlotState)
      requires Valid() && slot < TOTAL_SLOTS
      ensures |mgr.slots| == TOTAL_SLOTS
      ensures AnswersAsOneMap(mgr.slots[slot := s]) <==>
                Owner(s) == Owner(mgr.slots[slot]) || NothingToLose(slot, Owner(s))
    {
      hide SlotOf; hide Slice; hide InClusterStore.Route; hide InClusterStore.Answer;
      assert |mgr.slots| == TOTAL_SLOTS;
      forall key
        ensures Answer(mgr.slots[slot := s], key) == Value(Lookup(contents, key)) <==>
                  SlotOf(lossy(key)) != slot || Owner(s) == Owner(mgr.slots[slot]) || (Owner(s) < n && key !in contents)
      {
        RerouteStrandsKeys(slot, s, key);
      }
    }

    /** The data is laid out, and the plan made, for these homes. */
    ghost predicate LaidOut(homes: seq<nat>)
      reads this`shards, this`contents, this`plan
    {
      && |homes| == TOTAL_SLOTS && |shards| == n > 0
      && (forall s :: 0 <= s < TOTAL_SLOTS ==> homes[s] < n)
      && (forall i :: 0 <= i < n ==> shards[i] == Slice(contents, HomeOf(homes, lossy), i))
      && (forall i :: 0 <= i < |plan| ==> plan[i].slot < TOTAL_SLOTS && plan[i].from == homes[plan[i].slot])
    }

    /** Every slot but one is routed to these homes. */
    ghost predicate RoutedBut(homes: seq<nat>, slot: nat)
      reads mgr`slots
    {
      && |mgr.slots| == |homes| == TOTAL_SLOTS
      && forall s :: 0 <= s < TOTAL_SLOTS && s != slot ==> Owner(mgr.slots[s]) == homes[s]
    }

    lemma InOrder(slot: nat)
      requires Valid()
      ensures mgr.Valid() && mgr.shardCount == n && LaidOut(home) && RoutedBut(home, slot)
      ensures |mgr.slots| == |home| == TOTAL_SLOTS
      ensures slot < TOTAL_SLOTS ==> Owner(mgr.slots[slot]) == home[slot]
      ensures forall s: SlotId :: s in mgr.active ==> s < TOTAL_SLOTS && mgr.active[s].from == home[s]
    {
      hide SlotOf; hide Slice;
    }

    /**
     With one slot re-homed to where it is now routed, the store is in order iff nothing changed, or nothing
     was lost.
     */
    lemma RerouteIff(homes: seq<nat>, slot: SlotId, target: nat)
      requires LaidOut(homes) && mgr.Valid() && mgr.shardCount == n
      requires slot < TOTAL_SLOTS && home == homes[slot := target]
      requires RoutedBut(homes, slot) && Owner(mgr.slots[slot]) == target
      ensures Valid() <==> target == homes[slot] || (target < n && SlotEmpty(slot) && NotPlanned(slot))
    {
      hide SlotOf; hide SlotManager.Valid; hide Slice; hide HomeOf; hide Owner;
      assert homes[slot := homes[slot]] == homes;
      assert Routed() <==> target < n;
      if target != homes[slot] {
        RehomedSlices(contents, shards, homes, lossy, slot, target);
        assert PlanSound() <==> NotPlanned(slot);
      }
    }

    /**
     `complete_slot_migration` on a cluster: no data is copied, so this can strand keys, and the target need
     not even exist. `get` answers as one map does for every key iff nothing was active, the target is the
     source, or it exists and no stored key falls into the slot. With the slot re-homed, the cluster is in
     order again, and every later run answers as one map, iff moreover no migration planned earlier names it.
     */
    method CompleteMigration(slot: SlotId) returns (r: Outcome)
      requires Valid()
      modifies mgr`slots, mgr`active, mgr`version, mgr`changes, this`home
      ensures r == if slot in old(mgr.active) then Accepted else NoActiveMigration
      ensures AnswersAsOneMap(mgr.slots) <==>
                || slot !in old(mgr.active)
                || old(mgr.active)[slot].to == old(mgr.active)[slot].from
                || NothingToLose(slot, old(mgr.active)[slot].to)
      ensures home == if slot in old(mgr.active) then old(home)[slot := old(mgr.active)[slot].to] else old(home)
      ensures Valid() <==>
                || slot !in old(mgr.active)
                || old(mgr.active)[slot].to == old(mgr.active)[slot].from
                || (old(mgr.active)[slot].to < n && SlotEmpty(slot) && NotPlanned(slot))
    {
      hide InClusterStore.Valid; hide SlotManager.Valid; hide InClusterStore.LaidOut; hide InClusterStore.SlotEmpty;
      hide InClusterStore.NotPlanned; hide InClusterStore.AnswersAsOneMap; hide InClusterStore.NothingToLose;
      hide SameRouting;
      ghost var active, homes := mgr.active, home;
      CompletionAnswersIff(slot);
      InOrder(slot);
      r := mgr.CompleteSlotMigration(slot);
      if r == Accepted {
        home := home[slot := active[slot].to];
        RerouteIff(homes, slot, active[slot].to);
      }
    }

    /**
     `start_slot_migration` by anyone but the rebalancer: a source other than the current owner reroutes the
     slot at once, with the same consequences.
     */
    method StartMigration(slot: SlotId, from: nat, to: nat) returns (r: Outcome)
      requires Valid()
      modifies mgr`slots, mgr`active, mgr`version, mgr`changes, this`home
      ensures r == if slot in old(mgr.active) then MigrationActive
                   else if slot >= TOTAL_SLOTS then InvalidSlot
                   else Accepted
      ensures home == if r == Accepted then old(home)[slot := from] else old(home)
      ensures Valid() <==>
                r != Accepted || from == old(home)[slot] || (from < n && SlotEmpty(slot) && NotPlanned(slot))
    {
      hide InClusterStore.Valid; hide SlotManager.Valid; hide InClusterStore.LaidOut; hide InClusterStore.SlotEmpty;
      hide InClusterStore.NotPlanned; hide InClusterStore.AnswersAsOneMap; hide InClusterStore.NothingToLose;
      hide SameRouting;
      ghost var homes := home;
      InOrder(slot);
      r := mgr.StartSlotMigration(slot, from, to);
      if r == Accepted {
        home := home[slot := from];
        RerouteIff(homes, slot, from);
      }
    }

    lemma CompletionAnswersIff(slot: SlotId)
      requires Valid()
      ensures slot !in mgr.active ==> AnswersAsOneMap(mgr.slots)
      ensures slot in mgr.active ==>
                var task := mgr.active[slot];
                && slot < |mgr.slots|
                && (AnswersAsOneMap(mgr.slots[slot := Stable(task.to)]) <==>
                    task.to == task.from || NothingToLose(slot, task.to))
    {
      hide SlotOf; hide Slice; hide InClusterStore.Route;
      hide InClusterStore.AnswersAsOneMap; hide InClusterStore.NothingToLose;
      if slot in mgr.active {
        RerouteAnswersIff(slot, Stable(mgr.active[slot].to));
      } else {
        AllFoundAtHome();
      }
    }

    lemma AllFoundAtHome()
      requires Valid()
      ensures AnswersAsOneMap(mgr.slots)
    {
      hide SlotOf; hide SlotManager.Valid;
      forall key ensures Answer(mgr.slots, key) == Value(Lookup(contents, key)) {
        RoutesHome(key);
      }
    }
  }

  /** Shards that hold a map by one set of homes hold it with one slot re-homed iff that slot is empty. */
  lemma RehomedSlices(m: Store, shards: seq<Store>, home: seq<nat>, lossy: bytes -> bytes, slot: nat, target: nat)
    requires slot < TOTAL_SLOTS == |home| && home[slot] != target && home[slot] < |shards|
    requires forall i :: 0 <= i < |shards| ==> shards[i] == Slice(m, HomeOf(home, lossy), i)
    ensures (forall i :: 0 <= i < |shards| ==> shards[i] == Slice(m, HomeOf(home[slot := target], lossy), i)) <==>
              forall key :: key in m ==> SlotOf(lossy(key)) != slot
  {
    hide SlotOf;
    var from, route, route' := home[slot], HomeOf(home, lossy), HomeOf(home[slot := target], lossy);
    if key :| key in m && SlotOf(lossy(key)) == slot {
      assert key in Slice(m, route, from) && key !in Slice(m, route', from);
    } else {
      forall i | 0 <= i < |shards| ensures Slice(m, route, i) == Slice(m, route', i) {
        assert forall key :: key in m ==> route(key) == route'(key);
      }
    }
  }

  lemma GroupGrows<T>(before: map<nat, seq<T>>, after: map<nat, seq<T>>, sid: nat, x: T)
    requires after == before[sid := GroupOf(before, sid) + [x]]
    ensures forall i :: GroupOf(after, i) == if i == sid then GroupOf(before, i) + [x] else GroupOf(before, i)
  {
  }

  lemma RunNothing(m: Store, events: seq<Event>, route: Router)
    ensures Run(m, events[..0], route) == (m, []) && Recent(events[..0]) == []
  {
  }

  lemma RecentSnoc(events: seq<Event>, i: nat)
    requires i < |events|
    ensures Recent(events[..i + 1])
         == if events[i].Flush? then [] else if events[i].Client? then Recent(events[..i]) + Named(events[i].c)
            else Recent(events[..i])
  {
    hide Named;
    assert events[..i + 1][..i] == events[..i];
  }

  /** One event more. */
  lemma RunSnoc(m: Store, events: seq<Event>, i: nat, route: Router)
    requires i < |events|
    ensures var (m', rs) := Run(m, events[..i], route);
            Run(m, events[..i + 1], route) ==
              if events[i].Flush? then (map[], rs + [Done])
              else if events[i].Client? then (Step(m', events[i].c, route).0, rs + [Step(m', events[i].c, route).1])
              else (m', rs)
  {
    assert events[..i + 1] == events[..i] + [events[i]];
    RunAppend(m, events[..i], events[i], route);
  }

  lemma {:induction false} RunAppend(m: Store, events: seq<Event>, e: Event, route: Router)
    ensures var (m', rs) := Run(m, events, route);
            Run(m, events + [e], route) ==
              if e.Flush? then (map[], rs + [Done])
              else if e.Client? then (Step(m', e.c, route).0, rs + [Step(m', e.c, route).1])
              else (m', rs)
    decreases |events|
  {
    hide Step;
    if events == [] {
      assert events + [e] == [e] && [e][1..] == [];
      assert forall r: Reply :: [r] + [] == [] + [r];
    } else {
      assert (events + [e])[1..] == events[1..] + [e];
      var head := events[0];
      if head.Client? || head.Flush? {
        var (m', r) := if head.Flush? then (map[], Done) else Step(m, head.c, route);
        RunAppend(m', events[1..], e, route);
        var (m'', rs) := Run(m', events[1..], route);
        ConcatAssociative([r], rs, [Done]);
        if e.Client? {
          ConcatAssociative([r], rs, [Step(m'', e.c, route).1]);
        }
      } else {
        RunAppend(m, events[1..], e, route);
      }
    }
  }

  lemma OnlyNone(route: Router)
    ensures forall i :: Only([], route, i) == []
  {
  }

  lemma PositionsNone(route: Router)
    ensures forall i :: Positions([], route, i) == []
  {
  }
}
