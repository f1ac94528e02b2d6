/** Rebuilding the index from the log alone, or from a snapshot plus the whole log. */
module Recovery {
  import opened Bytes
  import opened AofFormat
  import opened KeyValue
  import opened Slices
  import opened Sharding
  import opened Aof
  import opened Snapshots

  datatype RecoveryStrategy = AofOnly | SnapshotPlusIncremental | Auto

  datatype RecoveryStats = RecoveryStats(
    replayed: nat, loaded: nat, added: nat, updated: nat, deleted: nat, snapshotUsed: bool)

  const NO_STATS := RecoveryStats(0, 0, 0, 0, 0, false)

  /** What recovery of a file delivers; an absent file and an empty one deliver nothing. */
  ghost function FileOps(aof: Option<bytes>): seq<Op> {
    if aof.Some? && HasHeader(aof.value) then TolerantOps(aof.value) else []
  }

  predicate Readable(aof: Option<bytes>) {
    aof.Some? && aof.value != [] ==> HasHeader(aof.value)
  }

  /** The key of an operation is in the store when its turn comes. */
  ghost predicate Present(m: Store, ops: seq<Op>, i: nat)
    requires i < |ops|
  {
    ops[i].key in Fold(m, ops[..i])
  }

  /**
   The counters after replaying operations over a store: every SET is a key loaded; it is added or updated
   depending on whether the key was there at that moment, and a DEL counts only if it was.
   */
  ghost predicate Tallied(stats: RecoveryStats, m: Store, ops: seq<Op>) {
    && stats.replayed == |ops|
    && stats.loaded == |set i | 0 <= i < |ops| && ops[i].Set?|
    && stats.added == |set i | 0 <= i < |ops| && ops[i].Set? && !Present(m, ops, i)|
    && stats.updated == |set i | 0 <= i < |ops| && ops[i].Set? && Present(m, ops, i)|
    && stats.deleted == |set i | 0 <= i < |ops| && ops[i].Del? && Present(m, ops, i)|
  }

  /**
   `recover_from_aof_only`. Counters: each SET delivered is one key loaded, either added or
   updated; the index grows by what was added and shrinks by what was deleted.
   */
  method RecoverFromAofOnly(index: ShardedIndex, aof: Option<bytes>) returns (ok: bool, stats: RecoveryStats)
    requires index.Valid()
    modifies index
    ensures index.Valid() && ok == Readable(aof)
    ensures index.contents == Fold(old(index.contents), FileOps(aof))
    ensures stats.loaded == stats.added + stats.updated && !stats.snapshotUsed
    ensures Tallied(stats, old(index.contents), FileOps(aof))
    ensures |index.contents| == |old(index.contents)| + stats.added - stats.deleted
  {
    hide Fold; hide ShardedIndex.Valid; hide AofLog.Valid; hide TolerantOps; hide ReplaySpec; hide Tallied;
    stats := NO_STATS;
    NothingTallied(index.contents);
    FoldNone(index.contents);
    if aof.None? {
      return true, stats;
    }
    var log := AofLog.Open(aof.value, No, Log, true);
    if log == null {
      return false, stats;
    }
    var r, ops := log.Replay();
    DeliveredByRecovery(aof, r, ops);
    stats := ReplayCounted(index, ops);
    ok := true;
  }

  lemma DeliveredByRecovery(aof: Option<bytes>, r: Result, ops: seq<Op>)
    requires aof.Some? && Readable(aof)
    requires (ops, r) == ReplaySpec(if aof.value == [] then MAGIC else aof.value, Log)
    ensures r == Ok && ops == FileOps(aof)
  {
    if aof.value == [] {
      assert MAGIC[4..] == [] && MAGIC[..4] == MAGIC;
    }
  }

  lemma FoldNone(m: Store)
    ensures Fold(m, []) == m
  {
  }

  method ReplayCounted(index: ShardedIndex, ops: seq<Op>) returns (stats: RecoveryStats)
    requires index.Valid()
    modifies index
    ensures index.Valid() && index.contents == Fold(old(index.contents), ops)
    ensures stats.loaded == stats.added + stats.updated && !stats.snapshotUsed
    ensures Tallied(stats, old(index.contents), ops)
    ensures |index.contents| == |old(index.contents)| + stats.added - stats.deleted
  {
    hide Fold; hide Apply; hide Tallied; hide ShardedIndex.Valid;
    stats := NO_STATS;
    FoldNone(index.contents);
    NothingTallied(index.contents);
    assert ops[..0] == [];
    for i := 0 to |ops|
      invariant index.Valid() && index.contents == Fold(old(index.contents), ops[..i])
      invariant stats.loaded == stats.added + stats.updated && !stats.snapshotUsed
      invariant Tallied(stats, old(index.contents), ops[..i])
      invariant |index.contents| == |old(index.contents)| + stats.added - stats.deleted
    {
      assert ops[..i + 1] == ops[..i] + [ops[i]];
      FoldSnoc(old(index.contents), ops[..i], ops[i]);
      ghost var before := stats;
      stats := ReplayOne(index, ops[i], stats);
      TalliedOneMore(before, stats, old(index.contents), ops[..i], ops[i]);
    }
    assert ops[..|ops|] == ops;
  }

  /** One operation more, counted by what the store held when it came. */
  predicate OneMore(a: RecoveryStats, b: RecoveryStats, present: bool, op: Op) {
    && b.replayed == a.replayed + 1
    && b.loaded == a.loaded + (if op.Set? then 1 else 0)
    && b.added == a.added + (if op.Set? && !present then 1 else 0)
    && b.updated == a.updated + (if op.Set? && present then 1 else 0)
    && b.deleted == a.deleted + (if op.Del? && present then 1 else 0)
    && b.snapshotUsed == a.snapshotUsed
  }

  /** The replay callback: one operation applied and counted. */
  method ReplayOne(index: ShardedIndex, op: Op, before: RecoveryStats) returns (stats: RecoveryStats)
    requires index.Valid()
    modifies index
    ensures index.Valid() && index.contents == Apply(old(index.contents), op)
    ensures OneMore(before, stats, op.key in old(index.contents), op)
    ensures |index.contents| - |old(index.contents)| == (stats.added - before.added) - (stats.deleted - before.deleted)
  {
    hide ShardedIndex.Valid;
    stats := before;
    ghost var m := index.contents;
    match op {
      case Set(key, value) =>
        var prev := index.Insert(key, value);
        PutSize(m, key, value);
        stats := stats.(loaded := stats.loaded + 1);
        if prev.None? {
          stats := stats.(added := stats.added + 1);
        } else {
          stats := stats.(updated := stats.updated + 1);
        }
      case Del(key) =>
        var existed := index.Remove(key);
        RemoveSize(m, key);
        if existed {
          stats := stats.(deleted := stats.deleted + 1);
        }
    }
    stats := stats.(replayed := stats.replayed + 1);
  }

  lemma NothingTallied(m: Store)
    ensures Tallied(NO_STATS, m, [])
  {
  }

  lemma TalliedOneMore(a: RecoveryStats, b: RecoveryStats, m: Store, ops: seq<Op>, op: Op)
    requires Tallied(a, m, ops) && OneMore(a, b, op.key in Fold(m, ops), op)
    ensures Tallied(b, m, ops + [op])
  {
    hide Fold; hide Present;
    LoadedSnoc(m, ops, op);
    AddedSnoc(m, ops, op);
    UpdatedSnoc(m, ops, op);
    DeletedSnoc(m, ops, op);
  }

  lemma PresentStays(m: Store, ops: seq<Op>, op: Op)
    ensures forall i :: 0 <= i < |ops| ==> (Present(m, ops + [op], i) <==> Present(m, ops, i))
    ensures Present(m, ops + [op], |ops|) <==> op.key in Fold(m, ops)
  {
    hide Fold;
    var all, n := ops + [op], |ops|;
    assert all[..n] == ops;
    forall i | 0 <= i < n ensures Present(m, all, i) <==> Present(m, ops, i) {
      assert all[..i] == ops[..i];
    }
  }

  lemma LoadedSnoc(m: Store, ops: seq<Op>, op: Op)
    ensures |set i | 0 <= i < |ops + [op]| && (ops + [op])[i].Set?|
         == |set i | 0 <= i < |ops| && ops[i].Set?| + (if op.Set? then 1 else 0)
  {
    hide Fold; hide Present;
    var all, n := ops + [op], |ops|;
    PresentStays(m, ops, op);
    assert (set i | 0 <= i < |all| && all[i].Set?)
        == (set i | 0 <= i < n && ops[i].Set?) + (if op.Set? then {n} else {});
  }

  lemma AddedSnoc(m: Store, ops: seq<Op>, op: Op)
    ensures |set i | 0 <= i < |ops + [op]| && (ops + [op])[i].Set? && !Present(m, ops + [op], i)|
         == |set i | 0 <= i < |ops| && ops[i].Set? && !Present(m, ops, i)|
            + (if op.Set? && op.key !in Fold(m, ops) then 1 else 0)
  {
    hide Fold; hide Present;
    var all, n := ops + [op], |ops|;
    PresentStays(m, ops, op);
    assert (set i | 0 <= i < |all| && all[i].Set? && !Present(m, all, i))
        == (set i | 0 <= i < n && ops[i].Set? && !Present(m, ops, i))
           + (if op.Set? && op.key !in Fold(m, ops) then {n} else {});
  }

  lemma UpdatedSnoc(m: Store, ops: seq<Op>, op: Op)
    ensures |set i | 0 <= i < |ops + [op]| && (ops + [op])[i].Set? && Present(m, ops + [op], i)|
         == |set i | 0 <= i < |ops| && ops[i].Set? && Present(m, ops, i)|
            + (if op.Set? && op.key in Fold(m, ops) then 1 else 0)
  {
    hide Fold; hide Present;
    var all, n := ops + [op], |ops|;
    PresentStays(m, ops, op);
    assert (set i | 0 <= i < |all| && all[i].Set? && Present(m, all, i))
        == (set i | 0 <= i < n && ops[i].Set? && Present(m, ops, i))
           + (if op.Set? && op.key in Fold(m, ops) then {n} else {});
  }

  lemma DeletedSnoc(m: Store, ops: seq<Op>, op: Op)
    ensures |set i | 0 <= i < |ops + [op]| && (ops + [op])[i].Del? && Present(m, ops + [op], i)|
         == |set i | 0 <= i < |ops| && ops[i].Del? && Present(m, ops, i)|
            + (if op.Del? && op.key in Fold(m, ops) then 1 else 0)
  {
    hide Fold; hide Present;
    var all, n := ops + [op], |ops|;
    PresentStays(m, ops, op);
    assert (set i | 0 <= i < |all| && all[i].Del? && Present(m, all, i))
        == (set i | 0 <= i < n && ops[i].Del? && Present(m, ops, i))
           + (if op.Del? && op.key in Fold(m, ops) then {n} else {});
  }

  lemma PutSize(m: Store, k: bytes, v: bytes)
    ensures |m[k := v]| == |m| + (if k in m then 0 else 1)
  {
    assert m[k := v].Keys == m.Keys + {k};
  }

  lemma RemoveSize(m: Store, k: bytes)
    ensures |m - {k}| == |m| - (if k in m then 1 else 0)
  {
    assert (m - {k}).Keys == m.Keys - {k};
  }

  class RecoveryManager {
    const strategy: RecoveryStrategy
    /** The compaction manager's index, if one was initialised; it may or may not be the index being recovered. */
    const managed: ShardedIndex?

    constructor (strategy: RecoveryStrategy, managed: ShardedIndex?)
      ensures this.strategy == strategy && this.managed == managed
    {
      this.strategy, this.managed := strategy, managed;
    }

    ghost function Footprint(index: ShardedIndex): set<object> {
      if managed == null then {index} else {index, managed}
    }

    ghost predicate Valid(index: ShardedIndex)
      reads index, managed
    {
      index.Valid() && (managed != null ==> managed.Valid())
    }

    /**
     What loading the snapshot puts under the log in the recovered index: nothing unless the manager holds
     that very index.
     */
    ghost function Underlay(index: ShardedIndex, snapshot: Option<bytes>): seq<Entry> {
      if managed == index && snapshot.Some? then LoadSpec(snapshot.value).entries else []
    }

    /** There is no snapshot to load, or it loads completely. */
    predicate SnapshotGood(snapshot: Option<bytes>) {
      managed != null && snapshot.Some? ==> LoadSpec(snapshot.value).complete
    }

    /** `recover_from_snapshot_plus_aof`; a snapshot that fails to load stops it before the log. */
    method RecoverFromSnapshotPlusAof(index: ShardedIndex, snapshot: Option<bytes>, aof: Option<bytes>)
      returns (ok: bool, stats: RecoveryStats)
      requires Valid(index)
      modifies Footprint(index)
      ensures Valid(index)
      ensures ok == (Readable(aof) && SnapshotGood(snapshot))
      ensures var start := PutAll(old(index.contents), Underlay(index, snapshot));
              && index.contents == Fold(start, if ok then FileOps(aof) else [])
              && (ok && aof.Some? ==> |index.contents| == |start| + stats.added - stats.deleted)
      ensures ok && aof.Some? ==>
                Tallied(stats, PutAll(old(index.contents), Underlay(index, snapshot)), FileOps(aof))
      ensures ok && aof.None? ==>
                var count := if managed != null && snapshot.Some? then |LoadSpec(snapshot.value).entries| else 0;
                stats == RecoveryStats(0, count, count, 0, 0, managed != null && snapshot.Some?)
      ensures ok ==> (stats.snapshotUsed <==> managed != null && snapshot.Some?)
    {
      hide Fold; hide PutAll; hide ShardedIndex.Valid; hide LoadSpec; hide TolerantOps; hide HasHeader; hide Tallied;
      stats := NO_STATS;
      PutNone(index.contents);
      if managed != null && snapshot.Some? {
        var complete, count := LoadSnapshot(snapshot.value, managed);
        FoldNone(index.contents);
        if !complete {
          return false, stats;
        }
        stats := stats.(loaded := count, added := count, snapshotUsed := true);
      }
      FoldNone(index.contents);
      ok := true;
      if aof.Some? {
        var fromLog;
        ok, fromLog := RecoverFromAofOnly(index, aof);
        if ok {
          ghost var start := PutAll(old(index.contents), Underlay(index, snapshot));
          TalliedAnyhow(fromLog, stats.snapshotUsed, start, FileOps(aof));
          stats := fromLog.(snapshotUsed := stats.snapshotUsed);
        } else {
          UnreadableDeliversNothing(aof);
        }
      }
    }

    /**
     `recover`: with `Auto`, a failed snapshot attempt is followed by a replay of the log over whatever it
     left behind.
     */
    method Recover(index: ShardedIndex, snapshot: Option<bytes>, aof: Option<bytes>)
      returns (ok: bool, stats: RecoveryStats)
      requires Valid(index)
      modifies Footprint(index)
      ensures Valid(index)
      ensures strategy.Auto? ==> ok == Readable(aof)
      ensures strategy.SnapshotPlusIncremental? ==>
                ok == (Readable(aof) && SnapshotGood(snapshot))
      ensures strategy.AofOnly? ==>
                ok == Readable(aof) && index.contents == Fold(old(index.contents), FileOps(aof))
      ensures !strategy.AofOnly? ==>
                index.contents == Fold(PutAll(old(index.contents), Underlay(index, snapshot)),
                    if ok then FileOps(aof) else [])
      ensures ok ==> (stats.snapshotUsed <==>
                        !strategy.AofOnly? && managed != null && snapshot.Some? && SnapshotGood(snapshot))
      ensures ok && strategy.AofOnly? ==> Tallied(stats, old(index.contents), FileOps(aof))
      ensures ok && !strategy.AofOnly? && (aof.Some? || !SnapshotGood(snapshot)) ==>
                Tallied(stats, PutAll(old(index.contents), Underlay(index, snapshot)), FileOps(aof))
      ensures ok && !strategy.AofOnly? && aof.None? && SnapshotGood(snapshot) ==>
                var count := if managed != null && snapshot.Some? then |LoadSpec(snapshot.value).entries| else 0;
                stats == RecoveryStats(0, count, count, 0, 0, managed != null && snapshot.Some?)
    {
      hide Fold; hide PutAll; hide ShardedIndex.Valid; hide LoadSpec; hide TolerantOps; hide HasHeader; hide Tallied;
      match strategy
      case AofOnly =>
        ok, stats := RecoverFromAofOnly(index, aof);
      case SnapshotPlusIncremental =>
        ok, stats := RecoverFromSnapshotPlusAof(index, snapshot, aof);
      case Auto =>
        ok, stats := RecoverFromSnapshotPlusAof(index, snapshot, aof);
        if !ok {
          FoldNone(PutAll(old(index.contents), Underlay(index, snapshot)));
          ok, stats := RecoverFromAofOnly(index, aof);
        }
    }
  }

  lemma TalliedAnyhow(stats: RecoveryStats, used: bool, m: Store, ops: seq<Op>)
    requires Tallied(stats, m, ops)
    ensures Tallied(stats.(snapshotUsed := used), m, ops)
  {
  }

  lemma UnreadableDeliversNothing(aof: Option<bytes>)
    requires !Readable(aof)
    ensures FileOps(aof) == []
  {
  }

  /**
   A snapshot taken after the first `p` operations of a log, whole or cut anywhere, followed by the
   whole log from its start, gives exactly what the log alone gives.
   */
  lemma SnapshotThenWholeLog(ops: seq<Op>, p: nat, entries: seq<Entry>, timestamp: u64, cut: nat)
    requires p <= |ops| && Enumerates(entries, Fold(map[], ops[..p])) && EntriesFit(entries)
    requires cut <= |SnapshotFile(timestamp, entries)|
    ensures var loaded := LoadSpec(SnapshotFile(timestamp, entries)[..cut]).entries;
            Fold(PutAll(map[], loaded), ops) == Fold(map[], ops)
  {
    hide Fold; hide PutAll; hide LoadSpec; hide SnapshotFile; hide EntriesFit;
    var file := SnapshotFile(timestamp, entries);
    var loaded := LoadSpec(file[..cut]).entries;
    if cut < |file| {
      TornSnapshot(timestamp, entries, cut);
    } else {
      assert file[..cut] == file;
      SnapshotRoundTrip(timestamp, entries);
    }
    assert loaded <= entries;
    PutAllLookup(map[], loaded);
    FoldKeysTouched(ops[..p]);
    var m := PutAll(map[], loaded);
    forall k | k in m ensures k in Touched(ops) {
      LoadedKey(loaded, k);
      var i :| 0 <= i < |loaded| && loaded[i].0 == k;
      assert entries[i] == loaded[i];
      var j :| 0 <= j < |ops[..p]| && ops[..p][j].key == k;
      assert ops[j].key == k;
    }
    ReplayOverStore(m, ops);
  }

  lemma LoadedKey(entries: seq<Entry>, k: bytes)
    requires (forall i, j :: 0 <= i < j < |entries| ==> entries[i].0 != entries[j].0) && k in PutAll(map[], entries)
    ensures exists i :: 0 <= i < |entries| && entries[i].0 == k
  {
    hide PutAll;
    PutAllLookup(map[], entries);
  }

  /** The hypothesis is needed: a snapshot that holds a key the log no longer mentions brings that key back. */
  lemma StaleSnapshotKeyReturns(m: Store, ops: seq<Op>, k: bytes)
    requires k in m && k !in Touched(ops)
    ensures k in Fold(m, ops) && k !in Fold(map[], ops)
  {
    FoldPerKey(m, map[], ops, k);
    FoldPerKey(map[], m, ops, k);
  }
}
