/** The persistent store: every change goes to the sharded index and to the append-only log. */
module Persistent {
  import opened Bytes
  import opened AofFormat
  import opened AofTheorems
  import opened KeyValue
  import opened Slices
  import opened Sharding
  import opened Aof
  import opened Commands

  /** What one command does to one map, except that without metrics `dbsize` counts nothing. */
  function Step(m: Store, c: Command, metrics: bool): (Store, Reply) {
    if c.CmdDbSize? && !metrics then (m, Count(0)) else OneMap(m, c)
  }

  function Run(m: Store, cs: seq<Command>, metrics: bool): (Store, seq<Reply>)
    decreases |cs|
  {
    if cs == [] then (m, [])
    else
      var (m', r) := Step(m, cs[0], metrics);
      var (m'', rs) := Run(m', cs[1..], metrics);
      (m'', [r] + rs)
  }

  /** No key or value in the command is too long for its length field. */
  predicate CommandFits(c: Command) {
    match c
    case CmdSet(key, value) => Fits(Op.Set(key, value))
    case CmdMSet(entries) => AllFit(Sets(entries))
    case CmdRename(_, to) => |to| < U32_LIMIT
    case CmdRenameNx(_, to) => |to| < U32_LIMIT
    case _ => true
  }

  predicate AllCommandsFit(cs: seq<Command>) {
    forall i :: 0 <= i < |cs| ==> CommandFits(cs[i])
  }

  /** Commands that log at most one record. */
  predicate SingleRecord(c: Command) {
    !c.CmdMSet? && !c.CmdRename? && !c.CmdRenameNx?
  }

  predicate DistinctKeys(entries: seq<Entry>) {
    forall i, j :: 0 <= i < j < |entries| ==> entries[i].0 != entries[j].0
  }

  /** The store already holds every one of these entries. */
  predicate HoldsAll(m: Store, entries: seq<Entry>) {
    forall i :: 0 <= i < |entries| ==> Lookup(m, entries[i].0) == Some(entries[i].1)
  }

  class InPersistentStore {
    const index: ShardedIndex
    const aof: AofLog
    /** The operations delivered when the log was replayed on opening. */
    ghost const replayed: seq<Op>

    constructor (index: ShardedIndex, aof: AofLog, ghost replayed: seq<Op>)
      ensures this.index == index && this.aof == aof && this.replayed == replayed
    {
      this.index, this.aof, this.replayed := index, aof, replayed;
    }

    ghost predicate Valid()
      reads index, aof, aof.crc.table
    {
      index.Valid() && aof.Valid()
    }

    /** Write-ahead log and memory agree: folding everything logged gives the union of the shards. */
    ghost predicate InSync()
      reads index, aof
    {
      index.contents == Fold(map[], replayed + aof.appended)
    }

    lemma LogOne(m: Store, before: seq<Op>, op: Op)
      requires m == Fold(map[], replayed + before)
      ensures Fold(map[], replayed + (before + [op])) == Apply(m, op)
    {
      ConcatAssociative(replayed, before, [op]);
      FoldSnoc(map[], replayed + before, op);
    }

    /** Appending cannot fail: only `Always` flushes as it appends. */
    ghost predicate Reliable() {
      aof.healthy || !aof.policy.Always?
    }

    /** No key or value replayed or logged is too long for its length field. */
    ghost predicate Fitting()
      reads aof
    {
      AllFit(replayed + aof.appended)
    }

    /** Moreover the log was clean when it was opened. */
    ghost predicate Clean()
      reads aof
    {
      aof.base == MAGIC + EncodeAll(replayed) && Fitting()
    }

    // ---- opening ----

    /**
     `InPersistentStore::new`: open the log, build an empty index under a fresh hash seed and shard
     count, replay. Refused exactly when the header is bad or a strict replay fails.
     */
    static method Open(content: bytes, hash: bytes -> u64, n: nat, metrics: bool,
                       sync: SyncPolicy, corruption: CorruptionPolicy, healthy: bool)
      returns (store: InPersistentStore?)
      requires n > 0
      ensures var image := if content == [] then MAGIC else content;
              var (ops, r) := ReplaySpec(image, corruption);
              && (store == null <==> r.Err?)
              && (store != null ==>
                    && fresh(store.index) && fresh(store.aof)
                    && store.Valid() && store.InSync()
                    && store.index.contents == Fold(map[], ops)
                    && store.replayed == ops
                    && store.aof.base == store.aof.file == image && store.aof.buffer == [] && store.aof.appended == []
                    && store.aof.policy == sync && store.aof.healthy == healthy
                    && store.index.hash == hash && store.index.n == n && store.index.metrics == metrics)
    {
      hide *;
      var log := AofLog.Open(content, sync, corruption, healthy);
      HeaderSpec(content, corruption);
      if log == null {
        return null;
      }
      var shards := new ShardedIndex(hash, n, metrics);
      var r, ops := log.Replay();
      if r.Err? {
        return null;
      }
      ReplayInto(shards, ops);
      store := new InPersistentStore(shards, log, ops);
      assert ops + [] == ops;
      Assembled(store);
    }

    static lemma Assembled(store: InPersistentStore)
      requires store.index.Valid() && store.aof.Valid() && store.aof.appended == []
      requires store.index.contents == Fold(map[], store.replayed)
      ensures store.Valid() && store.InSync()
    {
      hide Fold; hide AofLog.Valid; hide ShardedIndex.Valid;
      assert store.replayed + [] == store.replayed;
    }

    /** `replay_aof`: the callback applies each operation to the shard of its key. */
    static method ReplayInto(index: ShardedIndex, ops: seq<Op>)
      requires index.Valid()
      modifies index
      ensures index.Valid() && index.contents == Fold(old(index.contents), ops)
    {
      hide *;
      FoldNothing(index.contents, ops);
      for i := 0 to |ops|
        invariant index.Valid() && index.contents == Fold(old(index.contents), ops[..i])
      {
        assert ops[..i + 1] == ops[..i] + [ops[i]];
        FoldSnoc(old(index.contents), ops[..i], ops[i]);
        ApplyIs(index.contents, ops[i]);
        match ops[i] {
          case Set(key, value) =>
            var _ := index.Insert(key, value);
          case Del(key) =>
            var _ := index.Remove(key);
        }
      }
      assert ops[..|ops|] == ops;
    }

    // ---- commands ----

    /**
     `set`: log first, then memory. If the log refuses, the record is in it but memory is not changed;
     log and memory then agree only if the key had that value already.
     */
    method Set(key: bytes, value: bytes) returns (r: Reply)
      requires Valid()
      modifies index, aof
      ensures Valid()
      ensures aof.appended == old(aof.appended) + [Op.Set(key, value)] && aof.base == old(aof.base)
      ensures r == Done || (r == IoError && !Reliable())
      ensures r == IoError <==> aof.flushErrors != old(aof.flushErrors)
      ensures index.contents == if r == Done then old(index.contents)[key := value] else old(index.contents)
      ensures old(InSync()) ==> (InSync() <==> r == Done || Lookup(old(index.contents), key) == Some(value))
      ensures old(Fitting()) && Fits(Op.Set(key, value)) ==> Fitting()
    {
      hide Fold; hide Apply; hide PutAll; hide AofLog.Valid; hide ShardedIndex.Valid; hide ShardedIndex.Renamed;
      hide AllFit; hide EncodeAll;
      var ok := aof.Append(Op.Set(key, value));
      ghost var m := old(index.contents);
      if old(Fitting()) && Fits(Op.Set(key, value)) {
        OneFits(Op.Set(key, value));
        StaysClean(old(aof.appended), [Op.Set(key, value)]);
      }
      if old(InSync()) {
        LogOne(m, old(aof.appended), Op.Set(key, value));
        ApplyIs(m, Op.Set(key, value));
        PutSame(m, key, value);
      }
      if !ok {
        return IoError;
      }
      var _ := index.Insert(key, value);
      r := Done;
    }

    /** Appending records that fit keeps a log clean. */
    lemma StaysClean(before: seq<Op>, ops: seq<Op>)
      requires AllFit(replayed + before) && AllFit(ops)
      ensures AllFit(replayed + (before + ops))
    {
      ConcatAssociative(replayed, before, ops);
      assert AllFit((replayed + before) + ops);
    }

    /** `get`. */
    method Get(key: bytes) returns (r: Reply)
      requires Valid()
      ensures r == Value(Lookup(index.contents, key))
    {
      var value := index.Get(key);
      r := Value(value);
    }

    /** `del`: memory first, then the log; a key that was not there is not logged. */
    method Del(key: bytes) returns (r: Reply)
      requires Valid()
      modifies index, aof
      ensures Valid() && aof.base == old(aof.base)
      ensures index.contents == old(index.contents) - {key}
      ensures aof.appended == old(aof.appended) + (if key in old(index.contents) then [Op.Del(key)] else [])
      ensures r == Flag(key in old(index.contents)) || (r == IoError && !Reliable())
      ensures r == IoError <==> aof.flushErrors != old(aof.flushErrors)
      ensures old(InSync()) ==> InSync()
      ensures old(Fitting()) && old(InSync()) ==> Fitting()
    {
      hide Fold; hide Apply; hide PutAll; hide AofLog.Valid; hide ShardedIndex.Valid; hide ShardedIndex.Renamed;
      hide AllFit; hide EncodeAll;
      var existed := index.Remove(key);
      r := Flag(existed);
      if existed {
        var ok := aof.Append(Op.Del(key));
        if !ok {
          r := IoError;
        }
        if old(InSync()) {
          LogOne(old(index.contents), old(aof.appended), Op.Del(key));
          ApplyIs(old(index.contents), Op.Del(key));
          if old(Fitting()) {
            StoredFits(old(index.contents), old(aof.appended), key);
            OneFits(Op.Del(key));
            StaysClean(old(aof.appended), [Op.Del(key)]);
          }
        }
      }
    }

    /** What is stored came from records that fit. */
    lemma StoredFits(m: Store, before: seq<Op>, key: bytes)
      requires AllFit(replayed + before) && m == Fold(map[], replayed + before) && key in m
      ensures |key| < U32_LIMIT && |m[key]| < U32_LIMIT && Fits(Op.Del(key))
    {
      hide Fold; hide AllFit;
      FoldFits(replayed + before, map[]);
    }

    /** Log one operation after another, stopping at the first failure, which still leaves its record in the log. */
    method AppendAll(ops: seq<Op>) returns (ok: bool, ghost logged: nat)
      requires Valid()
      modifies aof
      ensures Valid() && aof.base == old(aof.base)
      ensures logged <= |ops| && aof.appended == old(aof.appended) + ops[..logged]
      ensures ok <==> aof.flushErrors == old(aof.flushErrors)
      ensures if ok then logged == |ops| else logged > 0
      ensures Reliable() ==> ok
      ensures old(Fitting()) && AllFit(ops) ==> Fitting()
    {
      hide Fold; hide Apply; hide PutAll; hide AofLog.Valid; hide ShardedIndex.Valid; hide ShardedIndex.Renamed;
      hide AllFit; hide EncodeAll;
      logged := 0;
      assert old(aof.appended) + ops[..0] == old(aof.appended);
      for i := 0 to |ops|
        invariant Valid() && aof.base == old(aof.base) && logged == i && aof.flushErrors == old(aof.flushErrors)
        invariant aof.appended == old(aof.appended) + ops[..i]
      {
        assert ops[..i + 1] == ops[..i] + [ops[i]];
        ConcatAssociative(old(aof.appended), ops[..i], [ops[i]]);
        ok := aof.Append(ops[i]);
        logged := i + 1;
        if !ok {
          if old(Fitting()) && AllFit(ops) {
            SliceFits(ops, logged);
            StaysClean(old(aof.appended), ops[..logged]);
          }
          return;
        }
      }
      if old(Fitting()) && AllFit(ops) {
        SliceFits(ops, |ops|);
        StaysClean(old(aof.appended), ops[..logged]);
      }
      ok := true;
    }

    lemma LogMany(m: Store, before: seq<Op>, ops: seq<Op>)
      requires m == Fold(map[], replayed + before)
      ensures Fold(map[], replayed + (before + ops)) == Fold(m, ops)
    {
      ConcatAssociative(replayed, before, ops);
      FoldConcat(map[], replayed + before, ops);
    }

    /**
     `mset`: entries are deduplicated into a hash map, the map is logged in its iteration order, and
     the keys are written shard by shard. Memory and log both end up as if each entry had been set
     from left to right. If the log refuses, a part of the records is in it and memory is not changed;
     the two then agree only if the store held every entry logged already.
     */
    method MSet(entries: seq<Entry>) returns (r: Reply, ghost order: seq<Entry>, ghost logged: nat)
      requires Valid()
      modifies index, aof
      ensures Valid() && aof.base == old(aof.base)
      ensures r == Done || (r == IoError && !Reliable())
      ensures r == IoError <==> aof.flushErrors != old(aof.flushErrors)
      ensures index.contents == if r == Done then PutAll(old(index.contents), entries) else old(index.contents)
      ensures Enumerates(order, PutAll(map[], entries))
      ensures logged <= |order| && aof.appended == old(aof.appended) + Sets(order[..logged])
      ensures if r == Done then logged == |order| else logged > 0
      ensures old(InSync()) ==> (InSync() <==> r == Done || HoldsAll(old(index.contents), order[..logged]))
      ensures old(Fitting()) && AllFit(Sets(entries)) ==> Fitting()
    {
      hide Fold; hide Apply; hide PutAll; hide AofLog.Valid; hide ShardedIndex.Valid; hide ShardedIndex.Renamed;
      hide AllFit; hide EncodeAll; hide Sets; hide Enumerates; hide HoldsAll;
      var kv, keys := Deduplicate(entries);
      var live := AofLog.Enumerate(kv);
      order := live;
      var ok;
      ok, logged := AppendAll(Sets(live));
      SetsPrefix(live, logged);
      if old(Fitting()) && AllFit(Sets(entries)) {
        DeduplicatedFits(entries, live);
      }
      ghost var m := old(index.contents);
      if old(InSync()) {
        LogMany(m, old(aof.appended), Sets(live[..logged]));
        FoldOfSets(m, live[..logged]);
      }
      if !ok {
        PutAllSameIff(m, live, logged);
        return IoError, order, logged;
      }
      index.OverlayGroups(keys, kv);
      r := Done;
      PutAllIsOverlay(m, entries);
      EnumerationOverlays(live, kv, m);
      assert live[..logged] == live;
    }

    static method Deduplicate(entries: seq<Entry>) returns (kv: Store, keys: seq<bytes>)
      ensures kv == PutAll(map[], entries)
      ensures forall k :: k in kv <==> k in keys
    {
      hide PutAll;
      kv, keys := map[], [];
      PutNone(map[]);
      assert entries[..0] == [];
      for i := 0 to |entries|
        invariant kv == PutAll(map[], entries[..i])
        invariant forall k :: k in kv <==> k in keys
      {
        assert entries[..i + 1] == entries[..i] + [entries[i]];
        PutAllSnoc(map[], entries[..i], entries[i]);
        kv := kv[entries[i].0 := entries[i].1];
        keys := keys + [entries[i].0];
      }
      assert entries[..|entries|] == entries;
    }

    /** `mget`. */
    method MGet(keys: seq<bytes>) returns (r: Reply)
      requires Valid()
      ensures r == Values(LookupAll(index.contents, keys))
    {
      var values := index.MGet(keys);
      r := Values(values);
    }

    /**
     `rename`: move in memory, then log a DEL and a SET. If the log refuses after the DEL, log and memory
     agree only if the target is another key that held the same value already.
     */
    method Rename(from: bytes, to: bytes) returns (r: Reply, ghost logged: nat)
      requires Valid()
      modifies index, aof
      ensures Valid() && aof.base == old(aof.base)
      ensures r == (if from in old(index.contents) then Done else KeyNotFound) || (r == IoError && !Reliable())
      ensures index.contents
              == if from in old(index.contents) then Moved(old(index.contents), from, to) else old(index.contents)
      ensures r == IoError <==> aof.flushErrors != old(aof.flushErrors)
      ensures logged <= 2 && (logged == 0 <==> from !in old(index.contents))
      ensures r == Done ==> logged == 2
      ensures aof.appended == old(aof.appended) + MoveRecords(old(index.contents), from, to)[..logged]
      ensures old(InSync()) ==> (InSync() <==> logged != 1 || SameValueElsewhere(old(index.contents), from, to))
      ensures old(Fitting()) && old(InSync()) && |to| < U32_LIMIT ==> Fitting()
    {
      hide Fold; hide Apply; hide PutAll; hide AofLog.Valid; hide ShardedIndex.Valid; hide ShardedIndex.Renamed;
      hide AllFit; hide EncodeAll; hide MoveRecords; hide Moved;
      ghost var m := old(index.contents);
      var moved := index.Rename(from, to);
      index.RenamedIs(m, from, to);
      NoMoveRecords(m, from, to, old(aof.appended));
      if moved.None? {
        return KeyNotFound, 0;
      }
      MoveRecordsAre(m, from, to);
      var ok;
      ok, logged := LogRename(m, from, to, moved.value);
      r := if ok then Done else IoError;
    }

    /** Log the two records of a move that has been made in memory. */
    method LogRename(ghost m: Store, from: bytes, to: bytes, value: bytes) returns (ok: bool, ghost logged: nat)
      requires Valid() && from in m && value == m[from] && index.contents == Moved(m, from, to)
      modifies aof
      ensures Valid() && aof.base == old(aof.base)
      ensures ok <==> aof.flushErrors == old(aof.flushErrors)
      ensures 1 <= logged <= 2 && (ok ==> logged == 2) && (Reliable() ==> ok)
      ensures aof.appended == old(aof.appended) + MoveRecords(m, from, to)[..logged]
      ensures m == Fold(map[], replayed + old(aof.appended)) ==>
                (InSync() <==> logged != 1 || SameValueElsewhere(m, from, to))
      ensures old(Fitting()) && m == Fold(map[], replayed + old(aof.appended)) && |to| < U32_LIMIT ==> Fitting()
    {
      hide Fold; hide Apply; hide PutAll; hide AofLog.Valid; hide ShardedIndex.Valid; hide ShardedIndex.Renamed;
      hide AllFit; hide EncodeAll; hide Moved;
      var records := [Op.Del(from), Op.Set(to, value)];
      if m == Fold(map[], replayed + aof.appended) {
        if Fitting() && |to| < U32_LIMIT {
          StoredFits(m, aof.appended, from);
          MoveFits(m, from, to);
        }
        LogMove(m, aof.appended, from, to);
        LogOne(m, aof.appended, Op.Del(from));
        ApplyIs(m, Op.Del(from));
        HalfMoved(m, from, to);
      }
      ok, logged := AppendAll(records);
      assert records[..2] == records && records[..1] == [Op.Del(from)];
    }

    /** `renamenx`. */
    method RenameNx(from: bytes, to: bytes) returns (r: Reply, ghost logged: nat)
      requires Valid()
      modifies index, aof
      ensures Valid() && aof.base == old(aof.base)
      ensures var m := old(index.contents);
              r == (if from !in m then KeyNotFound else Flag(to !in m)) || (r == IoError && !Reliable())
      ensures var m := old(index.contents);
              index.contents == if from in m && to !in m then Moved(m, from, to) else m
      ensures r == IoError <==> aof.flushErrors != old(aof.flushErrors)
      ensures logged <= 2 && (logged == 0 <==> from !in old(index.contents) || to in old(index.contents))
      ensures r == Flag(true) ==> logged == 2
      ensures aof.appended == old(aof.appended) + MoveRecords(old(index.contents), from, to)[..logged]
      ensures old(InSync()) ==> (InSync() <==> logged != 1)
      ensures old(Fitting()) && old(InSync()) && |to| < U32_LIMIT ==> Fitting()
    {
      hide Fold; hide Apply; hide PutAll; hide AofLog.Valid; hide ShardedIndex.Valid; hide ShardedIndex.Renamed;
      hide AllFit; hide EncodeAll; hide MoveRecords; hide Moved;
      ghost var m := old(index.contents);
      var done := index.RenameNx(from, to);
      index.RenamedIs(m, from, to);
      NoMoveRecords(m, from, to, old(aof.appended));
      if done.None? {
        return KeyNotFound, 0;
      }
      if !done.value {
        return Flag(false), 0;
      }
      MovedTo(m, from, to);
      var value := index.Get(to);
      var ok;
      ok, logged := LogRename(m, from, to, value.value);
      r := if ok then Flag(true) else IoError;
    }

    lemma LogMove(m: Store, before: seq<Op>, from: bytes, to: bytes)
      requires m == Fold(map[], replayed + before) && from in m
      ensures Fold(map[], replayed + (before + [Op.Del(from), Op.Set(to, m[from])])) == Moved(m, from, to)
    {
      hide Fold;
      var ops := [Op.Del(from), Op.Set(to, m[from])];
      LogMany(m, before, ops);
      assert ops == [Op.Del(from)] + [Op.Set(to, m[from])];
      FoldConcat(m, [Op.Del(from)], [Op.Set(to, m[from])]);
      FoldOne(m, Op.Del(from));
      FoldOne(m - {from}, Op.Set(to, m[from]));
      ApplyIs(m, Op.Del(from));
      ApplyIs(m - {from}, Op.Set(to, m[from]));
    }

    lemma MoveFits(m: Store, from: bytes, to: bytes)
      requires from in m && Fits(Op.Del(from)) && |m[from]| < U32_LIMIT && |to| < U32_LIMIT
      ensures AllFit([Op.Del(from), Op.Set(to, m[from])])
    {
    }

    /** `dbsize`. */
    method DbSize() returns (r: Reply)
      requires Valid()
      ensures r == Count(if index.metrics then |index.contents| else 0)
    {
      var total := index.TotalKeys();
      r := Count(total);
    }

    /** `flushdb`: memory is emptied and the counters reset; nothing is logged, so the log keeps what there was. */
    method FlushDb()
      requires Valid()
      modifies index
      ensures Valid() && index.contents == map[]
      ensures old(InSync()) ==> (InSync() <==> old(index.contents) == map[])
    {
      hide Fold; hide AofLog.Valid;
      index.Clear();
    }

    // ---- whole runs ----

    method Execute(c: Command) returns (r: Reply)
      requires Valid() && InSync() && Reliable()
      modifies index, aof
      ensures Valid() && InSync() && aof.base == old(aof.base)
      ensures (index.contents, r) == Step(old(index.contents), c, index.metrics)
      ensures old(aof.appended) <= aof.appended
      ensures Logs(old(index.contents), c, aof.appended[|old(aof.appended)|..])
      ensures old(Fitting()) && CommandFits(c) ==> Fitting()
    {
      hide Fold; hide Apply; hide PutAll; hide AofLog.Valid; hide ShardedIndex.Valid; hide ShardedIndex.Renamed;
      hide AllFit; hide EncodeAll; hide Sets; hide MoveRecords; hide Enumerates; hide Moved;
      hide InPersistentStore.Fitting;
      ghost var m, log := index.contents, aof.appended;
      assert log[|log|..] == [];
      match c
      case CmdSet(key, value) =>
        r := Set(key, value);
        assert aof.appended[|log|..] == [Op.Set(key, value)];
      case CmdGet(key) =>
        r := Get(key);
      case CmdDel(key) =>
        r := Del(key);
        assert aof.appended[|log|..] == if key in m then [Op.Del(key)] else [];
      case CmdMSet(entries) =>
        ghost var order, logged;
        r, order, logged := MSet(entries);
        assert order[..logged] == order;
        assert aof.appended[|log|..] == Sets(order);
      case CmdMGet(keys) =>
        r := MGet(keys);
      case CmdRename(from, to) =>
        ghost var logged;
        r, logged := Rename(from, to);
        AllMoveRecords(m, from, to);
        assert aof.appended[|log|..] == MoveRecords(m, from, to)[..logged];
      case CmdRenameNx(from, to) =>
        ghost var logged;
        r, logged := RenameNx(from, to);
        AllMoveRecords(m, from, to);
        assert aof.appended[|log|..] == MoveRecords(m, from, to)[..logged];
      case CmdDbSize =>
        r := DbSize();
    }

    /**
     Any sequence of commands answers as one map would, with log and memory in step throughout. The log
     keeps a trace of the run: after each command it has reached a mark at which it folds to the map after
     exactly those commands, and between two marks stand the records of one command.
     */
    method ExecuteAll(cs: seq<Command>) returns (replies: seq<Reply>, ghost marks: seq<nat>)
      requires Valid() && InSync() && Reliable()
      modifies index, aof
      ensures Valid() && InSync() && aof.base == old(aof.base) && old(aof.appended) <= aof.appended
      ensures (index.contents, replies) == Run(old(index.contents), cs, index.metrics)
      ensures Trace(replayed + aof.appended, marks, old(index.contents), cs, index.metrics)
      ensures marks[0] == |replayed| + |old(aof.appended)|
      ensures old(Fitting()) && AllCommandsFit(cs) ==> Fitting()
    {
      hide InPersistentStore.Valid; hide InPersistentStore.InSync; hide InPersistentStore.Fitting; hide Trace;
      hide Step; hide Run; hide CommandFits; hide Fold; hide Logs;
      ghost var m, first := index.contents, |replayed| + |aof.appended|;
      replies, marks := [], [first];
      RunNothing(m, cs, index.metrics);
      SyncedHistory();
      TraceNothing(replayed + aof.appended, m, cs, index.metrics);
      for i := 0 to |cs|
        invariant Valid() && InSync() && aof.base == old(aof.base) && old(aof.appended) <= aof.appended
        invariant (index.contents, replies) == Run(m, cs[..i], index.metrics)
        invariant |marks| == i + 1 && marks[0] == first
        invariant Trace(replayed + aof.appended, marks, m, cs[..i], index.metrics)
        invariant old(Fitting()) && AllCommandsFit(cs) ==> Fitting()
      {
        ghost var log := aof.appended;
        var r := Execute(cs[i]);
        RunSnoc(m, cs, i, index.metrics);
        replies := replies + [r];
        SyncedHistory();
        ConcatAssociative(replayed, log, aof.appended[|log|..]);
        assert aof.appended == log + aof.appended[|log|..];
        TraceSnoc(replayed + log, aof.appended[|log|..], marks, m, cs, i, index.metrics);
        marks := marks + [|replayed + aof.appended|];
      }
      assert cs[..|cs|] == cs;
    }

    lemma SyncedHistory()
      requires InSync()
      ensures index.contents == Fold(map[], replayed + aof.appended)
    {
    }

    // ---- durability ----

    /** A store opened on a log in the current format starts out clean exactly when the log replays strictly. */
    lemma CleanIffStrict()
      requires Valid() && aof.appended == [] && aof.base[..4] == MAGIC
      requires replayed == ReplaySpec(aof.base, Strict).0
      ensures Clean() <==> ReplaySpec(aof.base, Strict).1 == Ok
    {
      hide Scan; hide StrictScan; hide EncodeAll; hide AllFit; hide ShardedIndex.Valid;
      StrictAcceptsWrittenLogs(aof.base[4..]);
      ScanDeliversFitting(aof.base[4..]);
      assert aof.base == MAGIC + aof.base[4..];
      assert replayed + [] == replayed;
    }

    /** The log on disk, once flushed, replays without error under every policy to everything ever logged. */
    lemma LogImage(corruption: CorruptionPolicy)
      requires Valid() && Clean()
      ensures ReplaySpec(aof.Content(), corruption) == (replayed + aof.appended, Ok)
    {
      hide AllFit; hide EncodeAll; hide Scan; hide StrictScan; hide ShardedIndex.Valid;
      EncodeAllConcat(replayed, aof.appended);
      ConcatAssociative(MAGIC, EncodeAll(replayed), EncodeAll(aof.appended));
      var whole := MAGIC + EncodeAll(replayed + aof.appended);
      assert aof.Content() == whole;
      assert whole[..4] == MAGIC && whole[4..] == EncodeAll(replayed + aof.appended);
      LogRoundTrip(replayed + aof.appended);
    }

    /**
     Closing the store and opening its log again, under any hash seed, shard count and policy, restores the
     same map.
     */
    method Reopen(hash: bytes -> u64, n: nat, metrics: bool, sync: SyncPolicy, corruption: CorruptionPolicy)
      returns (store: InPersistentStore)
      requires n > 0 && Valid() && InSync() && Clean()
      ensures fresh(store.index) && fresh(store.aof) && store.Valid() && store.InSync() && store.Clean()
      ensures store.index.contents == index.contents
    {
      LogImage(corruption);
      var image := aof.file + aof.buffer;
      assert image != [] by { ContentNotEmpty(); }
      var again := Open(image, hash, n, metrics, sync, corruption, true);
      store := again;
      ReopenedClean(store);
    }

    lemma ContentNotEmpty()
      requires Valid()
      ensures aof.Content() != []
    {
      hide EncodeAll; hide ShardedIndex.Valid;
    }

    lemma ReopenedClean(store: InPersistentStore)
      requires Valid() && Clean()
      requires store.aof.base == aof.Content() && store.aof.appended == [] && store.replayed == replayed + aof.appended
      ensures store.Clean()
    {
      hide AllFit; hide EncodeAll; hide ShardedIndex.Valid;
      EncodeAllConcat(replayed, aof.appended);
      ConcatAssociative(MAGIC, EncodeAll(replayed), EncodeAll(aof.appended));
      assert store.replayed + [] == store.replayed;
    }

    /**
     A crash under `Always` on a healthy device: the log that is left misses at most the last 31 records of
     the history.
     */
    lemma CrashState() returns (n: nat)
      requires Valid() && Clean() && aof.policy.Always? && aof.healthy
      ensures var history := replayed + aof.appended;
              |history| - 31 <= n <= |history| && |replayed| <= n && Survives(aof.file, history, n)
    {
      hide AllFit; hide EncodeAll; hide Survives; hide AofLog.Valid; hide ShardedIndex.Valid;
      n := aof.CrashLosesAtMost31(replayed);
    }

    /** Open a file that replays strictly. */
    static method OpenClean(content: bytes, hash: bytes -> u64, n: nat, metrics: bool,
                            sync: SyncPolicy, corruption: CorruptionPolicy)
      returns (store: InPersistentStore)
      requires n > 0 && CleanFile(content)
      ensures fresh(store.index) && fresh(store.aof)
      ensures store.Valid() && store.InSync() && store.Clean() && store.aof.healthy && store.aof.policy == sync
      ensures store.replayed == History(content) && store.aof.appended == [] && store.index.metrics == metrics
      ensures store.index.contents == Fold(map[], History(content))
    {
      hide *;
      CleanFileReplays(content, corruption);
      var first := Open(content, hash, n, metrics, sync, corruption, true);
      store := first;
      assert store.replayed + [] == store.replayed;
      OpenedClean(store);
    }

    static lemma OpenedClean(store: InPersistentStore)
      requires store.aof.base == MAGIC + EncodeAll(store.replayed) && AllFit(store.replayed) && store.aof.appended == []
      ensures store.Clean()
    {
      hide EncodeAll; hide AllFit;
      assert store.replayed + [] == store.replayed;
    }

    lemma StillClean(base: bytes)
      requires base == MAGIC + EncodeAll(replayed) && aof.base == base && Fitting()
      ensures Clean()
    {
    }

    lemma CleanParts()
      requires Clean()
      ensures Fitting() && aof.base == MAGIC + EncodeAll(replayed)
    {
    }

    static lemma ReliableIfHealthy(store: InPersistentStore)
      requires store.aof.healthy
      ensures store.Reliable()
    {
    }

    /**
     The life of a store: opened on an empty or clean file, driven by any commands whose keys and values
     are not too long, closed, and opened again under any hash seed, shard count and policies, it holds
     what one map would after the same commands.
     */
    static method RunAndReopen(content: bytes, cs: seq<Command>,
                               hash: bytes -> u64, n: nat, metrics: bool,
                               sync: SyncPolicy, corruption: CorruptionPolicy,
                               hash': bytes -> u64, n': nat, metrics': bool,
                               sync': SyncPolicy, corruption': CorruptionPolicy)
      returns (replies: seq<Reply>, store: InPersistentStore)
      requires n > 0 && n' > 0 && CleanFile(content) && AllCommandsFit(cs)
      ensures store.Valid() && store.InSync() && store.Clean()
      ensures (store.index.contents, replies) == Run(Fold(map[], History(content)), cs, metrics)
    {
      hide *;
      var first := OpenClean(content, hash, n, metrics, sync, corruption);
      ghost var base, marks := first.aof.base, [];
      ReliableIfHealthy(first);
      first.CleanParts();
      replies, marks := first.ExecuteAll(cs);
      first.StillClean(base);
      store := first.Reopen(hash', n', metrics', sync', corruption');
    }

    /**
     The same on a damaged file under tolerant policies: what the reader makes of the file, then the commands.
     The reopened store holds what one map would unless a record straddles the old end of the file.
     */
    static method RunAndReopenTolerant(content: bytes, cs: seq<Command>,
                                       hash: bytes -> u64, n: nat, metrics: bool,
                                       sync: SyncPolicy, corruption: CorruptionPolicy,
                                       hash': bytes -> u64, n': nat, metrics': bool,
                                       sync': SyncPolicy, corruption': CorruptionPolicy)
      returns (replies: seq<Reply>, store: InPersistentStore, ghost logged: seq<Op>)
      requires n > 0 && n' > 0 && |content| >= 4 && content[..4] == MAGIC && AllCommandsFit(cs)
      requires !corruption.Strict? && !corruption'.Strict?
      ensures replies == Run(Fold(map[], Scan(content[4..])), cs, metrics).1
      ensures store.Valid() && store.InSync() && store.replayed == Scan(content[4..] + EncodeAll(logged))
      ensures Straddler(content[4..], EncodeAll(logged)).None? ==>
                store.index.contents == Run(Fold(map[], Scan(content[4..])), cs, metrics).0
    {
      ghost var s := content[4..];
      assert content == MAGIC + s;
      hide *;
      TolerantFile(content, s, corruption);
      var started := Open(content, hash, n, metrics, sync, corruption, true);
      var first: InPersistentStore := started;
      ReliableIfHealthy(first);
      first.FittingIfScanned(s);
      ghost var marks;
      replies, marks := first.ExecuteAll(cs);
      logged := first.aof.appended;
      first.ImageOf();
      var image := first.aof.file + first.aof.buffer;
      assert image == MAGIC + (s + EncodeAll(logged)) by {
        ConcatAssociative(MAGIC, s, EncodeAll(logged));
      }
      TolerantFile(image, s + EncodeAll(logged), corruption');
      var again := Open(image, hash', n', metrics', sync', corruption', true);
      store := again;
      if Straddler(s, EncodeAll(logged)).None? {
        first.AppendedFits();
        AppendsAreFound(s, logged);
        first.SyncedHistory();
      }
    }

    lemma ImageOf()
      requires Valid()
      ensures aof.file + aof.buffer == aof.base + EncodeAll(aof.appended)
    {
      hide EncodeAll; hide ShardedIndex.Valid;
    }

    lemma FittingIfScanned(s: bytes)
      requires replayed == Scan(s) && aof.appended == []
      ensures Fitting()
    {
      hide Scan;
      ScanDeliversFitting(s);
      assert replayed + [] == replayed;
    }

    lemma AppendedFits()
      requires Fitting()
      ensures AllFit(aof.appended)
    {
      assert forall i :: 0 <= i < |aof.appended| ==> aof.appended[i] == (replayed + aof.appended)[|replayed| + i];
    }

    /**
     The life of a store ended by a crash under `Always` and opened again on the file that is left. All but
     the last 31 records of the history survive. A strict policy refuses the file iff a part of a record is
     left behind them; a tolerant one, provided that part holds no record, restores exactly them. They end on
     a mark, where they stand for the map after some of the commands, or inside a command of several records,
     where `Unharmed` says whether they stand for the map before or after it.
     */
    static method RunAndCrash(content: bytes, cs: seq<Command>,
                              hash: bytes -> u64, n: nat, metrics: bool, corruption: CorruptionPolicy,
                              hash': bytes -> u64, n': nat, metrics': bool,
                              sync': SyncPolicy, corruption': CorruptionPolicy)
      returns (replies: seq<Reply>, file: bytes, store: InPersistentStore?,
               ghost history: seq<Op>, ghost marks: seq<nat>, ghost kept: nat, ghost at: nat)
      requires n > 0 && n' > 0 && CleanFile(content) && AllCommandsFit(cs)
      ensures replies == Run(Fold(map[], History(content)), cs, metrics).1
      ensures History(content) <= history && |History(content)| <= kept && |history| - 31 <= kept <= |history|
      ensures Trace(history, marks, Fold(map[], History(content)), cs, metrics)
      ensures Survives(file, history, kept)
      ensures store == null <==> corruption'.Strict? && |file| != 4 + |EncodeAll(history[..kept])|
      ensures store != null ==> store.Valid() && store.InSync() && history[..kept] <= store.replayed
      ensures store != null && (corruption'.Strict? || NoRecordFrom(file, 4 + |EncodeAll(history[..kept])|)) ==>
                store.index.contents == Fold(map[], history[..kept])
      ensures CutAt(marks, cs, kept, at)
      ensures var m, left := Fold(map[], History(content)), Fold(map[], history[..kept]);
              if kept == marks[at] then left == Run(m, cs[..at], metrics).0
              else
                left == Run(m, cs[..at], metrics).0 || left == Run(m, cs[..at + 1], metrics).0 <==>
                Unharmed(Run(m, cs[..at], metrics).0, cs[at], history[marks[at]..kept], history[kept..marks[at + 1]])
    {
      hide *;
      var first := OpenClean(content, hash, n, metrics, Always, corruption);
      ghost var m, base := first.index.contents, first.aof.base;
      ReliableIfHealthy(first);
      first.CleanParts();
      assert |first.replayed| + |first.aof.appended| == |first.replayed|;
      replies, marks := first.ExecuteAll(cs);
      first.StillClean(base);
      file := first.aof.file;
      kept := first.CrashState();
      history := first.replayed + first.aof.appended;
      at := CutFound(history, marks, m, cs, metrics, kept);
      AfterCut(history, marks, m, cs, metrics, kept, at);
      SurvivorsReplay(file, history, kept, corruption');
      store := Open(file, hash', n', metrics', sync', corruption', true);
    }
  }

  /** The records a command logs when it succeeds. */
  ghost predicate Logs(m: Store, c: Command, records: seq<Op>) {
    match c
    case CmdSet(key, value) => records == [Op.Set(key, value)]
    case CmdDel(key) => records == if key in m then [Op.Del(key)] else []
    case CmdMSet(entries) => exists order :: Enumerates(order, PutAll(map[], entries)) && records == Sets(order)
    case CmdRename(from, to) => records == MoveRecords(m, from, to)
    case CmdRenameNx(from, to) => records == if to in m then [] else MoveRecords(m, from, to)
    case _ => records == []
  }

  /**
   A log as the trace of a run: up to the `i`-th mark it folds to the map after `i` commands, and between
   two marks stand the records of one command.
   */
  ghost predicate Trace(history: seq<Op>, marks: seq<nat>, m: Store, cs: seq<Command>, metrics: bool) {
    && |marks| == |cs| + 1 && marks[|cs|] == |history|
    && (forall i :: 0 <= i < |cs| ==> marks[i] <= marks[i + 1])
    && (forall i :: 0 <= i <= |cs| ==> marks[i] <= |history|)
    && (forall i :: 0 <= i <= |cs| ==> Fold(map[], history[..marks[i]]) == Run(m, cs[..i], metrics).0)
    && (forall i :: 0 <= i < |cs| ==> Logs(Run(m, cs[..i], metrics).0, cs[i], history[marks[i]..marks[i + 1]]))
  }

  lemma TraceNothing(history: seq<Op>, m: Store, cs: seq<Command>, metrics: bool)
    requires m == Fold(map[], history)
    ensures Trace(history, [|history|], m, cs[..0], metrics)
  {
    hide Fold;
    assert history[..|history|] == history;
    assert cs[..0][..0] == cs[..0];
    RunNothing(m, cs, metrics);
  }

  lemma TraceSnoc(history: seq<Op>, records: seq<Op>, marks: seq<nat>,
                  m: Store, cs: seq<Command>, k: nat, metrics: bool)
    requires k < |cs| && Trace(history, marks, m, cs[..k], metrics)
    requires Logs(Run(m, cs[..k], metrics).0, cs[k], records)
    requires Fold(map[], history + records) == Run(m, cs[..k + 1], metrics).0
    ensures Trace(history + records, marks + [|history + records|], m, cs[..k + 1], metrics)
  {
    hide Fold; hide Run; hide Logs;
    var longer, marks', done := history + records, marks + [|history + records|], cs[..k + 1];
    forall i | 0 <= i <= |done|
      ensures marks'[i] <= |longer| && Fold(map[], longer[..marks'[i]]) == Run(m, done[..i], metrics).0
    {
      assert done[..i] == cs[..i];
      if i <= k {
        assert cs[..k][..i] == cs[..i];
        assert longer[..marks[i]] == history[..marks[i]];
      } else {
        assert longer[..|longer|] == longer;
      }
    }
    forall i | 0 <= i < |done|
      ensures marks'[i] <= marks'[i + 1] &&
              Logs(Run(m, done[..i], metrics).0, done[i], longer[marks'[i]..marks'[i + 1]])
    {
      assert done[..i] == cs[..i] && cs[..k][..i] == cs[..i];
      if i < k {
        assert cs[..k][i] == cs[i];
        assert longer[marks[i]..marks[i + 1]] == history[marks[i]..marks[i + 1]];
      } else {
        assert longer[|history|..|longer|] == records;
      }
    }
  }

  /** The cut is on a mark, or strictly inside the records of a command that logs several. */
  predicate CutAt(marks: seq<nat>, cs: seq<Command>, kept: nat, at: nat) {
    && |marks| == |cs| + 1 && at <= |cs| && marks[at] <= kept
    && (marks[at] < kept ==> at < |cs| && kept < marks[at + 1] && !SingleRecord(cs[at]))
  }

  lemma CutFound(history: seq<Op>, marks: seq<nat>, m: Store, cs: seq<Command>, metrics: bool, kept: nat)
    returns (at: nat)
    requires Trace(history, marks, m, cs, metrics) && marks[0] <= kept <= |history|
    ensures CutAt(marks, cs, kept, at)
  {
    hide Fold; hide Run; hide Logs;
    at := LastMark(marks, kept);
    if marks[at] < kept {
      SingleLogs(Run(m, cs[..at], metrics).0, cs[at], history[marks[at]..marks[at + 1]]);
    }
  }

  lemma {:induction false} LastMark(marks: seq<nat>, kept: nat) returns (at: nat)
    requires |marks| > 0 && marks[0] <= kept
    ensures at < |marks| && marks[at] <= kept && (at + 1 < |marks| ==> kept < marks[at + 1])
    decreases |marks|
  {
    var n := |marks| - 1;
    if marks[n] <= kept {
      at := n;
    } else {
      at := LastMark(marks[..n], kept);
    }
  }

  lemma SingleLogs(m: Store, c: Command, records: seq<Op>)
    requires Logs(m, c, records)
    ensures SingleRecord(c) ==> |records| <= 1
    ensures !c.CmdMSet? ==> |records| <= 2
  {
    hide PutAll; hide Enumerates;
  }

  /** The store already holds what every one of these records would write. */
  predicate Held(m: Store, ops: seq<Op>) {
    forall i :: 0 <= i < |ops| ==> ops[i].Set? && Lookup(m, ops[i].key) == Some(ops[i].value)
  }

  /**
   A command cut between its records still counts as done or not done: an mset whose logged or whose missing
   records the store held already, or a rename onto another key with the same value.
   */
  predicate Unharmed(m: Store, c: Command, logged: seq<Op>, missing: seq<Op>) {
    if c.CmdMSet? then Held(m, logged) || Held(m, missing)
    else if c.CmdRename? || c.CmdRenameNx? then SameValueElsewhere(m, c.from, c.to)
    else true
  }

  /** What a history cut anywhere stands for. */
  lemma AfterCut(history: seq<Op>, marks: seq<nat>, m: Store, cs: seq<Command>, metrics: bool, kept: nat, at: nat)
    requires Trace(history, marks, m, cs, metrics) && kept <= |history| && CutAt(marks, cs, kept, at)
    ensures var left := Fold(map[], history[..kept]);
            if kept == marks[at] then left == Run(m, cs[..at], metrics).0
            else
              left == Run(m, cs[..at], metrics).0 || left == Run(m, cs[..at + 1], metrics).0 <==>
              Unharmed(Run(m, cs[..at], metrics).0, cs[at], history[marks[at]..kept], history[kept..marks[at + 1]])
  {
    hide Fold; hide Run; hide Logs; hide Unharmed;
    if kept > marks[at] {
      TornCommandIff(history, marks[at], kept, marks[at + 1], cs[at]);
    }
  }

  /** A command cut between its records. */
  lemma TornCommandIff(history: seq<Op>, start: nat, kept: nat, end: nat, c: Command)
    requires start < kept < end <= |history| && !SingleRecord(c)
    requires Logs(Fold(map[], history[..start]), c, history[start..end])
    ensures var m, left := Fold(map[], history[..start]), Fold(map[], history[..kept]);
            left == m || left == Fold(map[], history[..end]) <==>
                Unharmed(m, c, history[start..kept], history[kept..end])
  {
    hide Fold; hide PutAll; hide Enumerates; hide Held; hide Sets;
    var m, records := Fold(map[], history[..start]), history[start..end];
    if c.CmdMSet? {
      var order :| Enumerates(order, PutAll(map[], c.entries)) && records == Sets(order);
      EnumeratedDistinct(order, PutAll(map[], c.entries));
      TornMSet(history, start, order, kept, end);
    } else {
      assert records[0] == history[start] && records[1] == history[start + 1];
      TornRenameIff(history, kept, c.from, c.to);
    }
  }

  lemma TornMSet(history: seq<Op>, start: nat, order: seq<Entry>, kept: nat, end: nat)
    requires start < kept < end <= |history| && history[start..end] == Sets(order) && DistinctKeys(order)
    ensures var m, left := Fold(map[], history[..start]), Fold(map[], history[..kept]);
            left == m || left == Fold(map[], history[..end]) <==>
                Held(m, history[start..kept]) || Held(m, history[kept..end])
  {
    hide *;
    var m, j, records := Fold(map[], history[..start]), kept - start, history[start..end];
    SetsParts(order, if j <= |order| then j else 0);
    TornMSetIff(history, start, order, j);
    assert history[start..kept] == records[..j];
    assert history[kept..end] == records[j..];
    HeldSets(m, order[..j]);
    HeldSets(m, order[j..]);
  }

  lemma EnumeratedDistinct(order: seq<Entry>, kv: Store)
    requires Enumerates(order, kv)
    ensures DistinctKeys(order)
  {
  }

  lemma SetsParts(entries: seq<Entry>, j: nat)
    requires j <= |entries|
    ensures Sets(entries)[..j] == Sets(entries[..j]) && Sets(entries)[j..] == Sets(entries[j..])
    ensures |Sets(entries)| == |entries|
  {
  }

  lemma HeldSets(m: Store, entries: seq<Entry>)
    ensures Held(m, Sets(entries)) <==> HoldsAll(m, entries)
  {
    if Held(m, Sets(entries)) {
      forall i | 0 <= i < |entries| ensures Lookup(m, entries[i].0) == Some(entries[i].1) {
        assert Sets(entries)[i] == Op.Set(entries[i].0, entries[i].1);
      }
    }
  }

  /** What each policy makes of the file a crash leaves. */
  lemma SurvivorsReplay(file: bytes, history: seq<Op>, kept: nat, policy: CorruptionPolicy)
    requires Survives(file, history, kept)
    ensures file != [] && history[..kept] <= ReplaySpec(file, policy).0
    ensures ReplaySpec(file, policy).1.Err? <==> policy.Strict? && |file| != 4 + |EncodeAll(history[..kept])|
    ensures policy.Strict? || NoRecordFrom(file, 4 + |EncodeAll(history[..kept])|) ==>
            ReplaySpec(file, policy).0 == history[..kept]
  {
    hide EncodeAll; hide Scan; hide StrictScan; hide NoRecordFrom; hide TolerantOps;
  }

  /** A file in the current format under a tolerant policy. */
  lemma TolerantFile(content: bytes, s: bytes, policy: CorruptionPolicy)
    requires content == MAGIC + s && !policy.Strict?
    ensures content != [] && ReplaySpec(content, policy) == (Scan(s), Ok)
  {
    hide Scan; hide StrictScan;
    assert content[..4] == MAGIC && content[4..] == s;
  }

  /** An empty file, or one in the current format that replays without error. */
  ghost predicate CleanFile(content: bytes) {
    content == [] || (HasHeader(content) && content[..4] == MAGIC && ReplaySpec(content, Strict).1 == Ok)
  }

  /** The operations a clean file holds. */
  ghost function History(content: bytes): seq<Op> {
    if content == [] then [] else ReplaySpec(content, Strict).0
  }

  /** A clean file is a header and its operations, and every policy reads them all. */
  lemma CleanFileReplays(content: bytes, corruption: CorruptionPolicy)
    requires CleanFile(content)
    ensures var image := if content == [] then MAGIC else content;
            && ReplaySpec(image, corruption) == (History(content), Ok)
            && image == MAGIC + EncodeAll(History(content))
            && AllFit(History(content))
  {
    hide EncodeAll; hide Scan; hide StrictScan; hide AllFit;
    var ops := History(content);
    EncodeNone();
    EmptyReads();
    if content == [] {
      assert MAGIC[4..] == [] && MAGIC[..4] == MAGIC && MAGIC + [] == MAGIC;
      ScanDeliversFitting([]);
    } else {
      assert content == MAGIC + content[4..];
      StrictAcceptsWrittenLogs(content[4..]);
      ScanDeliversFitting(content[4..]);
      LogRoundTrip(ops);
    }
  }

  // ---- commands that log several records, cut in the middle ----

  /**
   A log that ends between the two records of a rename stands for the map before it or after it exactly
   when the target is another key that held the same value already. Otherwise the value is gone.
   */
  lemma TornRenameIff(history: seq<Op>, n: nat, from: bytes, to: bytes)
    requires 0 < n < |history|
    requires var m := Fold(map[], history[..n - 1]);
             from in m && history[n - 1] == Op.Del(from) && history[n] == Op.Set(to, m[from])
    ensures var m, torn := Fold(map[], history[..n - 1]), Fold(map[], history[..n]);
            && torn == m - {from}
            && Fold(map[], history[..n + 1]) == Moved(m, from, to)
            && (torn == m || torn == Moved(m, from, to) <==> SameValueElsewhere(m, from, to))
  {
    hide Fold;
    var m := Fold(map[], history[..n - 1]);
    assert history[..n] == history[..n - 1] + [Op.Del(from)];
    assert history[..n + 1] == history[..n] + [Op.Set(to, m[from])];
    FoldSnoc(map[], history[..n - 1], Op.Del(from));
    FoldSnoc(map[], history[..n], Op.Set(to, m[from]));
    HalfMoved(m, from, to);
  }

  /**
   A log that ends behind the first `j` records of an mset stands for the map before it exactly when the
   store held those entries already, and for the map after it exactly when it held all the others.
   */
  lemma TornMSetIff(history: seq<Op>, start: nat, order: seq<Entry>, j: nat)
    requires start + |order| <= |history| && j <= |order| && history[start..start + |order|] == Sets(order)
    requires DistinctKeys(order)
    ensures var m, torn := Fold(map[], history[..start]), Fold(map[], history[..start + j]);
            && (torn == m <==> HoldsAll(m, order[..j]))
            && (torn == Fold(map[], history[..start + |order|]) <==> HoldsAll(m, order[j..]))
            && Fold(map[], history[..start + |order|]) == PutAll(m, order)
  {
    hide *;
    var m := Fold(map[], history[..start]);
    FoldsTo(history, start, order, j);
    FoldsTo(history, start, order, |order|);
    Whole(order, j);
    PutPartly(m, order[..j], order[j..]);
  }

  lemma Whole(order: seq<Entry>, j: nat)
    requires j <= |order|
    ensures order[..|order|] == order && order[..j] + order[j..] == order
  {
  }

  /** Inserting the first of two groups of entries with distinct keys: the same as neither, or as both. */
  lemma PutPartly(m: Store, x: seq<Entry>, y: seq<Entry>)
    requires DistinctKeys(x + y)
    ensures PutAll(m, x) == m <==> HoldsAll(m, x)
    ensures PutAll(m, x) == PutAll(m, x + y) <==> HoldsAll(m, y)
  {
    hide *;
    PutAllConcat(m, x, y);
    HoldsApart(m, x, y);
    InsertingSameIff(m, x);
    InsertingSameIff(PutAll(m, x), y);
  }

  lemma FoldsTo(history: seq<Op>, start: nat, order: seq<Entry>, j: nat)
    requires start + |order| <= |history| && j <= |order| && history[start..start + |order|] == Sets(order)
    ensures Fold(map[], history[..start + j]) == PutAll(Fold(map[], history[..start]), order[..j])
  {
    hide Fold; hide PutAll;
    SetsPrefix(order, j);
    assert history[..start + j] == history[..start] + Sets(order)[..j] by {
      assert history[start..start + |order|][..j] == history[start..start + j];
    }
    FoldConcat(map[], history[..start], Sets(order)[..j]);
    FoldOfSets(Fold(map[], history[..start]), order[..j]);
  }

  /** Entries with other keys do not change whether these are held. */
  lemma HoldsApart(m: Store, x: seq<Entry>, y: seq<Entry>)
    requires DistinctKeys(x + y)
    ensures DistinctKeys(x) && DistinctKeys(y)
    ensures HoldsAll(PutAll(m, x), y) <==> HoldsAll(m, y)
  {
    hide PutAll;
    assert forall a :: 0 <= a < |x| ==> x[a] == (x + y)[a];
    assert forall b :: 0 <= b < |y| ==> y[b] == (x + y)[|x| + b];
    PutAllLookup(m, x);
    forall i | 0 <= i < |y| ensures Lookup(PutAll(m, x), y[i].0) == Lookup(m, y[i].0) {
      assert forall a :: 0 <= a < |x| ==> x[a] == (x + y)[a] && y[i] == (x + y)[|x| + i];
    }
  }

  /** The records of a move. */
  function MoveRecords(m: Store, from: bytes, to: bytes): seq<Op> {
    if from in m then [Op.Del(from), Op.Set(to, m[from])] else []
  }

  /** The target of a move is another key that holds the same value. */
  predicate SameValueElsewhere(m: Store, from: bytes, to: bytes) {
    from in m && from != to && to in m && m[to] == m[from]
  }

  lemma MoveRecordsAre(m: Store, from: bytes, to: bytes)
    requires from in m
    ensures MoveRecords(m, from, to) == [Op.Del(from), Op.Set(to, m[from])]
  {
  }

  lemma AllMoveRecords(m: Store, from: bytes, to: bytes)
    ensures MoveRecords(m, from, to)[..0] == []
    ensures |MoveRecords(m, from, to)| == if from in m then 2 else 0
    ensures from in m ==> MoveRecords(m, from, to)[..2] == MoveRecords(m, from, to)
    ensures from !in m ==> MoveRecords(m, from, to) == []
  {
  }

  lemma NoMoveRecords(m: Store, from: bytes, to: bytes, before: seq<Op>)
    ensures before + MoveRecords(m, from, to)[..0] == before
  {
  }

  lemma MovedTo(m: Store, from: bytes, to: bytes)
    requires from in m
    ensures Lookup(Moved(m, from, to), to) == Some(m[from])
  {
  }

  /** Half a move is a whole one exactly when the target held the value already; it is never none at all. */
  lemma HalfMoved(m: Store, from: bytes, to: bytes)
    requires from in m
    ensures Moved(m, from, to) == m - {from} <==> SameValueElsewhere(m, from, to)
    ensures m - {from} != m
  {
    assert Moved(m, from, to)[to] == m[from];
    if SameValueElsewhere(m, from, to) {
      assert (m - {from})[to] == m[from];
    }
  }

  lemma PutSame(m: Store, key: bytes, value: bytes)
    ensures m[key := value] == m <==> Lookup(m, key) == Some(value)
  {
    assert m[key := value][key] == value;
  }

  lemma SetsPrefix(entries: seq<Entry>, n: nat)
    requires n <= |entries|
    ensures Sets(entries)[..n] == Sets(entries[..n])
  {
  }

  /** Deduplicated entries are among the given ones. */
  lemma {:induction false} DeduplicatedFrom(entries: seq<Entry>, k: bytes)
    requires k in PutAll(map[], entries)
    ensures exists i :: 0 <= i < |entries| && entries[i] == (k, PutAll(map[], entries)[k])
    decreases |entries|
  {
    if entries != [] {
      var init, last := entries[..|entries| - 1], entries[|entries| - 1];
      assert entries == init + [last];
      PutAllSnoc(map[], init, last);
      if last.0 == k {
        assert entries[|init|] == (k, PutAll(map[], entries)[k]);
      } else {
        DeduplicatedFrom(init, k);
        var i :| 0 <= i < |init| && init[i] == (k, PutAll(map[], init)[k]);
        assert entries[i] == init[i];
      }
    }
  }

  lemma DeduplicatedFits(entries: seq<Entry>, order: seq<Entry>)
    requires AllFit(Sets(entries)) && Enumerates(order, PutAll(map[], entries))
    ensures AllFit(Sets(order))
  {
    hide PutAll;
    forall i | 0 <= i < |order| ensures Fits(Sets(order)[i]) {
      DeduplicatedFrom(entries, order[i].0);
      var j :| 0 <= j < |entries| && entries[j] == order[i];
      assert Sets(entries)[j] == Sets(order)[i];
    }
  }

  /** Inserting entries without duplicate keys changes nothing exactly when they are all there already. */
  lemma InsertingSameIff(m: Store, entries: seq<Entry>)
    requires DistinctKeys(entries)
    ensures PutAll(m, entries) == m <==> HoldsAll(m, entries)
  {
    hide PutAll;
    PutAllLookup(m, entries);
    var r := PutAll(m, entries);
    if HoldsAll(m, entries) {
      forall k ensures (k in r <==> k in m) && (k in r ==> r[k] == m[k]) {
        if i :| 0 <= i < |entries| && entries[i].0 == k {
          assert Lookup(m, entries[i].0) == Some(entries[i].1);
        }
      }
    }
  }

  lemma PutAllSameIff(m: Store, order: seq<Entry>, n: nat)
    requires n <= |order| && exists kv :: Enumerates(order, kv)
    ensures PutAll(m, order[..n]) == m <==> HoldsAll(m, order[..n])
  {
    hide PutAll; hide HoldsAll;
    InsertingSameIff(m, order[..n]);
  }

  lemma RunNothing(m: Store, cs: seq<Command>, metrics: bool)
    ensures Run(m, cs[..0], metrics) == (m, [])
  {
  }

  lemma RunSnoc(m: Store, cs: seq<Command>, i: nat, metrics: bool)
    requires i < |cs|
    ensures var (m', rs) := Run(m, cs[..i], metrics);
            var (m'', r) := Step(m', cs[i], metrics);
            Run(m, cs[..i + 1], metrics) == (m'', rs + [r])
  {
    assert cs[..i + 1] == cs[..i] + [cs[i]];
    RunAppend(m, cs[..i], cs[i], metrics);
  }

  lemma {:induction false} RunAppend(m: Store, cs: seq<Command>, c: Command, metrics: bool)
    ensures var (m', rs) := Run(m, cs, metrics);
            var (m'', r) := Step(m', c, metrics);
            Run(m, cs + [c], metrics) == (m'', rs + [r])
    decreases |cs|
  {
    hide Step;
    if cs == [] {
      assert cs + [c] == [c] && [c][1..] == [];
      var (m', r) := Step(m, c, metrics);
      assert Run(m', [], metrics) == (m', []);
      assert [r] + [] == [] + [r];
    } else {
      assert (cs + [c])[1..] == cs[1..] + [c];
      var (m', r) := Step(m, cs[0], metrics);
      RunAppend(m', cs[1..], c, metrics);
      ConcatAssociative([r], Run(m', cs[1..], metrics).1, [Step(Run(m', cs[1..], metrics).0, c, metrics).1]);
    }
  }

  lemma FoldOne(m: Store, op: Op)
    ensures Fold(m, [op]) == Apply(m, op)
  {
    assert [op][1..] == [];
  }

  lemma HeaderSpec(content: bytes, corruption: CorruptionPolicy)
    ensures content != [] && !HasHeader(content) ==> ReplaySpec(content, corruption).1.Err?
    ensures HasHeader(MAGIC)
  {
  }

  lemma FoldNothing(m: Store, ops: seq<Op>)
    ensures Fold(m, ops[..0]) == m
  {
  }

  lemma ApplyIs(m: Store, op: Op)
    ensures Apply(m, op) == if op.Set? then m[op.key := op.value] else m - {op.key}
  {
  }
}
