/** Snapshots and log compaction: the whole index written out, read back, and rewritten as a log. */
module Snapshots {
  import opened Bytes
  import opened AofFormat
  import opened Aof1Format
  import opened KeyValue
  import opened Slices
  import opened Sharding
  import opened Aof

  const SNAP: bytes := [0x53, 0x4E, 0x41, 0x50]
  const U64_LIMIT := 0x1_0000_0000_0000_0000

  // ---- the file ----

  function EncodeEntry(e: Entry): bytes {
    Field(e.0) + Field(e.1)
  }

  function EncodeEntries(entries: seq<Entry>): bytes {
    if entries == [] then [] else EncodeEntry(entries[0]) + EncodeEntries(entries[1..])
  }

  /** Magic, timestamp, key count, entries. */
  function SnapshotFile(timestamp: u64, entries: seq<Entry>): bytes {
    SNAP + PutU64(timestamp) + PutU64(|entries| % U64_LIMIT) + EncodeEntries(entries)
  }

  predicate EntryFits(e: Entry) {
    |e.0| < U32_LIMIT && |e.1| < U32_LIMIT
  }

  predicate EntriesFit(entries: seq<Entry>) {
    |entries| < U64_LIMIT && forall i :: 0 <= i < |entries| ==> EntryFits(entries[i])
  }

  /** Entries inserted before the end or the first failed read, and which of the two it was. */
  datatype Loaded = Loaded(entries: seq<Entry>, complete: bool)

  /** One entry off the front of the remaining bytes. */
  function ReadEntry(s: bytes): (r: Option<(Entry, nat)>)
    ensures r.Some? ==> r.value.1 <= |s|
  {
    if |s| < 4 then None else
    var afterKey := 4 + U32At(s, 0);
    if |s| < afterKey + 4 then None else
    var afterValue := afterKey + 4 + U32At(s, afterKey);
    if |s| < afterValue then None else
    Some(((s[4..afterKey], s[afterKey + 4..afterValue]), afterValue))
  }

  function ReadEntries(s: bytes, count: nat): Loaded
    decreases count
  {
    if count == 0 then Loaded([], true) else
    var r := ReadEntry(s);
    if r.None? then Loaded([], false) else
    var rest := ReadEntries(s[r.value.1..], count - 1);
    Loaded([r.value.0] + rest.entries, rest.complete)
  }

  /** What `load_snapshot` makes of any file content. */
  function LoadSpec(content: bytes): Loaded {
    if |content| < 20 || content[..4] != SNAP then Loaded([], false)
    else ReadEntries(content[20..], GetU64(content[12..20]))
  }

  // ---- writing and reading are inverse, and torn files fail cleanly ----

  lemma EntryIsRead(e: Entry, rest: bytes)
    requires EntryFits(e)
    ensures ReadEntry(EncodeEntry(e) + rest) == Some((e, |EncodeEntry(e)|))
    ensures (EncodeEntry(e) + rest)[|EncodeEntry(e)|..] == rest
  {
    hide PutU32; hide GetU32;
    var s := EncodeEntry(e) + rest;
    ConcatAssociative(Field(e.0), Field(e.1), rest);
    assert s[0..] == s;
    FieldAt(s, 0, e.0, Field(e.1) + rest);
    FieldAt(s, 4 + |e.0|, e.1, rest);
  }

  lemma CutEntryFails(e: Entry, r: nat)
    requires EntryFits(e) && r < |EncodeEntry(e)|
    ensures ReadEntry(EncodeEntry(e)[..r]) == None
  {
    hide PutU32; hide GetU32;
    var s := EncodeEntry(e);
    assert s + [] == s;
    assert s[0..] == Field(e.0) + Field(e.1);
    assert Field(e.1) + [] == Field(e.1);
    FieldAt(s, 0, e.0, Field(e.1));
    FieldAt(s, 4 + |e.0|, e.1, []);
    if r >= 4 {
      U32Prefix(s, r, 0);
      if r >= 8 + |e.0| {
        U32Prefix(s, r, 4 + |e.0|);
      }
    }
  }

  lemma {:induction false} EntriesAreRead(entries: seq<Entry>, rest: bytes)
    requires forall i :: 0 <= i < |entries| ==> EntryFits(entries[i])
    ensures ReadEntries(EncodeEntries(entries) + rest, |entries|) == Loaded(entries, true)
    decreases |entries|
  {
    hide ReadEntry; hide EncodeEntry; hide EntryFits;
    if entries != [] {
      var head, tail := entries[0], entries[1..];
      ConcatAssociative(EncodeEntry(head), EncodeEntries(tail), rest);
      EntryIsRead(head, EncodeEntries(tail) + rest);
      EntriesAreRead(tail, rest);
      assert entries == [head] + tail;
    }
  }

  /** How many leading entries lie wholly inside the first `cut` bytes. */
  function WholeEntries(entries: seq<Entry>, cut: nat): (n: nat)
    ensures n <= |entries|
    decreases |entries|
  {
    if entries == [] || |EncodeEntry(entries[0])| > cut then 0
    else 1 + WholeEntries(entries[1..], cut - |EncodeEntry(entries[0])|)
  }

  lemma EndStep(entries: seq<Entry>, n: nat)
    requires 0 < n <= |entries|
    ensures entries[..n] == [entries[0]] + entries[1..][..n - 1]
    ensures |EncodeEntries(entries[..n])| == |EncodeEntry(entries[0])| + |EncodeEntries(entries[1..][..n - 1])|
  {
    hide EncodeEntry;
    assert entries[..n][1..] == entries[1..][..n - 1];
  }

  /** Cut anywhere short of the end, the entries fail to load, having loaded exactly those wholly inside the cut. */
  lemma {:induction false} CutEntriesFail(entries: seq<Entry>, cut: nat)
    requires (forall i :: 0 <= i < |entries| ==> EntryFits(entries[i])) && cut < |EncodeEntries(entries)|
    ensures var n := WholeEntries(entries, cut);
            && n < |entries|
            && ReadEntries(EncodeEntries(entries)[..cut], |entries|) == Loaded(entries[..n], false)
            && |EncodeEntries(entries[..n])| <= cut < |EncodeEntries(entries[..n + 1])|
    decreases |entries|
  {
    hide ReadEntry; hide EncodeEntry; hide EntryFits;
    var head, tail := entries[0], entries[1..];
    var s := EncodeEntries(entries)[..cut];
    var size := |EncodeEntry(head)|;
    if cut < size {
      assert s == EncodeEntry(head)[..cut];
      CutEntryFails(head, cut);
      EndStep(entries, 1);
      assert tail[..0] == [];
    } else {
      var t := EncodeEntries(tail)[..cut - size];
      assert s == EncodeEntry(head) + t;
      EntryIsRead(head, t);
      CutEntriesFail(tail, cut - size);
      var n := WholeEntries(entries, cut);
      EndStep(entries, n);
      EndStep(entries, n + 1);
    }
  }

  lemma FileParts(timestamp: u64, entries: seq<Entry>)
    requires |entries| < U64_LIMIT
    ensures var f := SnapshotFile(timestamp, entries);
            && |f| == 20 + |EncodeEntries(entries)| && f[..4] == SNAP
            && GetU64(f[12..20]) == |entries| && f[20..] == EncodeEntries(entries)
  {
    hide PutU64; hide GetU64; hide EncodeEntries;
    var f := SnapshotFile(timestamp, entries);
    U64RoundTrip(|entries|);
    assert f[12..20] == PutU64(|entries|);
    assert f[20..] == EncodeEntries(entries);
  }

  /** A complete snapshot loads back entry for entry. */
  lemma SnapshotRoundTrip(timestamp: u64, entries: seq<Entry>)
    requires EntriesFit(entries)
    ensures LoadSpec(SnapshotFile(timestamp, entries)) == Loaded(entries, true)
  {
    hide SnapshotFile; hide EncodeEntries; hide ReadEntries; hide GetU64; hide EntryFits;
    FileParts(timestamp, entries);
    EntriesAreRead(entries, []);
    assert EncodeEntries(entries) + [] == EncodeEntries(entries);
  }

  /**
   Loaded into an empty index, whatever its shard count and hash seed, a snapshot restores the map it was
   taken of.
   */
  lemma SnapshotRestores(timestamp: u64, entries: seq<Entry>, m: Store)
    requires Enumerates(entries, m) && EntriesFit(entries)
    ensures var loaded := LoadSpec(SnapshotFile(timestamp, entries));
            loaded.complete && PutAll(map[], loaded.entries) == m
  {
    SnapshotRoundTrip(timestamp, entries);
    EnumerationRebuilds(entries, m);
  }

  /** A torn snapshot is always refused, having put exactly the entries wholly inside the cut into the index. */
  lemma TornSnapshot(timestamp: u64, entries: seq<Entry>, cut: nat)
    requires EntriesFit(entries) && cut < |SnapshotFile(timestamp, entries)|
    ensures var n := if cut < 20 then 0 else WholeEntries(entries, cut - 20);
            && LoadSpec(SnapshotFile(timestamp, entries)[..cut]) == Loaded(entries[..n], false)
            && (cut >= 20 ==>
                  n < |entries| && 20 + |EncodeEntries(entries[..n])| <= cut < 20 + |EncodeEntries(entries[..n + 1])|)
  {
    hide SnapshotFile; hide EncodeEntries; hide ReadEntries; hide GetU64; hide EntryFits;
    FileParts(timestamp, entries);
    if cut >= 20 {
      var f := SnapshotFile(timestamp, entries);
      var s := f[..cut];
      assert s[..4] == f[..4] && s[12..20] == f[12..20] && s[20..] == f[20..][..cut - 20];
      CutEntriesFail(entries, cut - 20);
    }
  }

  /** Bytes behind a complete snapshot are not looked at. */
  lemma SnapshotThenMore(timestamp: u64, entries: seq<Entry>, rest: bytes)
    requires EntriesFit(entries)
    ensures LoadSpec(SnapshotFile(timestamp, entries) + rest) == Loaded(entries, true)
  {
    hide SnapshotFile; hide EncodeEntries; hide ReadEntries; hide GetU64; hide EntryFits;
    FileParts(timestamp, entries);
    EntriesAreRead(entries, rest);
    var f := SnapshotFile(timestamp, entries);
    var s := f + rest;
    assert s[..4] == f[..4] && s[12..20] == f[12..20] && s[20..] == f[20..] + rest;
  }

  lemma EntryIsWritten(s: bytes)
    requires ReadEntry(s).Some?
    ensures var (e, n) := ReadEntry(s).value;
            EntryFits(e) && s == EncodeEntry(e) + s[n..]
  {
    hide PutU32; hide GetU32; hide Field;
    var k: nat := U32At(s, 0);
    var key, value, n := s[4..4 + k], ReadEntry(s).value.0.1, ReadEntry(s).value.1;
    FieldFromBytes(s[0..4], key);
    FieldFromBytes(s[4 + k..8 + k], value);
    assert s == (s[0..4] + key) + (s[4 + k..8 + k] + value) + s[n..];
  }

  lemma {:induction false} EntriesAreWritten(s: bytes, count: nat) returns (rest: bytes)
    requires ReadEntries(s, count).complete
    ensures var entries := ReadEntries(s, count).entries;
            && |entries| == count && (forall i :: 0 <= i < count ==> EntryFits(entries[i]))
            && s == EncodeEntries(entries) + rest
    decreases count
  {
    hide ReadEntry; hide EncodeEntry; hide EntryFits;
    if count == 0 {
      rest := s;
    } else {
      var (e, n) := ReadEntry(s).value;
      EntryIsWritten(s);
      rest := EntriesAreWritten(s[n..], count - 1);
      var tail := ReadEntries(s[n..], count - 1).entries;
      assert ([e] + tail)[1..] == tail;
      ConcatAssociative(EncodeEntry(e), EncodeEntries(tail), rest);
    }
  }

  /** A file loads exactly when it begins with a snapshot, and what is loaded is what that snapshot holds. */
  lemma LoadsWhatWasWritten(content: bytes)
    ensures LoadSpec(content).complete <==>
              exists timestamp, entries, rest ::
                EntriesFit(entries) && content == SnapshotFile(timestamp, entries) + rest
    ensures LoadSpec(content).complete ==>
              exists timestamp, rest :: content == SnapshotFile(timestamp, LoadSpec(content).entries) + rest
  {
    hide LoadSpec; hide SnapshotFile; hide EntriesFit;
    if timestamp, entries, rest :| EntriesFit(entries) && content == SnapshotFile(timestamp, entries) + rest {
      SnapshotThenMore(timestamp, entries, rest);
    }
    if LoadSpec(content).complete {
      var timestamp, rest := LoadedFrom(content);
    }
  }

  lemma LoadedFrom(content: bytes) returns (timestamp: u64, rest: bytes)
    requires LoadSpec(content).complete
    ensures EntriesFit(LoadSpec(content).entries)
    ensures content == SnapshotFile(timestamp, LoadSpec(content).entries) + rest
  {
    hide PutU64; hide GetU64; hide EncodeEntries; hide ReadEntries; hide EntryFits;
    timestamp := GetU64(content[4..12]);
    var count := GetU64(content[12..20]);
    rest := EntriesAreWritten(content[20..], count);
    U64BytesRoundTrip(content[4..12]);
    U64BytesRoundTrip(content[12..20]);
    var entries := LoadSpec(content).entries;
    assert |entries| % U64_LIMIT == count;
    assert content == content[..4] + content[4..12] + content[12..20] + content[20..];
    ConcatAssociative(SNAP + PutU64(timestamp) + PutU64(count), EncodeEntries(entries), rest);
  }

  /** A whole snapshot of one entry: "SNAP", timestamp 1, one entry, key and value with their lengths. */
  lemma ExampleSnapshot()
    ensures SnapshotFile(1, [([0x61], [0x62])])
         == [0x53, 0x4E, 0x41, 0x50] + [0, 0, 0, 0, 0, 0, 0, 1] + [0, 0, 0, 0, 0, 0, 0, 1]
            + (([0, 0, 0, 1] + [0x61]) + ([0, 0, 0, 1] + [0x62]))
  {
    ExampleWords();
    ExampleLong();
    hide PutU32; hide PutU64;
    var e: Entry := ([0x61], [0x62]);
    assert [e][1..] == [];
    assert EncodeEntries([e]) == EncodeEntry(e) + [] == EncodeEntry(e);
  }

  lemma ExampleLong()
    ensures PutU64(1) == [0, 0, 0, 0, 0, 0, 0, 1]
  {
    ExampleWords();
    hide PutU32;
  }

  // ---- walking the shards ----

  lemma EnumerationSize(entries: seq<Entry>, m: Store)
    requires Enumerates(entries, m)
    ensures |entries| == |m|
  {
    var keys := seq(|entries|, i requires 0 <= i < |entries| => entries[i].0);
    DistinctSize(keys);
    assert (set k | k in keys) == m.Keys by {
      forall k | k in m.Keys ensures k in keys {
        var i :| 0 <= i < |entries| && entries[i].0 == k;
        assert keys[i] == k;
      }
    }
  }

  lemma {:induction false} DistinctSize(keys: seq<bytes>)
    requires forall i, j :: 0 <= i < j < |keys| ==> keys[i] != keys[j]
    ensures |set k | k in keys| == |keys|
    decreases |keys|
  {
    if keys != [] {
      var init, last := keys[..|keys| - 1], keys[|keys| - 1];
      DistinctSize(init);
      assert keys == init + [last];
      assert (set k | k in keys) == (set k | k in init) + {last};
    }
  }

  /** Every shard's entries gathered into one hash map, each counted as it is seen. */
  method CollectShards(index: ShardedIndex) returns (all: Store, total: nat)
    requires index.Valid()
    ensures all == index.contents
    ensures total == |index.contents|
  {
    hide Slice; hide Below; hide SliceSizes; hide PutAll; hide ShardedIndex.Route; hide ShardFor; hide Enumerates;
    all, total := map[], 0;
    NothingCollected(index.contents, index.Route());
    for i := 0 to index.n
      invariant all == Below(index.contents, index.Route(), i)
      invariant total == SliceSizes(index.contents, index.Route(), i)
    {
      var entries := AofLog.Enumerate(index.data[i]);
      ShardCollected(index.contents, index.Route(), i, entries);
      all := InsertAll(all, entries);
      total := total + |entries|;
    }
    index.AllRouted();
    SlicesCover(index.contents, index.Route(), index.n);
    BelowAll(index.contents, index.Route(), index.n);
  }

  /** Adding the entries of one more shard. */
  lemma ShardCollected(m: Store, route: Router, i: nat, entries: seq<Entry>)
    requires Enumerates(entries, Slice(m, route, i))
    ensures PutAll(Below(m, route, i), entries) == Below(m, route, i + 1)
    ensures SliceSizes(m, route, i) + |entries| == SliceSizes(m, route, i + 1)
  {
    hide Slice; hide Below; hide PutAll; hide Enumerates;
    EnumerationSize(entries, Slice(m, route, i));
    EnumerationOverlays(entries, Slice(m, route, i), Below(m, route, i));
    BelowNext(m, route, i);
  }

  lemma NothingCollected(m: Store, route: Router)
    ensures Below(m, route, 0) == map[] && SliceSizes(m, route, 0) == 0
  {
  }

  lemma BelowNext(m: Store, route: Router, i: nat)
    ensures Below(m, route, i) + Slice(m, route, i) == Below(m, route, i + 1)
  {
  }

  lemma BelowAll(m: Store, route: Router, n: nat)
    requires forall k :: route(k) < n
    ensures Below(m, route, n) == m
  {
  }

  /** `create_snapshot`: the count in the header is the number of entries, because no key is in two shards. */
  method CreateSnapshot(index: ShardedIndex, timestamp: u64)
    returns (file: bytes, keyCount: nat, ghost entries: seq<Entry>)
    requires index.Valid()
    ensures keyCount == |index.contents|
    ensures Enumerates(entries, index.contents)
    ensures file == SnapshotFile(timestamp, entries)
  {
    hide Enumerates; hide EncodeEntry; hide PutU64; hide ShardedIndex.Valid;
    var all, total := CollectShards(index);
    var order := AofLog.Enumerate(all);
    EnumerationSize(order, all);
    file := SNAP + PutU64(timestamp) + PutU64(total % U64_LIMIT);
    ghost var header := file;
    assert order[..0] == [] && header + [] == header;
    for i := 0 to |order|
      invariant file == header + EncodeEntries(order[..i])
    {
      assert order[..i + 1] == order[..i] + [order[i]];
      EncodeEntriesSnoc(order[..i], order[i]);
      ConcatAssociative(header, EncodeEntries(order[..i]), EncodeEntry(order[i]));
      file := file + EncodeEntry(order[i]);
    }
    assert order[..|order|] == order;
    keyCount, entries := total, order;
  }

  lemma {:induction false} EncodeEntriesSnoc(entries: seq<Entry>, e: Entry)
    ensures EncodeEntries(entries + [e]) == EncodeEntries(entries) + EncodeEntry(e)
    decreases |entries|
  {
    hide EncodeEntry;
    if entries == [] {
      assert entries + [e] == [e] && [e][1..] == [];
    } else {
      assert (entries + [e])[1..] == entries[1..] + [e];
      EncodeEntriesSnoc(entries[1..], e);
      ConcatAssociative(EncodeEntry(entries[0]), EncodeEntries(entries[1..]), EncodeEntry(e));
    }
  }

  /** `load_snapshot` on any content: entries go into the index one by one until the count is met or a read fails. */
  method LoadSnapshot(content: bytes, index: ShardedIndex) returns (ok: bool, loaded: nat)
    requires index.Valid()
    modifies index
    ensures index.Valid()
    ensures ok == LoadSpec(content).complete && loaded == |LoadSpec(content).entries|
    ensures index.contents == PutAll(old(index.contents), LoadSpec(content).entries)
  {
    hide ReadEntry; hide ReadEntries; hide PutAll; hide ShardedIndex.Valid; hide GetU64;
    loaded := 0;
    PutNone(index.contents);
    if |content| < 4 || content[..4] != SNAP || |content| < 12 || |content| < 20 {
      return false, 0;
    }
    var count := GetU64(content[12..20]);
    var pos := 20;
    ghost var seen: seq<Entry> := [];
    ghost var spec := LoadSpec(content);
    for i := 0 to count
      invariant 20 <= pos <= |content| && loaded == |seen| && index.Valid()
      invariant index.contents == PutAll(old(index.contents), seen)
      invariant var rest := ReadEntries(content[pos..], count - i);
                spec == Loaded(seen + rest.entries, rest.complete)
    {
      UnfoldRead(content[pos..], count - i);
      var r := ReadEntry(content[pos..]);
      if r.None? {
        assert seen + [] == seen;
        return false, loaded;
      }
      var e := r.value.0;
      assert content[pos..][r.value.1..] == content[pos + r.value.1..];
      ConcatAssociative(seen, [e], ReadEntries(content[pos + r.value.1..], count - i - 1).entries);
      PutAllSnoc(old(index.contents), seen, e);
      var _ := index.Insert(e.0, e.1);
      seen := seen + [e];
      loaded := loaded + 1;
      pos := pos + r.value.1;
    }
    ReadZero(content[pos..]);
    assert seen + [] == seen;
    ok := true;
  }

  lemma UnfoldRead(s: bytes, count: nat)
    requires count > 0
    ensures var r := ReadEntry(s);
            ReadEntries(s, count) ==
              if r.None? then Loaded([], false)
              else var rest := ReadEntries(s[r.value.1..], count - 1); Loaded([r.value.0] + rest.entries, rest.complete)
  {
  }

  lemma ReadZero(s: bytes)
    ensures ReadEntries(s, 0) == Loaded([], true)
  {
  }

  /** `perform_compaction`: the whole index as SET records in the old format. */
  method PerformCompaction(index: ShardedIndex) returns (file: bytes, ghost order: seq<Entry>)
    requires index.Valid()
    ensures Enumerates(order, index.contents)
    ensures file == MAGIC1 + EncodeAll1(Sets(order))
  {
    hide Enumerates; hide Encode1; hide ShardedIndex.Valid; hide Sets; hide EncodeAll1;
    var all, _ := CollectShards(index);
    var live := AofLog.Enumerate(all);
    file := MAGIC1;
    SetsSnoc(live, 0);
    EncodeNone1();
    for i := 0 to |live|
      invariant file == MAGIC1 + EncodeAll1(Sets(live[..i]))
    {
      var op := Set(live[i].0, live[i].1);
      SetsSnoc(live, i);
      EncodeAll1Snoc(Sets(live[..i]), op);
      ConcatAssociative(MAGIC1, EncodeAll1(Sets(live[..i])), Encode1(op));
      file := file + Encode1(op);
    }
    assert live[..|live|] == live;
    order := live;
  }

  lemma EncodeNone1()
    ensures EncodeAll1([]) == [] && MAGIC1 + [] == MAGIC1
  {
  }

  lemma {:induction false} EncodeAll1Snoc(ops: seq<Op>, op: Op)
    ensures EncodeAll1(ops + [op]) == EncodeAll1(ops) + Encode1(op)
    decreases |ops|
  {
    hide Encode1;
    if ops == [] {
      assert ops + [op] == [op] && [op][1..] == [];
    } else {
      assert (ops + [op])[1..] == ops[1..] + [op];
      EncodeAll1Snoc(ops[1..], op);
      ConcatAssociative(Encode1(ops[0]), EncodeAll1(ops[1..]), Encode1(op));
    }
  }

  /** A compacted log, in the old format, replays under every policy to exactly the map it was made from. */
  lemma CompactionRoundTrip(order: seq<Entry>, m: Store, policy: CorruptionPolicy)
    requires Enumerates(order, m) && EntriesFit(order)
    ensures ReplaySpec(MAGIC1 + EncodeAll1(Sets(order)), policy) == (Sets(order), Ok)
    ensures Fold(map[], Sets(order)) == m
  {
    hide EncodeAll1; hide Strict1; hide Tolerant1; hide Enumerates; hide Fold;
    assert AllFit(Sets(order)) by {
      assert forall i :: 0 <= i < |order| ==> EntryFits(order[i]);
    }
    LogRoundTrip1(Sets(order));
    EnumerationRebuilds(order, m);
    var f := MAGIC1 + EncodeAll1(Sets(order));
    assert f[..4] == MAGIC1 && f[4..] == EncodeAll1(Sets(order)) && MAGIC1 != MAGIC by {
      assert MAGIC[3] != MAGIC1[3];
    }
  }
}
