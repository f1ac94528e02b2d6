/** Hash slots: which slot a key falls into, which shard serves a slot, and how migrations change that. */
module Slots {
  import opened Bytes
  import Crc16

  const TOTAL_SLOTS := 16384
  const HOT_KEY_THRESHOLD := 100
  const MIGRATION_BATCH_SIZE := 64
  const OPEN_BRACE: byte := 0x7B
  const CLOSE_BRACE: byte := 0x7D

  type SlotId = s: int | 0 <= s < 0x1_0000

  // ---- from key to slot ----

  /** `str::find` of one character. */
  function Find(s: bytes, c: byte): (r: Option<nat>)
    ensures r.Some? ==> r.value < |s| && s[r.value] == c && c !in s[..r.value]
    ensures r.None? <==> c !in s
  {
    if s == [] then None
    else if s[0] == c then Some(0)
    else
      var r := Find(s[1..], c);
      assert s == [s[0]] + s[1..];
      if r.None? then None else assert s[..r.value + 1] == [s[0]] + s[1..][..r.value]; Some(r.value + 1)
  }

  /** The part of a key that is hashed: a non-empty `{tag}` if there is one, otherwise the whole key. */
  function HashPart(key: bytes): bytes {
    var start := Find(key, OPEN_BRACE);
    if start.None? then key else
    var after := key[start.value + 1..];
    var end := Find(after, CLOSE_BRACE);
    if end.None? || end.value == 0 then key else after[..end.value]
  }

  /** The slot of a key: the CRC-16 remainder of its hashed part, modulo the number of slots. */
  function SlotOf(key: bytes): (slot: nat)
    ensures slot < TOTAL_SLOTS
  {
    (Crc16.Checksum(HashPart(key)) as int) % TOTAL_SLOTS
  }

  /** The first open brace is at `i`, and the first closing one behind it at `j`. */
  predicate TagAt(key: bytes, i: nat, j: nat) {
    && i < j < |key| && key[i] == OPEN_BRACE && OPEN_BRACE !in key[..i]
    && key[j] == CLOSE_BRACE && CLOSE_BRACE !in key[i + 1..j]
  }

  /** The slot some bytes hash to. */
  function HashSlot(s: bytes): int {
    (Crc16.Checksum(s) as int) % 16384
  }

  /** What `HashPart` takes out of a key. */
  lemma HashPartIs(key: bytes, i: nat, j: nat)
    requires TagAt(key, i, j)
    ensures HashPart(key) == if i + 1 < j then key[i + 1..j] else key
  {
    hide Find;
    var before, tag, after := key[..i], key[i + 1..j], key[j + 1..];
    assert key == before + [OPEN_BRACE] + (tag + [CLOSE_BRACE] + after);
    FindFirst(before, OPEN_BRACE, tag + [CLOSE_BRACE] + after);
    assert key[i + 1..] == tag + [CLOSE_BRACE] + after;
    FindFirst(tag, CLOSE_BRACE, after);
    assert key[i + 1..][..|tag|] == tag;
  }

  /** A part other than the whole key is a tag. */
  lemma HashPartTag(key: bytes)
    requires HashPart(key) != key
    ensures exists i, j :: TagAt(key, i, j) && i + 1 < j
  {
    var i := Find(key, OPEN_BRACE).value;
    var after := key[i + 1..];
    var end := Find(after, CLOSE_BRACE).value;
    assert after[..end] == key[i + 1..i + 1 + end];
    assert TagAt(key, i, i + 1 + end);
  }

  /** Which part of a key decides its slot: the tag if there is one with something in it, else all of it. */
  lemma SlotCases(key: bytes)
    ensures forall i: nat, j: nat :: TagAt(key, i, j) && i + 1 < j ==> SlotOf(key) == HashSlot(key[i + 1..j])
    ensures (forall i: nat, j: nat :: TagAt(key, i, j) ==> i + 1 == j) ==> SlotOf(key) == HashSlot(key)
    ensures OPEN_BRACE !in key || CLOSE_BRACE !in key ==> SlotOf(key) == HashSlot(key)
  {
    hide Crc16.Checksum; hide HashPart;
    forall i: nat, j: nat | TagAt(key, i, j) && i + 1 < j ensures SlotOf(key) == HashSlot(key[i + 1..j]) {
      HashPartIs(key, i, j);
    }
    if HashPart(key) != key {
      HashPartTag(key);
    }
  }

  /** The slot of "123456789". */
  lemma KnownSlot()
    ensures SlotOf([0x31, 0x32, 0x33, 0x34, 0x35, 0x36, 0x37, 0x38, 0x39]) == 12739
  {
    hide SlotOf; hide Crc16.Checksum;
    Crc16.KnownValue();
    SlotCases([0x31, 0x32, 0x33, 0x34, 0x35, 0x36, 0x37, 0x38, 0x39]);
  }

  /**
   `calculate_slot`: the checksum of the whole key modulo 16384, unless the first open brace is closed behind
   something; then of what stands between the two.
   */
  method CalculateSlot(key: bytes) returns (slot: nat)
    ensures slot == SlotOf(key) < TOTAL_SLOTS
    ensures forall i: nat, j: nat :: TagAt(key, i, j) && i + 1 < j ==> slot == HashSlot(key[i + 1..j])
    ensures (forall i: nat, j: nat :: TagAt(key, i, j) ==> i + 1 == j) ==> slot == HashSlot(key)
    ensures OPEN_BRACE !in key || CLOSE_BRACE !in key ==> slot == HashSlot(key)
  {
    SlotCases(key);
    hide Crc16.Checksum; hide TagAt; hide HashSlot;
    var crc := Crc16.ChecksumOf(HashPart(key));
    slot := (crc as int) % TOTAL_SLOTS;
  }

  lemma FindFirst(before: bytes, c: byte, after: bytes)
    requires c !in before
    ensures Find(before + [c] + after, c) == Some(|before|)
  {
    var s := before + [c] + after;
    assert s[|before|] == c;
    assert forall i :: 0 <= i < |before| ==> s[i] == before[i];
    assert c in s;
    var r := Find(s, c).value;
  }

  /** The first brace pair with something in it is the tag, and the tag alone decides the slot. */
  lemma TaggedKey(before: bytes, tag: bytes, after: bytes)
    requires OPEN_BRACE !in before && CLOSE_BRACE !in tag && tag != []
    ensures HashPart(before + [OPEN_BRACE] + (tag + [CLOSE_BRACE] + after)) == tag
  {
    var rest := tag + [CLOSE_BRACE] + after;
    var key := before + [OPEN_BRACE] + rest;
    FindFirst(before, OPEN_BRACE, rest);
    assert key[|before| + 1..] == rest;
    FindFirst(tag, CLOSE_BRACE, after);
    assert rest[..|tag|] == tag;
  }

  /** Keys with the same non-empty hash tag share a slot. */
  lemma SameTagSameSlot(b1: bytes, a1: bytes, b2: bytes, a2: bytes, tag: bytes)
    requires OPEN_BRACE !in b1 && OPEN_BRACE !in b2 && CLOSE_BRACE !in tag && tag != []
    ensures SlotOf(b1 + [OPEN_BRACE] + (tag + [CLOSE_BRACE] + a1))
            == SlotOf(b2 + [OPEN_BRACE] + (tag + [CLOSE_BRACE] + a2))
  {
    TaggedKey(b1, tag, a1);
    TaggedKey(b2, tag, a2);
  }

  // ---- from slot to shard ----

  datatype SlotState =
    | Stable(shard: nat)
    | Migrating(from: nat, to: nat)
    | Importing(from: nat, to: nat)

  /** Who serves a slot: a migrating one is still served by its source. */
  function Owner(s: SlotState): nat {
    match s
    case Stable(shard) => shard
    case Migrating(from, _) => from
    case Importing(_, to) => to
  }

  datatype Task = Task(from: nat, to: nat)
  datatype Migration = Migration(slot: SlotId, from: nat, to: nat)
  datatype Outcome = Accepted | MigrationActive | InvalidSlot | NoActiveMigration

  /** A planned migration names a stable slot and its current owner. */
  predicate Planned(slots: seq<SlotState>, m: Migration) {
    m.slot < |slots| && slots[m.slot] == Stable(m.from) && m.from != m.to
  }

  predicate AllPlanned(slots: seq<SlotState>, plan: seq<Migration>) {
    forall i :: 0 <= i < |plan| ==> Planned(slots, plan[i])
  }

  predicate SameRouting(before: seq<SlotState>, after: seq<SlotState>) {
    |before| == |after| && forall s :: 0 <= s < |before| ==> Owner(before[s]) == Owner(after[s])
  }

  /** Replacing one entry keeps every slot routed as it was iff the new entry has the same owner. */
  lemma SameRoutingIff(slots: seq<SlotState>, slot: nat, s: SlotState)
    requires slot < |slots|
    ensures SameRouting(slots, slots[slot := s]) <==> Owner(s) == Owner(slots[slot])
  {
    assert slots[slot := s][slot] == s;
  }

  /** Load figures are compared as real numbers; `f64` rounding is not modelled. */
  function Average(total: nat, n: nat): (r: real)
    requires n > 0
    ensures r >= 0.0
  {
    total as real / n as real
  }

  predicate Overloaded(load: nat, average: real) { load as real > average * 1.5 }
  predicate Underloaded(load: nat, average: real) { (load as real) < average / 1.5 }

  ghost function TotalLoad(loads: map<nat, nat>): nat
    decreases |loads|
  {
    if loads == map[] then 0 else var k :| k in loads; loads[k] + TotalLoad(loads - {k})
  }

  /** The total does not depend on the order of summation. */
  lemma {:induction false} TotalLoadPick(loads: map<nat, nat>, k: nat)
    requires k in loads
    ensures TotalLoad(loads) == loads[k] + TotalLoad(loads - {k})
    decreases |loads|
  {
    var j :| j in loads && TotalLoad(loads) == loads[j] + TotalLoad(loads - {j});
    if j != k {
      TotalLoadPick(loads - {j}, k);
      TotalLoadPick(loads - {k}, j);
      assert loads - {j} - {k} == loads - {k} - {j};
    }
  }

  ghost function Mean(loads: map<nat, nat>): (r: real)
    requires loads != map[]
    ensures r >= 0.0
  {
    Average(TotalLoad(loads), |loads|)
  }

  /** The thresholds in whole numbers: more than three halves of the mean load, and less than two thirds of it. */
  lemma ThresholdsAre(loads: map<nat, nat>, s: nat)
    requires s in loads
    ensures Overloaded(loads[s], Mean(loads)) <==> 2 * loads[s] * |loads| > 3 * TotalLoad(loads)
    ensures Underloaded(loads[s], Mean(loads)) <==> 3 * loads[s] * |loads| < 2 * TotalLoad(loads)
  {
    hide TotalLoad;
    MeanTimes(loads);
    var mean, n, load := Mean(loads), |loads| as real, loads[s] as real;
    Scaled(load, mean * 1.5, n);
    Scaled(mean / 1.5, load, n);
    assert mean / 1.5 * n == mean * n / 1.5;
  }

  lemma MeanTimes(loads: map<nat, nat>)
    requires loads != map[]
    ensures Mean(loads) * |loads| as real == TotalLoad(loads) as real
  {
  }

  lemma Scaled(x: real, y: real, n: real)
    requires n > 0.0
    ensures x > y <==> x * n > y * n
  {
  }

  /** The figures call for moving something from one shard to the other. */
  ghost predicate Justified(loads: map<nat, nat>, from: nat, to: nat) {
    && loads != map[] && from in loads && to in loads
    && Overloaded(loads[from], Mean(loads)) && Underloaded(loads[to], Mean(loads))
  }

  lemma NotBoth(load: nat, average: real)
    requires average >= 0.0
    ensures !(Overloaded(load, average) && Underloaded(load, average))
  {
  }

  // ---- planning: which migrations are wanted, and in which order ----

  /** The smaller, the earlier a shard is considered. */
  function Rank(load: nat, heaviestFirst: bool): int {
    if heaviestFirst then 0 - (load as int) else load
  }

  predicate Distinct(s: seq<nat>) {
    forall i, j :: 0 <= i < j < |s| ==> s[i] != s[j]
  }

  predicate Ascending(s: seq<nat>) {
    forall i, j :: 0 <= i < j < |s| ==> s[i] < s[j]
  }

  predicate Ordered(s: seq<nat>, loads: map<nat, nat>, heaviestFirst: bool) {
    && (forall i :: 0 <= i < |s| ==> s[i] in loads)
    && (forall i, j :: 0 <= i < j < |s| ==> Rank(loads[s[i]], heaviestFirst) <= Rank(loads[s[j]], heaviestFirst))
  }

  /** Shards under the same load are considered by number. */
  predicate TiesAscending(s: seq<nat>, loads: map<nat, nat>) {
    forall i, j :: 0 <= i < j < |s| && s[i] in loads && s[j] in loads && loads[s[i]] == loads[s[j]] ==> s[i] < s[j]
  }

  /** The overloaded shards, heaviest first, and the underloaded ones, lightest first. */
  ghost predicate Classified(loads: map<nat, nat>, over: seq<nat>, under: seq<nat>) {
    && loads != map[]
    && (forall s :: s in over <==> s in loads && Overloaded(loads[s], Mean(loads)))
    && (forall s :: s in under <==> s in loads && Underloaded(loads[s], Mean(loads)))
    && Distinct(over) && Ordered(over, loads, true)
    && Distinct(under) && Ordered(under, loads, false)
  }

  type ShardPair = (nat, nat)

  /** Pairs of one overloaded shard with the first `n` underloaded ones. */
  function PairsOf(from: nat, under: seq<nat>, n: nat): seq<ShardPair>
    requires n <= |under|
  {
    if n == 0 then [] else PairsOf(from, under, n - 1) + [(from, under[n - 1])]
  }

  /** All pairs of the first `n` overloaded shards, in the order they are considered. */
  function AllPairs(over: seq<nat>, under: seq<nat>, n: nat): seq<ShardPair>
    requires n <= |over|
  {
    if n == 0 then [] else AllPairs(over, under, n - 1) + PairsOf(over[n - 1], under, |under|)
  }

  /** Which slots are hot, by the counters and by the aggregated access counts. */
  function HotByCounters(access: seq<nat>): (r: seq<bool>) {
    seq(|access|, s requires 0 <= s < |access| => access[s] > HOT_KEY_THRESHOLD)
  }

  function HotByMetrics(access: map<SlotId, nat>): (r: seq<bool>) {
    seq(TOTAL_SLOTS, s requires 0 <= s < TOTAL_SLOTS => s in access && access[s] > HOT_KEY_THRESHOLD)
  }

  /** A slot is stable on the source and hot. */
  predicate Movable(slots: seq<SlotState>, hot: seq<bool>, s: nat, from: nat) {
    s < |slots| && s < |hot| && slots[s] == Stable(from) && hot[s]
  }

  /** The migrations of one pair of shards over the first `n` slots, by slot number. */
  function Moves(slots: seq<SlotState>, hot: seq<bool>, p: ShardPair, n: nat): seq<Migration>
    requires n <= TOTAL_SLOTS
  {
    if n == 0 then []
    else Moves(slots, hot, p, n - 1) + (if Movable(slots, hot, n - 1, p.0) then [Migration(n - 1, p.0, p.1)] else [])
  }

  /** Everything the figures call for, pair by pair. */
  function Wanted(slots: seq<SlotState>, hot: seq<bool>, pairs: seq<ShardPair>): seq<Migration>
    decreases |pairs|
  {
    if pairs == [] then []
    else Wanted(slots, hot, pairs[..|pairs| - 1]) + Moves(slots, hot, pairs[|pairs| - 1], TOTAL_SLOTS)
  }

  function First<T>(s: seq<T>, n: nat): (r: seq<T>)
    ensures r <= s && |r| <= n
    ensures |r| < n ==> r == s
  {
    if |s| <= n then s else s[..n]
  }

  /** The same with the limit looked at only after each pair, as the aggregated-metrics path does. */
  function WantedByPair(slots: seq<SlotState>, hot: seq<bool>, pairs: seq<ShardPair>): seq<Migration>
    decreases |pairs|
  {
    if pairs == [] then []
    else
      var before := WantedByPair(slots, hot, pairs[..|pairs| - 1]);
      if |before| >= MIGRATION_BATCH_SIZE then before
      else before + First(Moves(slots, hot, pairs[|pairs| - 1], TOTAL_SLOTS), MIGRATION_BATCH_SIZE)
  }

  lemma WantedSnoc(slots: seq<SlotState>, hot: seq<bool>, pairs: seq<ShardPair>, p: ShardPair)
    ensures Wanted(slots, hot, pairs + [p]) == Wanted(slots, hot, pairs) + Moves(slots, hot, p, TOTAL_SLOTS)
    ensures var before := WantedByPair(slots, hot, pairs);
            WantedByPair(slots, hot, pairs + [p]) ==
              if |before| >= MIGRATION_BATCH_SIZE then before
              else before + First(Moves(slots, hot, p, TOTAL_SLOTS), MIGRATION_BATCH_SIZE)
  {
    hide Moves; hide First;
    assert (pairs + [p])[..|pairs|] == pairs;
  }

  /** More pairs only add to what is wanted, and nothing to a full batch. */
  lemma {:induction false} WantedMore(slots: seq<SlotState>, hot: seq<bool>, pairs: seq<ShardPair>,
      more: seq<ShardPair>)
    ensures Wanted(slots, hot, pairs) <= Wanted(slots, hot, pairs + more)
    ensures |WantedByPair(slots, hot, pairs)| >= MIGRATION_BATCH_SIZE ==>
              WantedByPair(slots, hot, pairs + more) == WantedByPair(slots, hot, pairs)
    decreases |more|
  {
    hide Wanted; hide WantedByPair; hide Moves; hide First;
    if more == [] {
      assert pairs + more == pairs;
    } else {
      var init, last := more[..|more| - 1], more[|more| - 1];
      assert pairs + more == (pairs + init) + [last];
      WantedMore(slots, hot, pairs, init);
      WantedSnoc(slots, hot, pairs + init, last);
    }
  }

  /** Below the limit the two forms agree, and the second overshoots it by less than a batch. */
  lemma {:induction false} ByPairIsWanted(slots: seq<SlotState>, hot: seq<bool>, pairs: seq<ShardPair>)
    ensures var r := WantedByPair(slots, hot, pairs);
            && |r| <= 2 * MIGRATION_BATCH_SIZE - 1
            && (|r| < MIGRATION_BATCH_SIZE ==> r == Wanted(slots, hot, pairs))
            && (forall m :: m in r ==> m in Wanted(slots, hot, pairs))
    decreases |pairs|
  {
    hide Wanted; hide WantedByPair; hide Moves; hide First;
    NothingWanted(slots, hot);
    if pairs != [] {
      var init, last := pairs[..|pairs| - 1], pairs[|pairs| - 1];
      assert pairs == init + [last];
      ByPairIsWanted(slots, hot, init);
      WantedSnoc(slots, hot, init, last);
    }
  }

  lemma NothingWanted(slots: seq<SlotState>, hot: seq<bool>)
    ensures Wanted(slots, hot, []) == [] && WantedByPair(slots, hot, []) == []
    ensures MIGRATION_BATCH_SIZE > 0
  {
  }

  lemma {:induction false} MovesExactly(slots: seq<SlotState>, hot: seq<bool>, p: ShardPair, n: nat, m: Migration)
    requires n <= TOTAL_SLOTS
    ensures m in Moves(slots, hot, p, n) <==>
            m.slot < n && m.from == p.0 && m.to == p.1 && Movable(slots, hot, m.slot, p.0)
    decreases n
  {
    hide Movable;
    if n > 0 {
      MovesExactly(slots, hot, p, n - 1, m);
    }
  }

  predicate SlotsAscend(r: seq<Migration>, n: nat) {
    && (forall i :: 0 <= i < |r| ==> r[i].slot < n)
    && (forall i, j :: 0 <= i < j < |r| ==> r[i].slot < r[j].slot)
  }

  /** Within a pair the slots come in ascending order. */
  lemma {:induction false} MovesAscend(slots: seq<SlotState>, hot: seq<bool>, p: ShardPair, n: nat)
    requires n <= TOTAL_SLOTS
    ensures SlotsAscend(Moves(slots, hot, p, n), n)
    decreases n
  {
    hide Movable; hide SlotsAscend;
    if n == 0 {
      NoneAscend();
    } else {
      MovesAscend(slots, hot, p, n - 1);
      AscendMore(Moves(slots, hot, p, n - 1), n - 1, p);
    }
  }

  lemma NoneAscend()
    ensures SlotsAscend([], 0)
  {
  }

  lemma AscendMore(r: seq<Migration>, n: nat, p: ShardPair)
    requires SlotsAscend(r, n) && n < TOTAL_SLOTS
    ensures SlotsAscend(r + [], n + 1) && SlotsAscend(r + [Migration(n, p.0, p.1)], n + 1)
  {
  }

  /** What is wanted: every movable slot of every pair, and nothing else. */
  lemma {:induction false} WantedExactly(slots: seq<SlotState>, hot: seq<bool>, pairs: seq<ShardPair>, m: Migration)
    ensures m in Wanted(slots, hot, pairs) <==>
              (m.from, m.to) in pairs && m.slot < TOTAL_SLOTS && Movable(slots, hot, m.slot, m.from)
    decreases |pairs|
  {
    hide Moves; hide Movable;
    if pairs != [] {
      var init, last := pairs[..|pairs| - 1], pairs[|pairs| - 1];
      assert pairs == init + [last];
      WantedExactly(slots, hot, init, m);
      MovesExactly(slots, hot, last, TOTAL_SLOTS, m);
    }
  }

  lemma {:induction false} PairsExactly(from: nat, under: seq<nat>, n: nat, p: ShardPair)
    requires n <= |under|
    ensures p in PairsOf(from, under, n) <==> p.0 == from && p.1 in under[..n]
    decreases n
  {
    if n > 0 {
      PairsExactly(from, under, n - 1, p);
      assert under[..n] == under[..n - 1] + [under[n - 1]];
    }
  }

  lemma {:induction false} AllPairsExactly(over: seq<nat>, under: seq<nat>, n: nat, p: ShardPair)
    requires n <= |over|
    ensures p in AllPairs(over, under, n) <==> p.0 in over[..n] && p.1 in under
    decreases n
  {
    hide PairsOf;
    if n > 0 {
      AllPairsExactly(over, under, n - 1, p);
      PairsExactly(over[n - 1], under, |under|, p);
      assert under[..|under|] == under;
      assert over[..n] == over[..n - 1] + [over[n - 1]];
    }
  }

  lemma {:induction false} PairsPrefix(from: nat, under: seq<nat>, n: nat)
    requires n <= |under|
    ensures PairsOf(from, under, n) <= PairsOf(from, under, |under|)
    decreases |under| - n
  {
    if n < |under| {
      PairsPrefix(from, under, n + 1);
    }
  }

  lemma {:induction false} AllPairsPrefix(over: seq<nat>, under: seq<nat>, n: nat)
    requires n <= |over|
    ensures AllPairs(over, under, n) <= AllPairs(over, under, |over|)
    decreases |over| - n
  {
    hide PairsOf;
    if n < |over| {
      AllPairsPrefix(over, under, n + 1);
    }
  }

  /** For each source the targets come in their order; `PairsSoFar` gives the order of the sources. */
  lemma {:induction false} PairsAt(from: nat, under: seq<nat>, n: nat)
    requires n <= |under|
    ensures |PairsOf(from, under, n)| == n && forall j :: 0 <= j < n ==> PairsOf(from, under, n)[j] == (from, under[j])
    decreases n
  {
    if n > 0 {
      PairsAt(from, under, n - 1);
    }
  }

  /** Wherever the nested loops stop, the pairs dealt with are the first ones. */
  lemma PairsSoFar(over: seq<nat>, under: seq<nat>, i: nat, j: nat) returns (more: seq<ShardPair>)
    requires i < |over| && j <= |under|
    ensures AllPairs(over, under, i) + PairsOf(over[i], under, j) + more == AllPairs(over, under, |over|)
  {
    hide PairsOf;
    var a, b, all := AllPairs(over, under, i), PairsOf(over[i], under, j), AllPairs(over, under, |over|);
    PairsPrefix(over[i], under, j);
    AllPairsPrefix(over, under, i + 1);
    assert AllPairs(over, under, i + 1) == a + PairsOf(over[i], under, |under|);
    assert a + b <= AllPairs(over, under, i + 1);
    more := all[|a + b|..];
  }

  /** The batch of the counter path: the first 64 of everything wanted, shards under the same load by number. */
  ghost predicate PlannedByCounters(slots: seq<SlotState>, loads: map<nat, nat>,
                                    access: seq<nat>, plan: seq<Migration>)
  {
    exists over, under ::
      && Classified(loads, over, under) && TiesAscending(over, loads) && TiesAscending(under, loads)
      && plan == First(Wanted(slots, HotByCounters(access), AllPairs(over, under, |over|)), MIGRATION_BATCH_SIZE)
  }

  /** The batch of the aggregated-metrics path; shards under the same load come in any order. */
  ghost predicate PlannedByMetrics(slots: seq<SlotState>, loads: map<nat, nat>,
                                   access: map<SlotId, nat>, plan: seq<Migration>)
  {
    exists over, under ::
      Classified(loads, over, under) && plan == WantedByPair(slots, HotByMetrics(access), AllPairs(over, under, |over|))
  }

  /** A migration the figures call for: a hot slot, stable on an overloaded shard, to an underloaded one. */
  ghost predicate Called(slots: seq<SlotState>, loads: map<nat, nat>, hot: seq<bool>, m: Migration) {
    m.slot < TOTAL_SLOTS && Justified(loads, m.from, m.to) && Movable(slots, hot, m.slot, m.from)
  }

  /** Nothing is planned that is not called for. */
  ghost predicate Sound(slots: seq<SlotState>, loads: map<nat, nat>, hot: seq<bool>, plan: seq<Migration>) {
    forall m :: m in plan ==> Called(slots, loads, hot, m)
  }

  /** Everything called for is planned. */
  ghost predicate Complete(slots: seq<SlotState>, loads: map<nat, nat>, hot: seq<bool>, plan: seq<Migration>) {
    forall m :: Called(slots, loads, hot, m) ==> m in plan
  }

  lemma WantedIsCalled(slots: seq<SlotState>, loads: map<nat, nat>, hot: seq<bool>, over: seq<nat>, under: seq<nat>)
    requires Classified(loads, over, under)
    ensures var all := Wanted(slots, hot, AllPairs(over, under, |over|));
            Sound(slots, loads, hot, all) && Complete(slots, loads, hot, all)
  {
    hide Wanted; hide AllPairs; hide Movable; hide Overloaded; hide Underloaded; hide Mean; hide Ordered; hide Distinct;
    var pairs := AllPairs(over, under, |over|);
    forall m ensures m in Wanted(slots, hot, pairs) <==> Called(slots, loads, hot, m) {
      WantedExactly(slots, hot, pairs, m);
      AllPairsExactly(over, under, |over|, (m.from, m.to));
      assert over[..|over|] == over;
    }
  }

  /** Both batches are sound, and complete unless they are full. */
  lemma PlansAreCalled(slots: seq<SlotState>, loads: map<nat, nat>, hot: seq<bool>, over: seq<nat>, under: seq<nat>)
    requires Classified(loads, over, under)
    ensures var plan := First(Wanted(slots, hot, AllPairs(over, under, |over|)), MIGRATION_BATCH_SIZE);
            Sound(slots, loads, hot, plan) && (|plan| < MIGRATION_BATCH_SIZE ==> Complete(slots, loads, hot, plan))
    ensures var plan := WantedByPair(slots, hot, AllPairs(over, under, |over|));
            && Sound(slots, loads, hot, plan) && |plan| <= 2 * MIGRATION_BATCH_SIZE - 1
            && (|plan| < MIGRATION_BATCH_SIZE ==> Complete(slots, loads, hot, plan))
  {
    hide Wanted; hide WantedByPair; hide AllPairs; hide Called; hide Classified; hide First;
    var pairs := AllPairs(over, under, |over|);
    WantedIsCalled(slots, loads, hot, over, under);
    ByPairIsWanted(slots, hot, pairs);
    var all := Wanted(slots, hot, pairs);
    assert forall m :: m in First(all, MIGRATION_BATCH_SIZE) ==> m in all;
  }

  lemma BatchSize()
    ensures MIGRATION_BATCH_SIZE == 64
  {
  }

  lemma HotByCountersMeans(slots: seq<SlotState>, loads: map<nat, nat>, access: seq<nat>, plan: seq<Migration>)
    requires Sound(slots, loads, HotByCounters(access), plan)
    ensures forall m :: m in plan ==> m.slot < |access| && access[m.slot] > 100
  {
    hide Justified;
  }

  lemma HotByMetricsMeans(slots: seq<SlotState>, loads: map<nat, nat>, access: map<SlotId, nat>, plan: seq<Migration>)
    requires Sound(slots, loads, HotByMetrics(access), plan)
    ensures forall m :: m in plan ==> m.slot in access && access[m.slot] > 100
  {
    hide Justified;
  }

  /** A sound plan names stable slots with their owners. */
  lemma SoundIsPlanned(slots: seq<SlotState>, loads: map<nat, nat>, hot: seq<bool>, plan: seq<Migration>)
    requires Sound(slots, loads, hot, plan)
    ensures AllPlanned(slots, plan)
  {
    hide Overloaded; hide Underloaded; hide Mean;
    forall i | 0 <= i < |plan| ensures Planned(slots, plan[i]) {
      var m := plan[i];
      assert m in plan;
      NotBoth(loads[m.from], Mean(loads));
    }
  }

  class SlotManager {
    const shardCount: nat
    var slots: seq<SlotState>
    var version: nat
    var active: map<SlotId, Task>
    var queue: seq<Migration>
    var shardOps: seq<nat>
    var slotAccess: seq<nat>
    /** Aggregated metrics, filled by whoever aggregates. */
    var opsPerSecond: map<nat, nat>
    var accessCount: map<SlotId, nat>
    /** Successful start, complete and rollback calls so far. */
    ghost var changes: nat

    /** A slot is migrating exactly while it has a task, with the task's shards; it is never importing. */
    ghost predicate Valid()
      reads this
    {
      && |slots| == |slotAccess| == TOTAL_SLOTS
      && shardCount > 0 && |shardOps| == shardCount
      && version == 1 + changes
      && (forall s: SlotId :: s in active ==> s < TOTAL_SLOTS)
      && (forall s: SlotId :: s < TOTAL_SLOTS ==>
            if s in active then slots[s] == Migrating(active[s].from, active[s].to) else slots[s].Stable?)
    }

    /** `SlotManager::new`: slots dealt out round robin. */
    constructor (shardCount: nat)
      requires shardCount > 0
      ensures Valid() && this.shardCount == shardCount
      ensures forall s :: 0 <= s < TOTAL_SLOTS ==> slots[s] == Stable(s % shardCount)
      ensures changes == 0 && active == map[] && queue == []
    {
      this.shardCount := shardCount;
      var vec := seq(TOTAL_SLOTS, _ => Stable(0));
      for slot := 0 to TOTAL_SLOTS
        invariant |vec| == TOTAL_SLOTS
        invariant forall s :: 0 <= s < slot ==> vec[s] == Stable(s % shardCount)
      {
        vec := vec[slot := Stable(slot % shardCount)];
      }
      slots := vec;
      version, changes := 1, 0;
      active, queue := map[], [];
      shardOps, slotAccess := seq(shardCount, _ => 0), seq(TOTAL_SLOTS, _ => 0);
      opsPerSecond, accessCount := map[], map[];
    }

    /** `get_slot_shard`. */
    function SlotShard(slot: nat): Option<nat>
      reads this`slots
    {
      if slot >= |slots| then None else Some(Owner(slots[slot]))
    }

    /** Who serves a slot in each state, and that there is nobody beyond the table. */
    lemma SlotShardIs(slot: nat)
      ensures slot >= |slots| <==> SlotShard(slot).None?
      ensures slot < |slots| ==>
                && (slots[slot].Stable? ==> SlotShard(slot) == Some(slots[slot].shard))
                && (slots[slot].Migrating? ==> SlotShard(slot) == Some(slots[slot].from))
                && (slots[slot].Importing? ==> SlotShard(slot) == Some(slots[slot].to))
    {
    }

    /** The shard a key is served by. */
    function KeyShard(key: bytes): nat
      reads this`slots
    {
      var s := SlotShard(SlotOf(key));
      if s.Some? then s.value else 0
    }

    /** `get_key_shard`. */
    method GetKeyShard(key: bytes) returns (sid: nat)
      ensures sid == KeyShard(key)
      ensures |slots| == TOTAL_SLOTS ==> sid == Owner(slots[SlotOf(key)])
    {
      hide SlotOf;
      var slot := CalculateSlot(key);
      var s := SlotShard(slot);
      sid := if s.Some? then s.value else 0;
    }

    /** `record_operation`: counters only. */
    method RecordOperation(key: bytes)
      requires Valid()
      modifies this`slotAccess, this`shardOps
      ensures Valid()
      ensures slotAccess == old(slotAccess)[SlotOf(key) := old(slotAccess)[SlotOf(key)] + 1]
      ensures var sid := KeyShard(key);
              shardOps == if sid < |old(shardOps)| then old(shardOps)[sid := old(shardOps)[sid] + 1] else old(shardOps)
    {
      hide SlotOf;
      var slot := CalculateSlot(key);
      var shard := GetKeyShard(key);
      if slot < |slotAccess| {
        slotAccess := slotAccess[slot := slotAccess[slot] + 1];
      }
      if shard < |shardOps| {
        shardOps := shardOps[shard := shardOps[shard] + 1];
      }
    }

    /** `reset_metrics`. */
    method ResetMetrics()
      requires Valid()
      modifies this`slotAccess, this`shardOps, this`opsPerSecond, this`accessCount
      ensures Valid() && opsPerSecond == map[] && accessCount == map[]
      ensures forall i :: 0 <= i < |shardOps| ==> shardOps[i] == 0
      ensures forall i :: 0 <= i < |slotAccess| ==> slotAccess[i] == 0
    {
      opsPerSecond, accessCount := map[], map[];
      shardOps, slotAccess := seq(shardCount, _ => 0), seq(TOTAL_SLOTS, _ => 0);
    }

    /** Whoever aggregates the metrics may put any figures there at any time. */
    method Aggregate(ops: map<nat, nat>, access: map<SlotId, nat>)
      requires Valid()
      modifies this`opsPerSecond, this`accessCount
      ensures Valid() && opsPerSecond == ops && accessCount == access
    {
      opsPerSecond, accessCount := ops, access;
    }

    // ---- migrations ----

    /**
     `start_slot_migration`. Refusals change nothing. Every slot is served as before iff the source named
     is the current owner.
     */
    method StartSlotMigration(slot: SlotId, from: nat, to: nat) returns (r: Outcome)
      requires Valid()
      modifies this`slots, this`active, this`version, this`changes
      ensures Valid()
      ensures r == if slot in old(active) then MigrationActive
                   else if slot >= TOTAL_SLOTS then InvalidSlot
                   else Accepted
      ensures r != Accepted ==> unchanged(this)
      ensures r == Accepted ==>
                && changes == old(changes) + 1
                && old(slots[slot]).Stable?
                && slots == old(slots)[slot := Migrating(from, to)]
                && active == old(active)[slot := Task(from, to)]
                && (SameRouting(old(slots), slots) <==> from == Owner(old(slots[slot])))
    {
      if slot in active {
        return MigrationActive;
      }
      if slot >= |slots| {
        return InvalidSlot;
      }
      SameRoutingIff(slots, slot, Migrating(from, to));
      slots := slots[slot := Migrating(from, to)];
      active := active[slot := Task(from, to)];
      version, changes := version + 1, changes + 1;
      r := Accepted;
    }

    /** `complete_slot_migration`: the slot becomes stable on its target, so routing is kept iff that is its source. */
    method CompleteSlotMigration(slot: SlotId) returns (r: Outcome)
      requires Valid()
      modifies this`slots, this`active, this`version, this`changes
      ensures Valid()
      ensures r == if slot in old(active) then Accepted else NoActiveMigration
      ensures r != Accepted ==> unchanged(this)
      ensures r == Accepted ==>
                && changes == old(changes) + 1
                && slots == old(slots)[slot := Stable(old(active)[slot].to)]
                && active == old(active) - {slot}
                && (SameRouting(old(slots), slots) <==> old(active)[slot].to == old(active)[slot].from)
    {
      if slot !in active {
        return NoActiveMigration;
      }
      SameRoutingIff(slots, slot, Stable(active[slot].to));
      slots := slots[slot := Stable(active[slot].to)];
      active := active - {slot};
      version, changes := version + 1, changes + 1;
      r := Accepted;
    }

    /** `rollback_migration`: the slot becomes stable on its source again, and every slot is served as before. */
    method RollbackMigration(slot: SlotId) returns (r: Outcome)
      requires Valid()
      modifies this`slots, this`active, this`version, this`changes
      ensures Valid()
      ensures r == if slot in old(active) then Accepted else NoActiveMigration
      ensures r != Accepted ==> unchanged(this)
      ensures r == Accepted ==>
                && changes == old(changes) + 1
                && slots == old(slots)[slot := Stable(old(active)[slot].from)]
                && active == old(active) - {slot}
                && SameRouting(old(slots), slots)
    {
      if slot !in active {
        return NoActiveMigration;
      }
      SameRoutingIff(slots, slot, Stable(active[slot].from));
      slots := slots[slot := Stable(active[slot].from)];
      active := active - {slot};
      version, changes := version + 1, changes + 1;
      r := Accepted;
    }

    /**
     A migration started and rolled back leaves the slot table and the tasks as they were iff it named the
     current owner.
     */
    method StartThenRollback(slot: SlotId, from: nat, to: nat) returns (r: Outcome)
      requires Valid()
      modifies this`slots, this`active, this`version, this`changes
      ensures Valid()
      ensures r == if slot in old(active) then MigrationActive
                   else if slot >= TOTAL_SLOTS then InvalidSlot
                   else Accepted
      ensures r == Accepted ==>
                && active == old(active) && version == old(version) + 2
                && (slots == old(slots) <==> from == Owner(old(slots[slot])))
      ensures r != Accepted ==> unchanged(this)
    {
      r := StartSlotMigration(slot, from, to);
      if r == Accepted {
        r := RollbackMigration(slot);
        assert slots[slot] == Stable(from);
      }
    }

    // ---- planning ----

    ghost function CounterLoads(): map<nat, nat>
      reads this`shardOps
      requires |shardOps| == shardCount
    {
      map i: nat | 0 <= i < shardCount :: shardOps[i]
    }

    /** What the present figures lead to: the aggregated ones if they call for something, otherwise the counters. */
    ghost predicate PlannedNow(plan: seq<Migration>)
      reads this`slots, this`opsPerSecond, this`accessCount, this`shardOps, this`slotAccess
    {
      || (plan != [] && opsPerSecond != map[] && PlannedByMetrics(slots, opsPerSecond, accessCount, plan))
      || ((opsPerSecond == map[] || PlannedByMetrics(slots, opsPerSecond, accessCount, []))
          && |shardOps| == shardCount && PlannedByCounters(slots, CounterLoads(), slotAccess, plan))
    }

    /**
     `trigger_rebalance`: the aggregated figures decide if there are any and they call for something,
     otherwise the counters. Either way the plan is exactly the beginning of what the figures call for,
     heaviest source first, then lightest target, then slot number: 64 migrations by the counters, whole
     pairs of shards until there are 64 by the aggregated figures. Every migration names a stable slot
     with its current owner as source. Nothing but the queue changes.
     */
    method TriggerRebalance() returns (plan: seq<Migration>)
      requires Valid()
      modifies this`queue
      ensures Valid() && PlannedNow(plan)
      ensures AllPlanned(slots, plan) && |plan| <= 127
      ensures opsPerSecond == map[] ==> |plan| <= 64
      ensures queue == old(queue) + plan
    {
      hide PlannedByMetrics; hide PlannedByCounters; hide Sound; hide Complete;
      plan := [];
      if opsPerSecond != map[] {
        plan := PlanFromMetrics();
        SoundIsPlanned(slots, opsPerSecond, HotByMetrics(accessCount), plan);
      }
      if plan == [] {
        plan := PlanFromCounters();
        SoundIsPlanned(slots, CounterLoads(), HotByCounters(slotAccess), plan);
      }
      queue := queue + plan;
    }

    /**
     Which shards are loaded above 1.5 times, and which below 1/1.5 of, the mean, each in the order they are
     considered.
     */
    static method Classify(loads: map<nat, nat>, order: seq<nat>) returns (over: seq<nat>, under: seq<nat>)
      requires loads != map[] && Distinct(order) && forall s :: s in order <==> s in loads
      ensures Classified(loads, over, under)
      ensures Ascending(order) ==> TiesAscending(over, loads) && TiesAscending(under, loads)
    {
      hide Overloaded; hide Underloaded; hide Average; hide TotalLoad;
      var total := Sum(loads);
      var average := Average(total, |loads|);
      over := Select(order, loads, average, true);
      under := Select(order, loads, average, false);
      hide Distinct; hide Ascending; hide Ordered; hide TiesAscending;
      over := SortByLoad(over, loads, true);
      under := SortByLoad(under, loads, false);
    }

    /** The shards on one side of the threshold, in the given order. */
    static method Select(order: seq<nat>, loads: map<nat, nat>, average: real, above: bool) returns (r: seq<nat>)
      requires Distinct(order) && forall s :: s in order ==> s in loads
      ensures forall s :: s in r <==> s in order && Chosen(loads[s], average, above)
      ensures Distinct(r) && (Ascending(order) ==> Ascending(r))
    {
      hide Chosen;
      r := [];
      for i := 0 to |order|
        invariant forall s :: s in r <==> s in order[..i] && Chosen(loads[s], average, above)
        invariant Distinct(r) && (Ascending(order) ==> Ascending(r))
      {
        assert order[..i + 1] == order[..i] + [order[i]];
        assert order[i] in order && order[i] !in order[..i];
        assert Ascending(order) ==> forall s :: s in order[..i] ==> s < order[i];
        assert forall a :: 0 <= a < |r| ==> r[a] in r;
        if Chosen(loads[order[i]], average, above) {
          r := r + [order[i]];
        }
      }
      assert order[..|order|] == order;
    }

    /** `sort_by_key`, which keeps equal elements in their order. */
    static method SortByLoad(shards: seq<nat>, loads: map<nat, nat>, heaviestFirst: bool) returns (r: seq<nat>)
      requires Distinct(shards) && forall s :: s in shards ==> s in loads
      ensures forall s :: s in r <==> s in shards
      ensures Distinct(r) && Ordered(r, loads, heaviestFirst)
      ensures Ascending(shards) ==> TiesAscending(r, loads)
    {
      hide Ordered; hide TiesAscending;
      r := [];
      NothingOrdered(loads, heaviestFirst);
      for i := 0 to |shards|
        invariant forall s :: s in r <==> s in shards[..i]
        invariant Distinct(r) && Ordered(r, loads, heaviestFirst)
        invariant Ascending(shards) ==> TiesAscending(r, loads)
      {
        assert shards[..i + 1] == shards[..i] + [shards[i]];
        assert shards[i] in shards && shards[i] !in shards[..i];
        assert Ascending(shards) ==> forall s :: s in shards[..i] ==> s < shards[i];
        r := InsertByLoad(r, shards[i], loads, heaviestFirst);
      }
      assert shards[..|shards|] == shards;
    }

    static method InsertByLoad(s: seq<nat>, x: nat, loads: map<nat, nat>, heaviestFirst: bool) returns (r: seq<nat>)
      requires Distinct(s) && Ordered(s, loads, heaviestFirst) && x !in s && x in loads
      ensures forall y :: y in r <==> y in s || y == x
      ensures Distinct(r) && Ordered(r, loads, heaviestFirst)
      ensures TiesAscending(s, loads) && (forall y :: y in s ==> y < x) ==> TiesAscending(r, loads)
    {
      var k: nat := |s|;
      while k > 0 && Rank(loads[x], heaviestFirst) < Rank(loads[s[k - 1]], heaviestFirst)
        invariant k <= |s|
        invariant forall i :: k <= i < |s| ==> Rank(loads[x], heaviestFirst) < Rank(loads[s[i]], heaviestFirst)
      {
        k := k - 1;
      }
      r := s[..k] + [x] + s[k..];
      InsertedAt(s, x, k, r);
      InsertKeepsOrder(s, x, k, r, loads, heaviestFirst);
    }

    static method Sum(loads: map<nat, nat>) returns (total: nat)
      ensures total == TotalLoad(loads)
    {
      hide TotalLoad;
      total := 0;
      var rest := loads;
      while rest != map[]
        invariant total + TotalLoad(rest) == TotalLoad(loads)
        decreases |rest|
      {
        var shard :| shard in rest;
        TotalLoadPick(rest, shard);
        total := total + rest[shard];
        rest := rest - {shard};
      }
      NoLoad();
    }

    /** One of the iteration orders of a hash map. */
    static method IterationOrder(loads: map<nat, nat>) returns (order: seq<nat>)
      ensures Distinct(order) && forall s :: s in order <==> s in loads
    {
      order := [];
      var rest := loads;
      while rest != map[]
        invariant rest.Keys <= loads.Keys && Distinct(order)
        invariant forall s :: s in order <==> s in loads && s !in rest
        decreases |rest|
      {
        var shard :| shard in rest;
        order := order + [shard];
        rest := rest - {shard};
      }
    }

    /** Planning from the aggregated metrics: the batch limit is looked at after each pair of shards. */
    method PlanFromMetrics() returns (plan: seq<Migration>)
      requires Valid() && opsPerSecond != map[]
      ensures PlannedByMetrics(slots, opsPerSecond, accessCount, plan)
      ensures Sound(slots, opsPerSecond, HotByMetrics(accessCount), plan) && |plan| <= 127
      ensures |plan| < 64 ==> Complete(slots, opsPerSecond, HotByMetrics(accessCount), plan)
      ensures forall m :: m in plan ==> m.slot in accessCount && accessCount[m.slot] > 100
    {
      hide *;
      BatchSize();
      var order := IterationOrder(opsPerSecond);
      var over, under := Classify(opsPerSecond, order);
      plan := PlanByPair(over, under);
      ByMetrics(slots, opsPerSecond, accessCount, over, under);
      PlansAreCalled(slots, opsPerSecond, HotByMetrics(accessCount), over, under);
      HotByMetricsMeans(slots, opsPerSecond, accessCount, plan);
    }

    method PlanByPair(over: seq<nat>, under: seq<nat>) returns (plan: seq<Migration>)
      requires Valid()
      ensures plan == WantedByPair(slots, HotByMetrics(accessCount), AllPairs(over, under, |over|))
    {
      hide *;
      plan := [];
      ghost var hot, pairs := HotByMetrics(accessCount), [];
      PairsStart(over, under);
      NothingWanted(slots, hot);
      for i := 0 to |over|
        invariant pairs == AllPairs(over, under, i)
        invariant plan == WantedByPair(slots, hot, pairs) && |plan| < MIGRATION_BATCH_SIZE
      {
        PairsRow(over, under, i);
        for j := 0 to |under|
          invariant pairs == AllPairs(over, under, i) + PairsOf(over[i], under, j)
          invariant plan == WantedByPair(slots, hot, pairs) && |plan| < MIGRATION_BATCH_SIZE
        {
          WantedSnoc(slots, hot, pairs, (over[i], under[j]));
          PairsStep(over, under, i, j);
          var found := HotSlots(over[i], under[j]);
          plan := plan + found;
          pairs := pairs + [(over[i], under[j])];
          if |plan| >= MIGRATION_BATCH_SIZE {
            ghost var more := PairsSoFar(over, under, i, j + 1);
            WantedMore(slots, hot, pairs, more);
            return;
          }
        }
      }
    }

    /** Up to 64 hot slots that are stable on `from`, by the aggregated access counts. */
    method HotSlots(from: nat, to: nat) returns (found: seq<Migration>)
      requires Valid()
      ensures found == First(Moves(slots, HotByMetrics(accessCount), (from, to), TOTAL_SLOTS), MIGRATION_BATCH_SIZE)
    {
      SlotTable();
      hide SlotManager.Valid;
      found := [];
      ghost var hot := HotByMetrics(accessCount);
      for slot := 0 to |slots|
        invariant found == Moves(slots, hot, (from, to), slot) && |found| <= MIGRATION_BATCH_SIZE
      {
        if |found| == MIGRATION_BATCH_SIZE {
          MovesPrefix(slots, hot, (from, to), slot);
          return;
        }
        if slots[slot] == Stable(from) && slot in accessCount && accessCount[slot] > HOT_KEY_THRESHOLD {
          found := found + [Migration(slot, from, to)];
        }
      }
    }

    /** Planning from the hot-path counters: the batch limit is looked at before each slot. */
    method PlanFromCounters() returns (plan: seq<Migration>)
      requires Valid()
      ensures |shardOps| == shardCount && PlannedByCounters(slots, CounterLoads(), slotAccess, plan)
      ensures Sound(slots, CounterLoads(), HotByCounters(slotAccess), plan) && |plan| <= 64
      ensures |plan| < 64 ==> Complete(slots, CounterLoads(), HotByCounters(slotAccess), plan)
      ensures forall m :: m in plan ==> m.slot < |slotAccess| && slotAccess[m.slot] > 100
    {
      SlotTable();
      BatchSize();
      var loads := map i: nat | 0 <= i < shardCount :: shardOps[i];
      assert loads == CounterLoads() && 0 in loads;
      var order := seq(shardCount, i requires 0 <= i < shardCount => i);
      assert forall s :: s in loads ==> order[s] == s;
      assert Ascending(order) && Distinct(order);
      hide *;
      var total := Sum(loads);
      ghost var hot := HotByCounters(slotAccess);
      if total == 0 {
        NothingClassified(loads);
        PairsStart([], []);
        NothingWanted(slots, hot);
        plan := [];
        ByCounters(slots, loads, slotAccess, [], []);
        PlansAreCalled(slots, loads, hot, [], []);
        assert First(plan, MIGRATION_BATCH_SIZE) == plan;
        return;
      }
      var over, under := Classify(loads, order);
      plan := PlanBySlot(over, under);
      ByCounters(slots, loads, slotAccess, over, under);
      PlansAreCalled(slots, loads, hot, over, under);
      HotByCountersMeans(slots, loads, slotAccess, plan);
    }

    method PlanBySlot(over: seq<nat>, under: seq<nat>) returns (plan: seq<Migration>)
      requires Valid()
      ensures plan == First(Wanted(slots, HotByCounters(slotAccess), AllPairs(over, under, |over|)),
              MIGRATION_BATCH_SIZE)
    {
      hide *;
      plan := [];
      ghost var hot, pairs := HotByCounters(slotAccess), [];
      PairsStart(over, under);
      NothingWanted(slots, hot);
      for i := 0 to |over|
        invariant pairs == AllPairs(over, under, i)
        invariant plan == Wanted(slots, hot, pairs) && |plan| <= MIGRATION_BATCH_SIZE
      {
        PairsRow(over, under, i);
        for j := 0 to |under|
          invariant pairs == AllPairs(over, under, i) + PairsOf(over[i], under, j)
          invariant plan == Wanted(slots, hot, pairs) && |plan| <= MIGRATION_BATCH_SIZE
        {
          WantedSnoc(slots, hot, pairs, (over[i], under[j]));
          PairsStep(over, under, i, j);
          var full: bool;
          full, plan := ScanSlots(plan, over[i], under[j]);
          pairs := pairs + [(over[i], under[j])];
          if full {
            ghost var more := PairsSoFar(over, under, i, j + 1);
            WantedMore(slots, hot, pairs, more);
            FirstIs(plan, Wanted(slots, hot, AllPairs(over, under, |over|)), MIGRATION_BATCH_SIZE);
            return;
          }
        }
      }
      FirstIs(plan, plan, MIGRATION_BATCH_SIZE);
    }

    /** One pass over the slot table for one pair of shards, abandoned once the batch is full. */
    method ScanSlots(plan: seq<Migration>, from: nat, to: nat) returns (full: bool, r: seq<Migration>)
      requires Valid() && |plan| <= MIGRATION_BATCH_SIZE
      ensures |r| <= MIGRATION_BATCH_SIZE
      ensures var all := plan + Moves(slots, HotByCounters(slotAccess), (from, to), TOTAL_SLOTS);
              if full then r <= all && |r| == MIGRATION_BATCH_SIZE else r == all
    {
      SlotTable();
      hide SlotManager.Valid;
      r := plan;
      ghost var hot := HotByCounters(slotAccess);
      assert plan + [] == plan;
      for slot := 0 to |slots|
        invariant r == plan + Moves(slots, hot, (from, to), slot) && |r| <= MIGRATION_BATCH_SIZE
      {
        if |r| >= MIGRATION_BATCH_SIZE {
          MovesPrefix(slots, hot, (from, to), slot);
          return true, r;
        }
        ghost var more := if Movable(slots, hot, slot, from) then [Migration(slot, from, to)] else [];
        ConcatAssociative(plan, Moves(slots, hot, (from, to), slot), more);
        if slots[slot] == Stable(from) && slotAccess[slot] > HOT_KEY_THRESHOLD {
          r := r + [Migration(slot, from, to)];
        }
      }
      full := false;
    }

    lemma SlotTable()
      requires Valid()
      ensures |slots| == |slotAccess| == TOTAL_SLOTS && shardCount > 0 && |shardOps| == shardCount
    {
    }

    /** Keys with the same non-empty hash tag are served by the same shard in every state. */
    lemma SameTagSameShard(b1: bytes, a1: bytes, b2: bytes, a2: bytes, tag: bytes)
      requires OPEN_BRACE !in b1 && OPEN_BRACE !in b2 && CLOSE_BRACE !in tag && tag != []
      ensures KeyShard(b1 + [OPEN_BRACE] + (tag + [CLOSE_BRACE] + a1))
              == KeyShard(b2 + [OPEN_BRACE] + (tag + [CLOSE_BRACE] + a2))
    {
      hide SlotOf;
      SameTagSameSlot(b1, a1, b2, a2, tag);
    }
  }

  lemma NoLoad()
    ensures TotalLoad(map[]) == 0
  {
  }

  lemma {:induction false} LoadsAreBounded(loads: map<nat, nat>, k: nat)
    requires k in loads
    ensures loads[k] <= TotalLoad(loads)
  {
    TotalLoadPick(loads, k);
  }

  /** Without any load no shard stands out. */
  lemma NothingClassified(loads: map<nat, nat>)
    requires loads != map[] && TotalLoad(loads) == 0
    ensures Classified(loads, [], []) && TiesAscending([], loads)
  {
    hide TotalLoad;
    forall s | s in loads ensures !Overloaded(loads[s], Mean(loads)) && !Underloaded(loads[s], Mean(loads)) {
      LoadsAreBounded(loads, s);
    }
  }

  lemma FirstIs<T>(r: seq<T>, s: seq<T>, n: nat)
    requires r <= s && |r| <= n && (|r| < n ==> r == s)
    ensures First(s, n) == r
  {
  }

  lemma ByMetrics(slots: seq<SlotState>, loads: map<nat, nat>, access: map<SlotId, nat>, over: seq<nat>,
      under: seq<nat>)
    requires Classified(loads, over, under)
    ensures PlannedByMetrics(slots, loads, access, WantedByPair(slots, HotByMetrics(access), AllPairs(over, under,
            |over|)))
  {
    hide Classified; hide WantedByPair; hide HotByMetrics; hide AllPairs;
  }

  lemma ByCounters(slots: seq<SlotState>, loads: map<nat, nat>, access: seq<nat>, over: seq<nat>, under: seq<nat>)
    requires Classified(loads, over, under) && TiesAscending(over, loads) && TiesAscending(under, loads)
    ensures PlannedByCounters(slots, loads, access,
                              First(Wanted(slots, HotByCounters(access), AllPairs(over, under, |over|)),
                                  MIGRATION_BATCH_SIZE))
  {
    hide Classified; hide TiesAscending; hide Wanted; hide HotByCounters; hide AllPairs; hide First;
  }

  predicate Chosen(load: nat, average: real, above: bool) {
    if above then Overloaded(load, average) else Underloaded(load, average)
  }

  lemma NothingOrdered(loads: map<nat, nat>, heaviestFirst: bool)
    ensures Ordered([], loads, heaviestFirst) && TiesAscending([], loads)
  {
  }

  lemma InsertedAt(s: seq<nat>, x: nat, k: nat, r: seq<nat>)
    requires k <= |s| && r == s[..k] + [x] + s[k..]
    ensures |r| == |s| + 1 && r[k] == x
    ensures forall i :: 0 <= i < k ==> r[i] == s[i]
    ensures forall i :: k < i < |r| ==> r[i] == s[i - 1]
    ensures forall y :: y in r <==> y in s || y == x
  {
    assert s == s[..k] + s[k..];
  }

  lemma InsertKeepsOrder(s: seq<nat>, x: nat, k: nat, r: seq<nat>, loads: map<nat, nat>, heaviestFirst: bool)
    requires Distinct(s) && Ordered(s, loads, heaviestFirst) && x !in s && x in loads
    requires k <= |s| && r == s[..k] + [x] + s[k..]
    requires k > 0 ==> Rank(loads[s[k - 1]], heaviestFirst) <= Rank(loads[x], heaviestFirst)
    requires forall i :: k <= i < |s| ==> Rank(loads[x], heaviestFirst) < Rank(loads[s[i]], heaviestFirst)
    ensures Distinct(r) && Ordered(r, loads, heaviestFirst)
    ensures TiesAscending(s, loads) && (forall y :: y in s ==> y < x) ==> TiesAscending(r, loads)
  {
    InsertedAt(s, x, k, r);
    forall i | 0 <= i < |r| ensures r[i] in loads && (i != k ==> r[i] in s) {
      SourceOf(s, x, k, r, i);
    }
    forall i, j | 0 <= i < j < |r|
      ensures r[i] != r[j]
      ensures Rank(loads[r[i]], heaviestFirst) <= Rank(loads[r[j]], heaviestFirst)
      ensures TiesAscending(s, loads) && (forall y :: y in s ==> y < x) && loads[r[i]] == loads[r[j]] ==> r[i] < r[j]
    {
      hide Rank;
      RankedPair(s, x, k, r, loads, heaviestFirst, i, j);
    }
  }

  lemma SourceOf(s: seq<nat>, x: nat, k: nat, r: seq<nat>, i: nat)
    requires k <= |s| && |r| == |s| + 1 && r == s[..k] + [x] + s[k..] && i < |r|
    ensures i < k ==> r[i] == s[i] && r[i] in s
    ensures i == k ==> r[i] == x
    ensures i > k ==> r[i] == s[i - 1] && r[i] in s
  {
    InsertedAt(s, x, k, r);
  }

  lemma RankedPair(s: seq<nat>, x: nat, k: nat, r: seq<nat>, loads: map<nat, nat>, heaviestFirst: bool, i: nat, j: nat)
    requires Distinct(s) && Ordered(s, loads, heaviestFirst) && x !in s && x in loads
    requires k <= |s| && r == s[..k] + [x] + s[k..] && i < j < |r|
    requires k > 0 ==> Rank(loads[s[k - 1]], heaviestFirst) <= Rank(loads[x], heaviestFirst)
    requires forall i :: k <= i < |s| ==> Rank(loads[x], heaviestFirst) < Rank(loads[s[i]], heaviestFirst)
    ensures r[i] in loads && r[j] in loads && r[i] != r[j]
    ensures Rank(loads[r[i]], heaviestFirst) <= Rank(loads[r[j]], heaviestFirst)
    ensures TiesAscending(s, loads) && (forall y :: y in s ==> y < x) && loads[r[i]] == loads[r[j]] ==> r[i] < r[j]
  {
    SourceOf(s, x, k, r, i);
    SourceOf(s, x, k, r, j);
    if j == k && i < k - 1 {
      assert Rank(loads[s[i]], heaviestFirst) <= Rank(loads[s[k - 1]], heaviestFirst);
    }
  }

  lemma {:induction false} MovesPrefix(slots: seq<SlotState>, hot: seq<bool>, p: ShardPair, n: nat)
    requires n <= TOTAL_SLOTS
    ensures Moves(slots, hot, p, n) <= Moves(slots, hot, p, TOTAL_SLOTS)
    decreases TOTAL_SLOTS - n
  {
    hide Movable;
    if n < TOTAL_SLOTS {
      MovesPrefix(slots, hot, p, n + 1);
    }
  }

  lemma PairsStart(over: seq<nat>, under: seq<nat>)
    ensures AllPairs(over, under, 0) == []
  {
  }

  lemma PairsRow(over: seq<nat>, under: seq<nat>, i: nat)
    requires i < |over|
    ensures AllPairs(over, under, i) + PairsOf(over[i], under, 0) == AllPairs(over, under, i)
    ensures AllPairs(over, under, i + 1) == AllPairs(over, under, i) + PairsOf(over[i], under, |under|)
  {
  }

  lemma PairsStep(over: seq<nat>, under: seq<nat>, i: nat, j: nat)
    requires i < |over| && j < |under|
    ensures AllPairs(over, under, i) + PairsOf(over[i], under, j) + [(over[i], under[j])]
         == AllPairs(over, under, i) + PairsOf(over[i], under, j + 1)
  {
    hide AllPairs;
  }
}
