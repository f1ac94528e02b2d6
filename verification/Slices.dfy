/** One map kept as several: a routing function says which part each key belongs to. */
module Slices {
  import opened Bytes
  import opened KeyValue

  type Router = bytes -> nat

  /** The part of a store that belongs to shard `i`. */
  function Slice(m: Store, route: Router, i: nat): Store {
    map k | k in m && route(k) == i :: m[k]
  }

  lemma SlicePut(m: Store, route: Router, i: nat, k: bytes, v: bytes)
    ensures Slice(m[k := v], route, i) == if route(k) == i then Slice(m, route, i)[k := v] else Slice(m, route, i)
  {
  }

  lemma SliceRemove(m: Store, route: Router, i: nat, k: bytes)
    ensures Slice(m - {k}, route, i) == if route(k) == i then Slice(m, route, i) - {k} else Slice(m, route, i)
  {
  }

  // ---- sizes ----

  /** Total size of the first `n` slices. */
  function SliceSizes(m: Store, route: Router, n: nat): nat {
    if n == 0 then 0 else SliceSizes(m, route, n - 1) + |Slice(m, route, n - 1)|
  }

  function Below(m: Store, route: Router, n: nat): Store {
    map k | k in m && route(k) < n :: m[k]
  }

  lemma BelowGrows(m: Store, route: Router, n: nat)
    ensures |Below(m, route, n + 1)| == |Below(m, route, n)| + |Slice(m, route, n)|
  {
    var a, b, c := Below(m, route, n).Keys, Slice(m, route, n).Keys, Below(m, route, n + 1).Keys;
    assert a !! b;
    assert c == a + b;
    assert |a + b| == |a| + |b|;
  }

  lemma {:induction false} SlicesPartition(m: Store, route: Router, n: nat)
    ensures SliceSizes(m, route, n) == |Below(m, route, n)|
    decreases n
  {
    hide Slice;
    if n == 0 {
      assert Below(m, route, 0) == map[];
    } else {
      hide Below;
      SlicesPartition(m, route, n - 1);
      BelowGrows(m, route, n - 1);
    }
  }

  /** When every key routes below `n`, the slices partition the store, so their sizes add up to its size. */
  lemma SlicesCover(m: Store, route: Router, n: nat)
    requires forall k :: k in m ==> route(k) < n
    ensures SliceSizes(m, route, n) == |m|
  {
    SlicesPartition(m, route, n);
    assert Below(m, route, n) == m;
  }

  // ---- grouping ----

  /** The entries of one shard, in caller order. */
  function Only(entries: seq<Entry>, route: Router, i: nat): seq<Entry> {
    if entries == [] then []
    else
      var (init, last) := (entries[..|entries| - 1], entries[|entries| - 1]);
      if route(last.0) == i then Only(init, route, i) + [last] else Only(init, route, i)
  }

  lemma OnlySnoc(entries: seq<Entry>, e: Entry, route: Router, i: nat)
    ensures Only(entries + [e], route, i)
            == if route(e.0) == i then Only(entries, route, i) + [e] else Only(entries, route, i)
  {
    assert (entries + [e])[..|entries|] == entries;
  }

  /** Inserting entries group by group is inserting them left to right. */
  lemma {:induction false} GroupedPut(m: Store, entries: seq<Entry>, route: Router, i: nat)
    ensures Slice(PutAll(m, entries), route, i) == PutAll(Slice(m, route, i), Only(entries, route, i))
    decreases |entries|
  {
    if entries != [] {
      var init, last := entries[..|entries| - 1], entries[|entries| - 1];
      assert entries == init + [last];
      PutAllSnoc(m, init, last);
      GroupedPut(m, init, route, i);
      SlicePut(PutAll(m, init), route, i, last.0, last.1);
      PutAllSnoc(Slice(m, route, i), Only(init, route, i), last);
    }
  }

  /** Deduplicating first, last writer winning, and then overlaying gives the same store. */
  lemma {:induction false} PutAllIsOverlay(m: Store, entries: seq<Entry>)
    ensures PutAll(m, entries) == m + PutAll(map[], entries)
    decreases |entries|
  {
    if entries != [] {
      var init, last := entries[..|entries| - 1], entries[|entries| - 1];
      assert entries == init + [last];
      PutAllSnoc(m, init, last);
      PutAllSnoc(map[], init, last);
      PutAllIsOverlay(m, init);
    }
  }

  /** Where the keys of one shard stand in the caller's list. */
  function Positions(keys: seq<bytes>, route: Router, i: nat): seq<nat> {
    if keys == [] then []
    else
      var n := |keys| - 1;
      if route(keys[n]) == i then Positions(keys[..n], route, i) + [n] else Positions(keys[..n], route, i)
  }

  lemma {:induction false} PositionsExact(keys: seq<bytes>, route: Router, i: nat)
    ensures forall p :: p in Positions(keys, route, i) <==> 0 <= p < |keys| && route(keys[p]) == i
    decreases |keys|
  {
    if keys != [] {
      PositionsExact(keys[..|keys| - 1], route, i);
    }
  }

  lemma PositionsSnoc(keys: seq<bytes>, n: nat, route: Router, i: nat)
    requires n < |keys|
    ensures Positions(keys[..n + 1], route, i)
         == if route(keys[n]) == i then Positions(keys[..n], route, i) + [n] else Positions(keys[..n], route, i)
  {
    assert keys[..n + 1][..n] == keys[..n];
  }

  /** The listed keys paired with their values in `kv`. */
  function Pairs(keys: seq<bytes>, list: seq<nat>, kv: Store): (r: seq<Entry>)
    requires forall p :: p in list ==> p < |keys| && keys[p] in kv
    ensures |r| == |list|
  {
    seq(|list|, t requires 0 <= t < |list| => assert list[t] in list; (keys[list[t]], kv[keys[list[t]]]))
  }

  predicate Names(entries: seq<Entry>, k: bytes) {
    exists i :: 0 <= i < |entries| && entries[i].0 == k
  }

  predicate Agrees(entries: seq<Entry>, kv: Store) {
    forall i :: 0 <= i < |entries| ==> entries[i].0 in kv && kv[entries[i].0] == entries[i].1
  }

  lemma NamesSnoc(entries: seq<Entry>, e: Entry, k: bytes)
    ensures Names(entries + [e], k) <==> Names(entries, k) || e.0 == k
  {
    var all := entries + [e];
    assert all[|entries|] == e;
    if Names(entries, k) {
      var i :| 0 <= i < |entries| && entries[i].0 == k;
      assert all[i].0 == k;
    }
  }

  /** Entries that all agree with one map insert exactly the part of it they name. */
  lemma {:induction false} AgreeingPut(m: Store, entries: seq<Entry>, kv: Store, k: bytes)
    requires Agrees(entries, kv)
    ensures var r := PutAll(m, entries);
            if Names(entries, k) then k in r && k in kv && r[k] == kv[k]
            else (k in r <==> k in m) && (k in m ==> r[k] == m[k])
    decreases |entries|
  {
    if entries != [] {
      var init, last := entries[..|entries| - 1], entries[|entries| - 1];
      assert entries == init + [last];
      PutAllSnoc(m, init, last);
      AgreeingPut(m, init, kv, k);
      NamesSnoc(init, last, k);
    }
  }

  lemma PairsNamed(keys: seq<bytes>, kv: Store, route: Router, i: nat, k: bytes)
    requires forall k :: k in kv <==> k in keys
    requires forall p :: p in Positions(keys, route, i) ==> p < |keys| && keys[p] in kv
    ensures var es := Pairs(keys, Positions(keys, route, i), kv);
            Agrees(es, kv) && (Names(es, k) <==> k in kv && route(k) == i)
  {
    hide Positions;
    var list := Positions(keys, route, i);
    var es := Pairs(keys, list, kv);
    PositionsExact(keys, route, i);
    assert forall t :: 0 <= t < |es| ==> list[t] in list && es[t] == (keys[list[t]], kv[keys[list[t]]]);
    if k in kv && route(k) == i {
      var p :| 0 <= p < |keys| && keys[p] == k;
      assert p in list;
      var t :| 0 <= t < |list| && list[t] == p;
      assert es[t].0 == k;
    }
  }

  /** Writing the group of one shard overlays exactly that shard's part of the deduplicated map. */
  lemma GroupOverlay(m: Store, keys: seq<bytes>, kv: Store, route: Router, i: nat)
    requires forall k :: k in kv <==> k in keys
    requires forall p :: p in Positions(keys, route, i) ==> p < |keys| && keys[p] in kv
    ensures PutAll(Slice(m, route, i), Pairs(keys, Positions(keys, route, i), kv)) == Slice(m + kv, route, i)
  {
    hide Positions; hide Pairs; hide Names; hide Agrees; hide PutAll;
    var es := Pairs(keys, Positions(keys, route, i), kv);
    var base, want := Slice(m, route, i), Slice(m + kv, route, i);
    var r := PutAll(base, es);
    forall k ensures (k in r <==> k in want) && (k in r ==> r[k] == want[k]) {
      PairsNamed(keys, kv, route, i, k);
      AgreeingPut(base, es, kv, k);
    }
  }

  // ---- counting accesses ----

  /** How many of the keys are routed to `x`. */
  ghost function Hits(keys: seq<bytes>, route: Router, x: nat): (n: nat)
    ensures n == |set i | 0 <= i < |keys| && route(keys[i]) == x|
  {
    if keys == [] then 0
    else
      var (init, last) := (keys[..|keys| - 1], keys[|keys| - 1]);
      HitsCard(init, last, route, x);
      assert keys == init + [last];
      Hits(init, route, x) + if route(last) == x then 1 else 0
  }

  lemma HitsCard(init: seq<bytes>, last: bytes, route: Router, x: nat)
    ensures |set i | 0 <= i < |init + [last]| && route((init + [last])[i]) == x|
         == |set i | 0 <= i < |init| && route(init[i]) == x| + (if route(last) == x then 1 else 0)
  {
    var n, all := |init|, init + [last];
    assert (set i | 0 <= i < |all| && route(all[i]) == x)
        == (set i | 0 <= i < n && route(init[i]) == x) + (if route(last) == x then {n} else {});
  }

  lemma {:induction false} HitsConcat(a: seq<bytes>, b: seq<bytes>, route: Router, x: nat)
    ensures Hits(a + b, route, x) == Hits(a, route, x) + Hits(b, route, x)
    decreases |b|
  {
    if b == [] {
      assert a + b == a;
    } else {
      var init, last := b[..|b| - 1], b[|b| - 1];
      HitsConcat(a, init, route, x);
      assert (a + b)[..|a + b| - 1] == a + init;
    }
  }

  /** Counters, one for each place keys are routed to, after these keys were counted. */
  ghost predicate Grown(before: seq<nat>, after: seq<nat>, keys: seq<bytes>, route: Router) {
    |before| == |after| && forall x :: 0 <= x < |after| ==> after[x] == before[x] + Hits(keys, route, x)
  }

  lemma GrownNone(a: seq<nat>, route: Router)
    ensures Grown(a, a, [], route)
  {
  }

  lemma GrownOne(a: seq<nat>, key: bytes, route: Router)
    requires route(key) < |a|
    ensures Grown(a, a[route(key) := a[route(key)] + 1], [key], route)
  {
    forall x ensures Hits([key], route, x) == if route(key) == x then 1 else 0 {
      assert [key][..0] == [];
      assert Hits([], route, x) == 0;
    }
  }

  lemma GrownThen(a: seq<nat>, b: seq<nat>, c: seq<nat>, x: seq<bytes>, y: seq<bytes>, route: Router)
    requires Grown(a, b, x, route) && Grown(b, c, y, route)
    ensures Grown(a, c, x + y, route)
  {
    hide Hits;
    forall i | 0 <= i < |c| ensures c[i] == a[i] + Hits(x + y, route, i) {
      HitsConcat(x, y, route, i);
    }
  }
}
