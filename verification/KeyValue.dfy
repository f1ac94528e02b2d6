/** The logical store: one map from keys to values, and what a log of operations does to it. */
module KeyValue {
  import opened Bytes
  import opened AofFormat

  type Store = map<bytes, bytes>
  type Entry = (bytes, bytes)

  function Lookup(m: Store, k: bytes): Option<bytes> {
    if k in m then Some(m[k]) else None
  }

  function LookupAll(m: Store, keys: seq<bytes>): seq<Option<bytes>> {
    seq(|keys|, i requires 0 <= i < |keys| => Lookup(m, keys[i]))
  }

  /** The value under `from` moved to `to`, whatever was there. */
  function Moved(m: Store, from: bytes, to: bytes): Store
    requires from in m
  {
    (m - {from})[to := m[from]]
  }

  function Apply(m: Store, op: Op): Store {
    match op
    case Set(key, value) => m[key := value]
    case Del(key) => m - {key}
  }

  /** Replaying operations in order over a store. */
  function Fold(m: Store, ops: seq<Op>): Store
    decreases |ops|
  {
    if ops == [] then m else Fold(Apply(m, ops[0]), ops[1..])
  }

  function Sets(entries: seq<Entry>): (r: seq<Op>)
    ensures |r| == |entries| && forall i :: 0 <= i < |r| ==> r[i] == Set(entries[i].0, entries[i].1)
  {
    seq(|entries|, i requires 0 <= i < |entries| => Set(entries[i].0, entries[i].1))
  }

  /** Left-to-right insertion of entries, the last duplicate winning. */
  function PutAll(m: Store, entries: seq<Entry>): Store
    decreases |entries|
  {
    if entries == [] then m else PutAll(m[entries[0].0 := entries[0].1], entries[1..])
  }

  /** The entries are one of the iteration orders of a hash map holding `m`. */
  ghost predicate Enumerates(entries: seq<Entry>, m: Store) {
    && (forall i, j :: 0 <= i < j < |entries| ==> entries[i].0 != entries[j].0)
    && (forall i :: 0 <= i < |entries| ==> entries[i].0 in m && m[entries[i].0] == entries[i].1)
    && (forall k :: k in m ==> exists i :: 0 <= i < |entries| && entries[i].0 == k)
  }

  /** The keys a log mentions. */
  function Touched(ops: seq<Op>): set<bytes> {
    set i | 0 <= i < |ops| :: ops[i].key
  }

  lemma {:induction false} FoldConcat(m: Store, a: seq<Op>, b: seq<Op>)
    ensures Fold(m, a + b) == Fold(Fold(m, a), b)
    decreases |a|
  {
    if a == [] {
      assert a + b == b;
    } else {
      assert (a + b)[1..] == a[1..] + b;
      FoldConcat(Apply(m, a[0]), a[1..], b);
    }
  }

  lemma FoldSnoc(m: Store, a: seq<Op>, op: Op)
    ensures Fold(m, a + [op]) == Apply(Fold(m, a), op)
  {
    FoldConcat(m, a, [op]);
    assert Fold(Fold(m, a), [op]) == Fold(Apply(Fold(m, a), op), [op][1..]);
  }

  lemma {:induction false} PutAllConcat(m: Store, a: seq<Entry>, b: seq<Entry>)
    ensures PutAll(m, a + b) == PutAll(PutAll(m, a), b)
    decreases |a|
  {
    if a == [] {
      assert a + b == b;
    } else {
      assert (a + b)[1..] == a[1..] + b;
      PutAllConcat(m[a[0].0 := a[0].1], a[1..], b);
    }
  }

  lemma PutAllSnoc(m: Store, a: seq<Entry>, e: Entry)
    ensures PutAll(m, a + [e]) == PutAll(m, a)[e.0 := e.1]
  {
    PutAllConcat(m, a, [e]);
    assert PutAll(PutAll(m, a), [e]) == PutAll(PutAll(m, a)[e.0 := e.1], [e][1..]);
  }

  lemma PutNone(m: Store)
    ensures PutAll(m, []) == m
  {
  }

  /** Insert one entry after the other, as `InMemoryStore::mset` does. */
  method InsertAll(m: Store, entries: seq<Entry>) returns (r: Store)
    ensures r == PutAll(m, entries)
  {
    hide PutAll;
    r := m;
    PutNone(m);
    assert entries[..0] == [];
    for i := 0 to |entries|
      invariant r == PutAll(m, entries[..i])
    {
      assert entries[..i + 1] == entries[..i] + [entries[i]];
      PutAllSnoc(m, entries[..i], entries[i]);
      r := r[entries[i].0 := entries[i].1];
    }
    assert entries[..|entries|] == entries;
  }

  lemma {:induction false} FoldOfSets(m: Store, entries: seq<Entry>)
    ensures Fold(m, Sets(entries)) == PutAll(m, entries)
    decreases |entries|
  {
    if entries != [] {
      assert Sets(entries)[1..] == Sets(entries[1..]);
      FoldOfSets(m[entries[0].0 := entries[0].1], entries[1..]);
    }
  }

  /** What insertion leaves under each key, for entries without duplicate keys. */
  lemma {:induction false} PutAllLookup(m: Store, entries: seq<Entry>)
    requires forall i, j :: 0 <= i < j < |entries| ==> entries[i].0 != entries[j].0
    ensures forall i :: 0 <= i < |entries| ==>
            entries[i].0 in PutAll(m, entries) && PutAll(m, entries)[entries[i].0] == entries[i].1
    ensures forall k :: (forall i :: 0 <= i < |entries| ==> entries[i].0 != k) ==>
                          (k in PutAll(m, entries) <==> k in m) && (k in m ==> PutAll(m, entries)[k] == m[k])
    decreases |entries|
  {
    if entries != [] {
      var m', tail := m[entries[0].0 := entries[0].1], entries[1..];
      PutAllLookup(m', tail);
      forall i | 0 <= i < |entries|
        ensures entries[i].0 in PutAll(m, entries) && PutAll(m, entries)[entries[i].0] == entries[i].1
      {
        if i > 0 {
          assert tail[i - 1] == entries[i];
        } else {
          assert forall j :: 0 <= j < |tail| ==> tail[j] == entries[j + 1];
        }
      }
      forall k | forall i :: 0 <= i < |entries| ==> entries[i].0 != k
        ensures (k in PutAll(m, entries) <==> k in m) && (k in m ==> PutAll(m, entries)[k] == m[k])
      {
        assert forall j :: 0 <= j < |tail| ==> tail[j] == entries[j + 1];
      }
    }
  }

  /** Whatever order a map is written out in, inserting the entries rebuilds exactly that map. */
  lemma EnumerationRebuilds(entries: seq<Entry>, m: Store)
    requires Enumerates(entries, m)
    ensures PutAll(map[], entries) == m
    ensures Fold(map[], Sets(entries)) == m
  {
    EnumerationOverlays(entries, m, map[]);
    assert map[] + m == m;
    FoldOfSets(map[], entries);
  }

  /** Inserting the entries of one map over another is map union. */
  lemma EnumerationOverlays(entries: seq<Entry>, m: Store, base: Store)
    requires Enumerates(entries, m)
    ensures PutAll(base, entries) == base + m
  {
    PutAllLookup(base, entries);
    var r := PutAll(base, entries);
    forall k ensures (k in r <==> k in base + m) && (k in r ==> r[k] == (base + m)[k]) {
      if k in m {
        var i :| 0 <= i < |entries| && entries[i].0 == k;
      } else {
        assert forall i :: 0 <= i < |entries| ==> entries[i].0 != k;
      }
    }
  }

  /** A mentioned key ends up the same whatever was there before; an unmentioned one is left alone. */
  lemma {:induction false} FoldPerKey(m: Store, m': Store, ops: seq<Op>, k: bytes)
    ensures k in Touched(ops) ==>
              (k in Fold(m, ops) <==> k in Fold(m', ops)) && (k in Fold(m, ops) ==> Fold(m, ops)[k] == Fold(m', ops)[k])
    ensures k !in Touched(ops) ==>
              (k in Fold(m, ops) <==> k in m) && (k in m ==> Fold(m, ops)[k] == m[k])
    decreases |ops|
  {
    if ops != [] {
      var n := |ops| - 1;
      var a, op := ops[..n], ops[n];
      assert ops == a + [op];
      FoldSnoc(m, a, op);
      FoldSnoc(m', a, op);
      FoldPerKey(m, m', a, k);
      TouchedSnoc(a, op);
    }
  }

  lemma TouchedSnoc(a: seq<Op>, op: Op)
    ensures Touched(a + [op]) == Touched(a) + {op.key}
  {
    var ops := a + [op];
    forall k | k in Touched(a) + {op.key} ensures k in Touched(ops) {
      if k == op.key {
        assert ops[|a|].key == k;
      } else {
        var i :| 0 <= i < |a| && a[i].key == k;
        assert ops[i].key == k;
      }
    }
  }

  /**
   Replaying a whole log over a store that is not empty is harmless exactly when the log mentions
   every key the store already holds.
   */
  lemma ReplayOverStore(m: Store, ops: seq<Op>)
    ensures Fold(m, ops) == Fold(map[], ops) <==> m.Keys <= Touched(ops)
  {
    if m.Keys <= Touched(ops) {
      forall k
        ensures k in Fold(m, ops) <==> k in Fold(map[], ops)
        ensures k in Fold(m, ops) ==> Fold(m, ops)[k] == Fold(map[], ops)[k]
      {
        FoldPerKey(m, map[], ops, k);
        FoldPerKey(map[], m, ops, k);
      }
    } else {
      var k :| k in m.Keys && k !in Touched(ops);
      FoldPerKey(m, map[], ops, k);
      FoldPerKey(map[], m, ops, k);
    }
  }

  /** Every key of a replayed store was mentioned by the log. */
  lemma FoldKeysTouched(ops: seq<Op>)
    ensures Fold(map[], ops).Keys <= Touched(ops)
  {
    forall k | k in Fold(map[], ops) ensures k in Touched(ops) {
      FoldPerKey(map[], map[], ops, k);
    }
  }
}
