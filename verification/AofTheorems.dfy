/** What replaying a log delivers: whole logs, torn logs, damaged logs. */
module AofTheorems {
  import opened Bytes
  import opened AofFormat
  import opened Aof1Format
  import Crc32

  // ---- whole logs ----

  lemma ScanRecord(op: Op, t: bytes)
    requires Fits(op)
    ensures Scan(Encode(op) + t) == [op] + Scan(t)
    ensures StrictScan(Encode(op) + t) == Outcome([op] + StrictScan(t).ops, StrictScan(t).error)
  {
    hide Encode;
    var s := Encode(op) + t;
    assert Starts(s, op);
    RecordUnique(s, op, RecordOf(s));
    assert s[|Encode(op)|..] == t;
  }

  /** Both readers deliver a written log in full and in order, then carry on with what follows it. */
  lemma {:induction false} LogIsRead(ops: seq<Op>, t: bytes)
    requires AllFit(ops)
    ensures Scan(EncodeAll(ops) + t) == ops + Scan(t)
    ensures StrictScan(EncodeAll(ops) + t) == Outcome(ops + StrictScan(t).ops, StrictScan(t).error)
  {
    hide Encode; hide Scan; hide StrictScan; hide Fits;
    if ops == [] {
      assert EncodeAll(ops) + t == t;
      assert ops + Scan(t) == Scan(t) && ops + StrictScan(t).ops == StrictScan(t).ops;
    } else {
      var head, tail := ops[0], ops[1..];
      var rest := EncodeAll(tail) + t;
      ConcatAssociative(Encode(head), EncodeAll(tail), t);
      ScanRecord(head, rest);
      LogIsRead(tail, t);
      assert ops == [head] + tail;
      ConcatAssociative([head], tail, Scan(t));
      ConcatAssociative([head], tail, StrictScan(t).ops);
    }
  }

  /** A log written record by record replays to exactly the operations written. */
  lemma LogRoundTrip(ops: seq<Op>)
    requires AllFit(ops)
    ensures StrictScan(EncodeAll(ops)) == Outcome(ops, None)
    ensures Scan(EncodeAll(ops)) == ops
  {
    LogIsRead(ops, []);
    assert EncodeAll(ops) + [] == EncodeAll(ops);
  }

  lemma {:induction false} ScanDeliversFitting(s: bytes)
    ensures AllFit(Scan(s))
    ensures AllFit(StrictScan(s).ops)
    decreases |s|
  {
    hide Encode;
    if s != [] {
      if StartsRecord(s) {
        ScanDeliversFitting(s[|Encode(RecordOf(s))|..]);
      } else {
        ScanDeliversFitting(s[1..]);
      }
    }
  }

  /**
   Strict replay accepts exactly the buffers a writer can have produced, and printing what it delivered gives
   the buffer back.
   */
  lemma {:induction false} StrictAcceptsWrittenLogs(s: bytes)
    ensures StrictScan(s).error.None? <==> EncodeAll(StrictScan(s).ops) == s
    decreases |s|
  {
    hide Encode; hide Validate; hide RecordAt;
    if s == [] {
    } else if StartsRecord(s) {
      var op := RecordOf(s);
      var e, rest := Encode(op), s[|Encode(op)|..];
      StrictAcceptsWrittenLogs(rest);
      assert s == e + rest;
      var ops := [op] + StrictScan(rest).ops;
      assert ops[1..] == StrictScan(rest).ops;
      assert EncodeAll(ops) == e + EncodeAll(ops[1..]);
      assert EncodeAll(ops) == s <==> EncodeAll(ops[1..]) == rest by {
        assert (e + EncodeAll(ops[1..]))[|e|..] == EncodeAll(ops[1..]);
      }
    } else {
      assert EncodeAll([]) == [];
    }
  }

  /**
   The strict reader delivers an appended record last, and finishes, exactly when it could finish
   before; the tolerant reader then delivers the same.
   */
  lemma AppendToCleanLog(s: bytes, op: Op)
    requires Fits(op)
    ensures StrictScan(s + Encode(op)) == Outcome(StrictScan(s).ops + [op], None) <==> StrictScan(s).error.None?
    ensures StrictScan(s).error.None? ==> Scan(s + Encode(op)) == Scan(s) + [op] && Scan(s) == StrictScan(s).ops
  {
    hide *;
    var ops := StrictScan(s).ops;
    StrictAcceptsWrittenLogs(s);
    EncodeOne(op);
    if StrictScan(s).error.None? {
      ScanDeliversFitting(s);
      LogRoundTrip(ops);
      LogIsRead(ops, Encode(op));
      OneFits(op);
      LogRoundTrip([op]);
    } else if StrictScan(s + Encode(op)) == Outcome(ops + [op], None) {
      StrictAcceptsWrittenLogs(s + Encode(op));
      EncodeAllConcat(ops, [op]);
      SameTail(EncodeAll(ops), s, Encode(op));
      assert false;
    }
  }

  lemma SameTail(a: bytes, b: bytes, t: bytes)
    requires a + t == b + t
    ensures a == b
  {
    assert |a| == |b|;
    assert a == (a + t)[..|a|] && b == (b + t)[..|b|];
  }

  lemma OneFits(op: Op)
    requires Fits(op)
    ensures AllFit([op])
  {
  }

  /** The length cast is the one thing that can spoil the round trip: a record survives iff its lengths fit. */
  lemma RoundTripIffFits(op: Op)
    ensures Scan(Encode(op)) == [op] <==> Fits(op)
  {
    if Fits(op) {
      assert EncodeAll([op]) == Encode(op);
      LogRoundTrip([op]);
    } else {
      ScanDeliversFitting(Encode(op));
      assert !AllFit([op]) by { assert [op][0] == op; }
    }
  }

  lemma {:induction false} EncodeAllConcat(a: seq<Op>, b: seq<Op>)
    ensures EncodeAll(a + b) == EncodeAll(a) + EncodeAll(b)
  {
    hide Encode;
    if a == [] {
      assert a + b == b;
    } else {
      assert (a + b)[1..] == a[1..] + b;
      EncodeAllConcat(a[1..], b);
    }
  }

  // ---- torn logs ----

  /** How many leading records lie wholly inside the first `cut` bytes. */
  function WholeRecords(ops: seq<Op>, cut: nat): (n: nat)
    ensures n <= |ops|
    decreases |ops|
  {
    if ops == [] || |Encode(ops[0])| > cut then 0
    else 1 + WholeRecords(ops[1..], cut - |Encode(ops[0])|)
  }

  /** A record cut short is reported as truncated, never as anything else. */
  lemma CutRecord(op: Op, r: nat)
    requires Fits(op) && 0 < r < |Encode(op)|
    ensures var s := Encode(op)[..r];
            !StartsRecord(s) && Validate(RecordAt(s, 0)) == Truncated
  {
    hide Crc32.Checksum; hide PutU32; hide GetU32;
    var e, s, k := Encode(op), Encode(op)[..r], |op.key|;
    assert e == e + [];
    Layout(op, []);
    hide Encode; hide Payload;
    assert s[0] == e[0] && s[0..r] == s;
    if r >= 9 {
      U32Prefix(e, r, 5);
      U32Shift(s, 5, 0);
      if op.Set? && 13 + k <= r {
        U32Prefix(e, r, 9 + k);
        U32Shift(s, 5, 4 + k);
      }
    }
    assert FindRecordEnd(s, 0) == r;
    ReadExactly(s);
  }

  lemma {:induction false} WholeRecordsExact(ops: seq<Op>, cut: nat)
    requires cut <= |EncodeAll(ops)|
    ensures var n := WholeRecords(ops, cut);
            |EncodeAll(ops[..n])| <= cut && (n < |ops| ==> cut < |EncodeAll(ops[..n + 1])|)
    decreases |ops|
  {
    hide Encode; hide EncodeAll;
    EncodeNone();
    if ops != [] {
      EncodeCons(ops);
      var n, e, tail := WholeRecords(ops, cut), Encode(ops[0]), ops[1..];
      if |e| <= cut {
        WholeRecordsExact(tail, cut - |e|);
        assert ops[..n][1..] == tail[..n - 1];
        EncodeCons(ops[..n]);
      }
      if n < |ops| {
        assert ops[..n + 1][1..] == tail[..n];
        EncodeCons(ops[..n + 1]);
      }
    }
  }

  /**
   Every byte prefix of a written log. Strict replay delivers exactly the operations that lie
   wholly inside the prefix and succeeds iff the cut is on a record boundary; tolerant replay
   delivers those operations first, then whatever the scanner makes of the torn tail.
   */
  lemma TornLog(ops: seq<Op>, cut: nat)
    requires AllFit(ops) && cut <= |EncodeAll(ops)|
    ensures var n, s := WholeRecords(ops, cut), EncodeAll(ops)[..cut];
            && StrictScan(s).ops == ops[..n]
            && |EncodeAll(ops[..n])| <= cut
            && Scan(s) == ops[..n] + Scan(s[|EncodeAll(ops[..n])|..])
            && (n < |ops| ==> cut < |EncodeAll(ops[..n + 1])|)
            && StrictScan(s).error == (if cut == |EncodeAll(ops[..n])| then None else Some(Truncated))
  {
    hide *;
    var n, s := WholeRecords(ops, cut), EncodeAll(ops)[..cut];
    WholeRecordsExact(ops, cut);
    TornShape(ops, n, cut);
    EmptyReads();
    var a, r := ops[..n], cut - |EncodeAll(ops[..n])|;
    assert (EncodeAll(a) + s[|EncodeAll(a)|..]) == s;
    assert AllFit(a) by { SliceFits(ops, n); }
    if n == |ops| {
      LogIsRead(a, []);
      assert a + [] == a;
    } else {
      LogIsRead(a, Encode(ops[n])[..r]);
      SliceFits(ops, n);
      TornFirstRecord(ops[n], r);
      assert a + [] == a;
    }
  }

  lemma SliceFits(ops: seq<Op>, n: nat)
    requires AllFit(ops) && n <= |ops|
    ensures AllFit(ops[..n]) && AllFit(ops[n..])
    ensures n < |ops| ==> Fits(ops[n])
  {
  }

  lemma TornShape(ops: seq<Op>, n: nat, cut: nat)
    requires n <= |ops| && |EncodeAll(ops[..n])| <= cut <= |EncodeAll(ops)|
    requires n < |ops| ==> cut < |EncodeAll(ops[..n + 1])|
    ensures n == |ops| ==> cut == |EncodeAll(ops)| && EncodeAll(ops)[..cut] == EncodeAll(ops[..n]) + []
    ensures n < |ops| ==>
              var r := cut - |EncodeAll(ops[..n])|;
              r < |Encode(ops[n])| && EncodeAll(ops)[..cut] == EncodeAll(ops[..n]) + Encode(ops[n])[..r]
  {
    hide *;
    var a, b := ops[..n], ops[n..];
    assert ops == a + b;
    EncodeAllConcat(a, b);
    if n < |ops| {
      EncodeCons(b);
      assert ops[..n + 1] == a + [ops[n]];
      EncodeAllConcat(a, [ops[n]]);
      EncodeOne(ops[n]);
    } else {
      assert a == ops;
    }
  }

  lemma TornFirstRecord(op: Op, cut: nat)
    requires Fits(op) && cut < |Encode(op)|
    ensures StrictScan(Encode(op)[..cut]) == Outcome([], if cut == 0 then None else Some(Truncated))
  {
    hide Encode; hide Scan; hide Fits;
    if cut == 0 {
      EmptyReads();
    } else {
      CutRecord(op, cut);
    }
  }

  lemma EncodeNone()
    ensures EncodeAll([]) == []
  {
  }

  lemma EncodeOne(op: Op)
    ensures EncodeAll([op]) == Encode(op)
  {
    assert EncodeAll([op][1..]) == [];
  }

  lemma EncodeCons(ops: seq<Op>)
    requires ops != []
    ensures EncodeAll(ops) == Encode(ops[0]) + EncodeAll(ops[1..])
  {
  }

  lemma EmptyReads()
    ensures Scan([]) == [] && StrictScan([]) == Outcome([], None)
  {
  }

  lemma JunkIsRefused(s: bytes)
    requires s != [] && !StartsRecord(s)
    ensures StrictScan(s) == Outcome([], Some(Validate(RecordAt(s, 0))))
    ensures Scan(s) == Scan(s[1..])
  {
  }

  // ---- damaged logs ----

  lemma {:induction false} JunkIsSkipped(junk: bytes, t: bytes)
    requires forall j :: 0 <= j < |junk| ==> !StartsRecord((junk + t)[j..])
    ensures Scan(junk + t) == Scan(t)
    decreases |junk|
  {
    hide Encode;
    if junk == [] {
      assert junk + t == t;
    } else {
      var s := junk + t;
      assert s[0..] == s;
      assert s[1..] == junk[1..] + t;
      forall j | 0 <= j < |junk[1..]| ensures !StartsRecord((junk[1..] + t)[j..]) {
        assert (junk[1..] + t)[j..] == s[j + 1..];
      }
      JunkIsSkipped(junk[1..], t);
    }
  }

  /** Resynchronisation is complete: damage between two intact stretches costs neither of them anything. */
  lemma Resynchronises(a: seq<Op>, junk: bytes, b: seq<Op>)
    requires AllFit(a) && AllFit(b)
    requires forall j :: 0 <= j < |junk| ==> !StartsRecord((junk + EncodeAll(b))[j..])
    ensures Scan(EncodeAll(a) + junk + EncodeAll(b)) == a + b
  {
    hide *;
    LogIsRead(a, junk + EncodeAll(b));
    ConcatAssociative(EncodeAll(a), junk, EncodeAll(b));
    JunkIsSkipped(junk, EncodeAll(b));
    LogRoundTrip(b);
  }

  /** The two length fields still read as they were written. */
  predicate LengthsIntact(op: Op, d: bytes)
    requires |d| == |Encode(op)|
  {
    && U32At(d, 5) == |op.key|
    && (op.Set? ==> U32At(d, 9 + |op.key|) == |op.value|)
  }

  /**
   A record whose stored checksum, key or value was altered anywhere within four consecutive
   bytes is always recognised as corrupted, whatever follows it in the buffer.
   */
  lemma DamageIsCorruption(op: Op, d: bytes, at: nat, rest: bytes)
    requires Fits(op) && |d| == |Encode(op)| && d != Encode(op) && 1 <= at
    requires forall i :: 0 <= i < |d| && !(at <= i < at + 4) ==> d[i] == Encode(op)[i]
    requires LengthsIntact(op, d)
    ensures Validate(RecordAt(d + rest, 0)) == Corrupted(U32At(d, 1), Crc32.Checksum(d[5..]))
    ensures !StartsRecord(d + rest)
  {
    hide Crc32.Checksum; hide PutU32; hide GetU32;
    var e, k, s := Encode(op), |op.key|, d + rest;
    assert e == e + [];
    Layout(op, []);
    assert s[0] == e[0] == OpCode(op);
    assert s[..|d|] == d;
    U32Prefix(s, |d|, 5);
    U32Shift(d, 5, 0);
    if op.Set? {
      U32Prefix(s, |d|, 9 + k);
      U32Shift(d, 5, 4 + k);
    }
    assert FindRecordEnd(s, 0) == |d|;
    assert RecordAt(s, 0) == d;
    DamageChangesChecksum(op, d, at);
    ReadExactly(s);
  }

  lemma DamageChangesChecksum(op: Op, d: bytes, at: nat)
    requires Fits(op) && |d| == |Encode(op)| && d != Encode(op) && 1 <= at
    requires forall i :: 0 <= i < |d| && !(at <= i < at + 4) ==> d[i] == Encode(op)[i]
    requires LengthsIntact(op, d)
    ensures U32At(d, 1) != Crc32.Checksum(d[5..])
  {
    hide Crc32.Checksum; hide PutU32; hide GetU32;
    var e := Encode(op);
    assert e == e + [];
    Layout(op, []);
    assert e[5..] == Payload(op);
    hide *;
    StoredChecksumDiffers(d, e, at);
  }

  lemma StoredChecksumDiffers(d: bytes, e: bytes, at: nat)
    requires |d| == |e| >= 9 && d != e && 1 <= at
    requires forall i :: 0 <= i < |d| && !(at <= i < at + 4) ==> d[i] == e[i]
    requires U32At(d, 5) == U32At(e, 5) && U32At(e, 1) == Crc32.Checksum(e[5..])
    ensures U32At(d, 1) != Crc32.Checksum(d[5..])
  {
    hide Crc32.Checksum; hide PutU32; hide GetU32;
    var p, q := d[5..], e[5..];
    assert d == [d[0]] + d[1..5] + p && e == [e[0]] + e[1..5] + q;
    U32BytesRoundTrip(d[1..5]);
    U32BytesRoundTrip(e[1..5]);
    if at < 5 {
      SameLengthBytes(d, e, at);
    } else {
      assert d[1..5] == e[1..5];
      PayloadApart(p, q, at - 5);
    }
  }

  /** A window that reaches back into the checksum only reaches length bytes, and those are intact. */
  lemma SameLengthBytes(d: bytes, e: bytes, at: nat)
    requires |d| == |e| >= 9 && at < 5
    requires forall i :: 0 <= i < |d| && !(at <= i < at + 4) ==> d[i] == e[i]
    requires U32At(d, 5) == U32At(e, 5)
    ensures d[5..] == e[5..]
  {
    hide PutU32; hide GetU32;
    U32BytesRoundTrip(d[5..9]);
    U32BytesRoundTrip(e[5..9]);
    assert d[5..] == d[5..9] + d[9..] && e[5..] == e[5..9] + e[9..];
    assert d[9..] == e[9..];
  }

  lemma PayloadApart(p: bytes, q: bytes, at: nat)
    requires |p| == |q| && p != q
    requires forall i :: 0 <= i < |p| && !(at <= i < at + 4) ==> p[i] == q[i]
    ensures Crc32.Checksum(p) != Crc32.Checksum(q)
  {
    hide *;
    var lo := if at <= |p| then at else |p|;
    var hi := if at + 4 <= |p| then at + 4 else |p|;
    var x, y := p[lo..hi], q[lo..hi];
    assert p == q[..lo] + x + q[hi..];
    assert q == q[..lo] + y + q[hi..];
    Crc32.ChecksumDetectsFourBytes(q[..lo], x, y, q[hi..]);
  }

  /** Strict replay stops in front of the damaged record with everything before it; tolerant replay goes past it. */
  lemma DamagedRecordIsNotDelivered(a: seq<Op>, op: Op, d: bytes, at: nat, rest: bytes)
    requires AllFit(a)
    requires Fits(op) && |d| == |Encode(op)| && d != Encode(op) && 1 <= at
    requires forall i :: 0 <= i < |d| && !(at <= i < at + 4) ==> d[i] == Encode(op)[i]
    requires LengthsIntact(op, d)
    ensures var r := StrictScan(EncodeAll(a) + (d + rest));
            r.ops == a && r.error.Some? && r.error.value.Corrupted?
    ensures Scan(EncodeAll(a) + (d + rest)) == a + Scan((d + rest)[1..])
  {
    hide *;
    DamageIsCorruption(op, d, at, rest);
    LogIsRead(a, d + rest);
    JunkIsRefused(d + rest);
  }

  // ---- appending behind bytes that do not replay strictly ----

  /** The end of `s` from which scanning `s + t` meets a record that starts in `s` and ends in `t`, if it does. */
  ghost function Straddler(s: bytes, t: bytes): Option<bytes>
    decreases |s|
  {
    if s == [] then None else
    var n := if StartsRecord(s + t) then |Encode(RecordOf(s + t))| else 1;
    if n > |s| then Some(s) else Straddler(s[n..], t)
  }

  lemma {:induction false} StraddlerIsTail(s: bytes, t: bytes)
    ensures var r := Straddler(s, t);
            r.Some? ==> r.value != [] && exists p :: 0 <= p < |s| && r.value == s[p..]
    decreases |s|
  {
    hide StartsRecord; hide Encode;
    var r := Straddler(s, t);
    if r.Some? {
      assert s[0..] == s;
      var n := if StartsRecord(s + t) then |Encode(RecordOf(s + t))| else 1;
      if n <= |s| {
        StraddlerIsTail(s[n..], t);
        var p :| 0 <= p < |s[n..]| && r.value == s[n..][p..];
        assert r.value == s[n + p..];
      }
    }
  }

  lemma StartsLonger(s: bytes, t: bytes)
    ensures StartsRecord(s) ==> StartsRecord(s + t)
  {
    if StartsRecord(s) {
      assert Starts(s + t, RecordOf(s));
    }
  }

  /** One turn of the scan of `s + t`, inside `s`. */
  lemma ScanStep(s: bytes, t: bytes)
    requires s != []
    ensures var n := if StartsRecord(s + t) then |Encode(RecordOf(s + t))| else 1;
            var head := if StartsRecord(s + t) then [RecordOf(s + t)] else [];
            && 0 < n <= |s + t| && (!StartsRecord(s + t) ==> n <= |s|)
            && Scan(s + t) == head + Scan((s + t)[n..])
            && (n <= |s| ==> (s + t)[n..] == s[n..] + t && Scan(s) == head + Scan(s[n..]))
  {
    hide *;
    var w := s + t;
    if StartsRecord(w) {
      RecordIsTaken(w);
      var n := |Encode(RecordOf(w))|;
      if n <= |s| {
        DropWithin(s, t, n);
        SameRecord(s, t);
        RecordIsTaken(s);
      }
    } else {
      JunkIsRefused(w);
      StartsLonger(s, t);
      JunkIsRefused(s);
      DropWithin(s, t, 1);
      assert [] + Scan(w[1..]) == Scan(w[1..]) && [] + Scan(s[1..]) == Scan(s[1..]);
    }
  }

  lemma DropWithin(s: bytes, t: bytes, n: nat)
    requires n <= |s|
    ensures (s + t)[n..] == s[n..] + t
  {
  }

  /** A record that starts `s + t` and ends within `s` starts `s` too. */
  lemma SameRecord(s: bytes, t: bytes)
    requires StartsRecord(s + t) && |Encode(RecordOf(s + t))| <= |s|
    ensures StartsRecord(s) && RecordOf(s) == RecordOf(s + t)
  {
    hide Encode;
    var op := RecordOf(s + t);
    assert s[..|Encode(op)|] == (s + t)[..|Encode(op)|];
    assert Starts(s, op);
    RecordUnique(s, op, RecordOf(s));
  }

  /**
   How far scanning `s` alone and scanning `s + t` agree: to the end of `s`, or up to the straddling
   record, which is then the next one delivered.
   */
  ghost predicate ReadAcross(s: bytes, t: bytes, before: seq<Op>) {
    var r := Straddler(s, t);
    if r.None? then Scan(s) == before && Scan(s + t) == before + Scan(t)
    else
      var u := r.value;
      && StartsRecord(u + t) && |Encode(RecordOf(u + t))| > |u|
      && Scan(s) == before + Scan(u) && Scan(s + t) == before + Scan(u + t)
  }

  lemma {:induction false} ScanAcross(s: bytes, t: bytes) returns (before: seq<Op>)
    ensures ReadAcross(s, t, before)
    decreases |s|
  {
    hide *;
    if s == [] {
      ReadNoneAcross(t);
      return [];
    }
    ScanStep(s, t);
    var w := s + t;
    var n := if StartsRecord(w) then |Encode(RecordOf(w))| else 1;
    if n > |s| {
      ReadFirstAcross(s, t);
      return [];
    }
    var rest := ScanAcross(s[n..], t);
    before := ReadMoreAcross(s, t, n, rest);
  }

  lemma ReadNoneAcross(t: bytes)
    ensures ReadAcross([], t, [])
  {
    hide Scan; hide StartsRecord; hide Encode;
    EmptyReads();
    assert [] + t == t && [] + Scan(t) == Scan(t);
  }

  lemma ReadFirstAcross(s: bytes, t: bytes)
    requires s != [] && StartsRecord(s + t) && |Encode(RecordOf(s + t))| > |s|
    ensures ReadAcross(s, t, [])
  {
    hide Scan; hide StartsRecord; hide Encode;
    assert [] + Scan(s) == Scan(s) && [] + Scan(s + t) == Scan(s + t);
  }

  lemma ReadMoreAcross(s: bytes, t: bytes, n: nat, rest: seq<Op>) returns (before: seq<Op>)
    requires s != [] && n == (if StartsRecord(s + t) then |Encode(RecordOf(s + t))| else 1) && 0 < n <= |s|
    requires ReadAcross(s[n..], t, rest)
    ensures ReadAcross(s, t, before)
  {
    hide *;
    var head := if StartsRecord(s + t) then [RecordOf(s + t)] else [];
    StraddlerStep(s, t, n);
    ScanStep(s, t);
    before := head + rest;
    AcrossUnfolds(s[n..], t, rest);
    AcrossUnfolds(s, t, before);
    var r := Straddler(s[n..], t);
    if r.None? {
      ConcatAssociative(head, rest, Scan(t));
    } else {
      ConcatAssociative(head, rest, Scan(r.value));
      ConcatAssociative(head, rest, Scan(r.value + t));
    }
  }

  lemma AcrossUnfolds(s: bytes, t: bytes, before: seq<Op>)
    ensures var r := Straddler(s, t);
            ReadAcross(s, t, before) <==>
              if r.None? then Scan(s) == before && Scan(s + t) == before + Scan(t)
              else
                && StartsRecord(r.value + t) && |Encode(RecordOf(r.value + t))| > |r.value|
                && Scan(s) == before + Scan(r.value) && Scan(s + t) == before + Scan(r.value + t)
  {
    hide Scan; hide Straddler; hide StartsRecord; hide Encode; hide RecordOf;
  }

  lemma StraddlerStep(s: bytes, t: bytes, n: nat)
    requires s != [] && n == (if StartsRecord(s + t) then |Encode(RecordOf(s + t))| else 1) && 0 < n <= |s|
    ensures Straddler(s, t) == Straddler(s[n..], t)
  {
    hide StartsRecord; hide Encode;
  }

  /** The straddling record is a second copy of the appended one, and neither torn half holds a record. */
  ghost predicate HarmlessTwin(s: bytes, op: Op) {
    var r := Straddler(s, Encode(op));
    && r.Some?
    && Starts(r.value + Encode(op), op)
    && Scan(r.value) == []
    && Scan((r.value + Encode(op))[|Encode(op)|..]) == []
  }

  /**
   After an append to any bytes whatsoever, the tolerant reader delivers what it did before and then the
   new record, exactly when no record straddles the old end; the one exception is a torn copy of the very
   record appended.
   */
  lemma AppendIsFoundIff(s: bytes, op: Op)
    requires Fits(op)
    ensures Scan(s + Encode(op)) == Scan(s) + [op] <==> Straddler(s, Encode(op)).None? || HarmlessTwin(s, op)
  {
    hide Encode; hide Scan; hide Straddler; hide StartsRecord; hide Starts; hide Fits;
    var e := Encode(op);
    var r := Straddler(s, e);
    var before := ScanAcross(s, e);
    RoundTripIffFits(op);
    if r.Some? {
      var u := r.value;
      var x := RecordOf(u + e);
      RecordIsTaken(u + e);
      var b, c := Scan(u), Scan((u + e)[|Encode(x)|..]);
      ConcatAssociative(before, b, [op]);
      SamePrefix(before, b + [op], [x] + c);
      ScannedFits(u);
      if b + [op] == [x] + c {
        HeadsAgree(b, op, x, c);
      }
      if HarmlessTwin(s, op) {
        RecordUnique(u + e, op, x);
        assert b + [op] == [op] == [x] + c;
      }
    }
  }

  /** Appended to any bytes without a straddling record, a whole run of records is delivered behind what was there. */
  lemma AppendsAreFound(s: bytes, ops: seq<Op>)
    requires AllFit(ops) && Straddler(s, EncodeAll(ops)).None?
    ensures Scan(s + EncodeAll(ops)) == Scan(s) + ops
  {
    hide Scan; hide Straddler; hide EncodeAll; hide AllFit;
    var before := ScanAcross(s, EncodeAll(ops));
    LogRoundTrip(ops);
  }

  lemma HeadsAgree(b: seq<Op>, op: Op, x: Op, c: seq<Op>)
    requires b + [op] == [x] + c
    ensures b != [] ==> b[0] == x
    ensures b == [] ==> x == op && c == []
  {
    assert ([x] + c)[0] == x;
    if b == [] {
      assert b + [op] == [op];
      assert |[x] + c| == 1 + |c|;
    } else {
      assert (b + [op])[0] == b[0];
    }
  }

  lemma SamePrefix<T>(a: seq<T>, b: seq<T>, c: seq<T>)
    ensures a + b == a + c <==> b == c
  {
    assert (a + b)[|a|..] == b && (a + c)[|a|..] == c;
  }

  /** No delivered record is longer than the buffer it was found in. */
  lemma {:induction false} ScannedFits(s: bytes)
    ensures forall i :: 0 <= i < |Scan(s)| ==> |Encode(Scan(s)[i])| <= |s|
    decreases |s|
  {
    hide Encode;
    if s != [] {
      if StartsRecord(s) {
        ScannedFits(s[|Encode(RecordOf(s))|..]);
      } else {
        ScannedFits(s[1..]);
      }
    }
  }

  /**
   A torn tail that is left in place can swallow the next append. If a record whose last byte is
   the SET code lost just that byte, the first byte of the next SET record completes it: the lost
   operation comes back to life and the appended one is not delivered.
   */
  lemma TornTailSwallowsAppend(lost: Op, next: Op)
    requires Fits(lost) && Fits(next) && next.Set?
    requires Encode(lost)[|Encode(lost)| - 1] == SET
    ensures var torn := Encode(lost)[..|Encode(lost)| - 1];
            && StrictScan(torn).ops == []
            && Scan(torn + Encode(next)) == [lost] + Scan(Encode(next)[1..])
            && next !in Scan(Encode(next)[1..])
            && (next != lost ==> next !in Scan(torn + Encode(next)))
  {
    hide *;
    var e, f := Encode(lost), Encode(next);
    SetCode(next);
    var n := |e| - 1;
    CutRecord(lost, n);
    JunkIsRefused(e[..n]);
    FirstByteCompletes(e, f);
    ScanRecord(lost, f[1..]);
    ScannedFits(f[1..]);
  }

  /** One such record: an empty key whose one-byte value is the SET code. */
  lemma TornTailExample()
    ensures var lost, next := Set([], [SET]), Set([], []);
            var torn := Encode(lost)[..|Encode(lost)| - 1];
            lost in Scan(torn + Encode(next)) && next !in Scan(torn + Encode(next))
  {
    hide *;
    var lost, next := Set([], [SET]), Set([], []);
    ValueIsLast(lost);
    SmallFits(lost, next);
    TornTailSwallowsAppend(lost, next);
  }

  lemma SmallFits(a: Op, b: Op)
    requires a == Set([], [SET]) && b == Set([], [])
    ensures Fits(a) && Fits(b)
  {
  }

  // ---- torn values ----

  /** A tolerant reading is empty exactly when no offset starts a record. */
  lemma {:induction false} NothingScannedIff(s: bytes)
    ensures Scan(s) == [] <==> forall j :: 0 <= j < |s| ==> !StartsRecord(s[j..])
    decreases |s|
  {
    hide Encode;
    if s != [] {
      assert s[0..] == s;
      if !StartsRecord(s) {
        NothingScannedIff(s[1..]);
        assert forall j :: 0 <= j < |s| - 1 ==> s[1..][j..] == s[j + 1..];
        if forall j :: 0 <= j < |s[1..]| ==> !StartsRecord(s[1..][j..]) {
          forall j | 0 <= j < |s| ensures !StartsRecord(s[j..]) {
            if j > 0 {
              assert s[j..] == s[1..][j - 1..];
            }
          }
        }
      }
    }
  }

  lemma NoRecordShift(s: bytes, p: nat)
    requires p <= |s|
    ensures NoRecordFrom(s, p) <==> forall j :: 0 <= j < |s[p..]| ==> !StartsRecord(s[p..][j..])
  {
    hide StartsRecord;
    assert forall j :: 0 <= j < |s[p..]| ==> s[p..][j..] == s[p + j..];
    if forall j :: 0 <= j < |s[p..]| ==> !StartsRecord(s[p..][j..]) {
      forall j | p <= j < |s| ensures !StartsRecord(s[j..]) {
        assert s[j..] == s[p..][j - p..];
      }
    }
  }

  /**
   From a torn log the tolerant reader delivers exactly what was wholly written, and nothing besides, if
   and only if no offset of the torn tail happens to start a record.
   */
  lemma TornLogTolerantIff(ops: seq<Op>, cut: nat)
    requires AllFit(ops) && cut <= |EncodeAll(ops)|
    ensures var n, s := WholeRecords(ops, cut), EncodeAll(ops)[..cut];
            Scan(s) == ops[..n] <==> NoRecordFrom(s, |EncodeAll(ops[..n])|)
  {
    hide *;
    var n, s := WholeRecords(ops, cut), EncodeAll(ops)[..cut];
    TornLog(ops, cut);
    var start := |EncodeAll(ops[..n])|;
    var tail := s[start..];
    NothingScannedIff(tail);
    NoRecordShift(s, start);
    SamePrefix(ops[..n], Scan(tail), []);
    assert ops[..n] + [] == ops[..n];
  }

  /** No offset from `p` on starts a record. */
  ghost predicate NoRecordFrom(s: bytes, p: nat) {
    p <= |s| && forall j :: p <= j < |s| ==> !StartsRecord(s[j..])
  }

  /**
   A torn value can be read as log. If a value holds a complete encoded record and the SET that carries
   it is cut anywhere behind that record, tolerant replay performs some operation although nothing was
   wholly written; strict replay performs none.
   */
  lemma TornValueIsReplayed(key: bytes, front: bytes, inner: Op, pad: bytes, cut: nat)
    requires Fits(inner) && Fits(Set(key, front + Encode(inner) + pad))
    requires 13 + |key| + |front| + |Encode(inner)| <= cut < |Encode(Set(key, front + Encode(inner) + pad))|
    ensures var torn := Encode(Set(key, front + Encode(inner) + pad))[..cut];
            Scan(torn) != [] && StrictScan(torn).ops == []
  {
    hide *;
    var outer, e := Set(key, front + Encode(inner) + pad), Encode(inner);
    var all := Encode(outer);
    ValueIsLast(outer);
    var torn, j := all[..cut], 13 + |key| + |front|;
    assert all[j..] == e + pad by {
      assert all[j..] == all[13 + |key|..][|front|..];
    }
    assert torn[j..] == e + pad[..cut - j - |e|];
    StartsWith(torn[j..], inner);
    NothingScannedIff(torn);
    TornFirstRecord(outer, cut);
  }

  lemma StartsWith(s: bytes, op: Op)
    requires Fits(op) && Encode(op) <= s
    ensures StartsRecord(s)
  {
    assert Starts(s, op);
  }

  lemma ValueIsLast(op: Op)
    requires op.Set?
    ensures |Encode(op)| == 13 + |op.key| + |op.value|
    ensures Encode(op)[13 + |op.key|..] == op.value
  {
    hide Crc32.Checksum; hide PutU32;
    LayoutHeader(op, []);
    assert Encode(op) + [] == Encode(op);
    assert Encode(op)[5..] == Field(op.key) + Field(op.value);
    assert Encode(op)[13 + |op.key|..] == Encode(op)[5..][8 + |op.key|..];
  }

  lemma SetCode(op: Op)
    requires op.Set?
    ensures Encode(op)[0] == SET
  {
    hide Crc32.Checksum;
  }

  lemma FirstByteCompletes(e: bytes, f: bytes)
    requires e != [] && f != [] && e[|e| - 1] == f[0]
    ensures e[..|e| - 1] + f == e + f[1..]
  {
  }

  // ---- one turn of the replay loop ----

  /** A valid record is delivered by both readers, which continue at its end. */
  lemma ValidStep(buf: bytes, pos: nat)
    requires pos < |buf| && Validate(RecordAt(buf, pos)) == Valid
    ensures ParseRecord(RecordAt(buf, pos)).Parsed?
    ensures var op, end := ParseRecord(RecordAt(buf, pos)).op, FindRecordEnd(buf, pos);
            && Scan(buf[pos..]) == [op] + Scan(buf[end..])
            && StrictScan(buf[pos..]) == Outcome([op] + StrictScan(buf[end..]).ops, StrictScan(buf[end..]).error)
  {
    hide *;
    FindRecordEndShift(buf, pos);
    var s := buf[pos..];
    ReadExactly(s);
    RecordIsTaken(s);
    var end := FindRecordEnd(buf, pos);
    assert s[end - pos..] == buf[end..];
  }

  lemma RecordIsTaken(s: bytes)
    requires s != [] && StartsRecord(s)
    ensures var op := RecordOf(s);
            && |Encode(op)| <= |s|
            && Scan(s) == [op] + Scan(s[|Encode(op)|..])
            && StrictScan(s) == Outcome([op] + StrictScan(s[|Encode(op)|..]).ops, StrictScan(s[|Encode(op)|..]).error)
  {
    hide Encode; hide Validate; hide RecordAt;
  }

  lemma RecordsAreCandidates(buf: bytes, p: nat)
    requires p <= |buf| && StartsRecord(buf[p..])
    ensures Candidate(buf, p)
  {
    var s := buf[p..];
    var op := RecordOf(s);
    OpByte(op);
    hide Encode;
    assert s[0] == Encode(op)[0];
  }

  lemma OpByte(op: Op)
    ensures Encode(op)[0] == OpCode(op)
  {
    hide Crc32.Checksum;
  }

  /** At a rejected record the strict reader stops; the tolerant one loses nothing by resuming at the next candidate. */
  lemma RejectedStep(buf: bytes, pos: nat)
    requires pos < |buf| && Validate(RecordAt(buf, pos)) != Valid
    ensures StrictScan(buf[pos..]) == Outcome([], Some(Validate(RecordAt(buf, pos))))
    ensures var next := NextCandidate(buf, pos);
            Scan(buf[pos..]) == if next.Some? then Scan(buf[next.value..]) else []
  {
    hide *;
    FindRecordEndShift(buf, pos);
    ReadExactly(buf[pos..]);
    JunkIsRefused(buf[pos..]);
    SkipToCandidate(buf, pos);
  }

  lemma SkipToCandidate(buf: bytes, pos: nat)
    requires pos < |buf| && !StartsRecord(buf[pos..])
    ensures var next := NextCandidate(buf, pos);
            Scan(buf[pos..]) == if next.Some? then Scan(buf[next.value..]) else []
  {
    hide *;
    var next := NextCandidate(buf, pos);
    var q := if next.Some? then next.value else |buf|;
    var junk, t := buf[pos..q], buf[q..];
    assert junk + t == buf[pos..];
    forall j | 0 <= j < |junk| ensures !StartsRecord((junk + t)[j..]) {
      assert (junk + t)[j..] == buf[pos + j..];
      if j > 0 && StartsRecord(buf[pos + j..]) {
        RecordsAreCandidates(buf, pos + j);
        assert false;
      }
    }
    JunkIsSkipped(junk, t);
    EmptyReads();
  }

  // ---- the verdicts met on the way ----

  /** What the validator says of each record a tolerant reader looks at, in order. */
  function Verdicts(s: bytes): seq<ValidationResult>
    decreases |s|
  {
    if s == [] then [] else
    var verdict := Validate(RecordAt(s, 0));
    var next := if verdict == Valid then Some(FindRecordEnd(s, 0)) else NextCandidate(s, 0);
    [verdict] + (if next.Some? then Verdicts(s[next.value..]) else [])
  }

  /** A strict reader stops at the first record it cannot accept. */
  function UpToFailure(vs: seq<ValidationResult>): seq<ValidationResult> {
    if vs == [] then [] else if vs[0] == Valid then [vs[0]] + UpToFailure(vs[1..]) else [vs[0]]
  }

  predicate AllValid(vs: seq<ValidationResult>) {
    forall i :: 0 <= i < |vs| ==> vs[i] == Valid
  }

  /** Something that counts as damage: a wrong checksum or a record cut short, not an unknown operation code. */
  predicate Damaged(vs: seq<ValidationResult>) {
    exists i :: 0 <= i < |vs| && (vs[i].Corrupted? || vs[i].Truncated?)
  }

  lemma VerdictStep(buf: bytes, pos: nat)
    requires pos < |buf|
    ensures var verdict := Validate(RecordAt(buf, pos));
            var next := if verdict == Valid then Some(FindRecordEnd(buf, pos)) else NextCandidate(buf, pos);
            var rest := if next.Some? then Verdicts(buf[next.value..]) else [];
            && Verdicts(buf[pos..]) == [verdict] + rest
            && UpToFailure(Verdicts(buf[pos..])) == [verdict] + (if verdict == Valid then UpToFailure(rest) else [])
  {
    hide *;
    var s := buf[pos..];
    FindRecordEndShift(buf, pos);
    NextCandidateShift(buf, pos, 0);
    FirstVerdict(s);
    var verdict := Validate(RecordAt(buf, pos));
    var next := if verdict == Valid then Some(FindRecordEnd(buf, pos)) else NextCandidate(buf, pos);
    if next.Some? {
      assert s[next.value - pos..] == buf[next.value..];
    }
    FirstFailure(verdict, if next.Some? then Verdicts(buf[next.value..]) else []);
  }

  lemma FirstVerdict(s: bytes)
    requires s != []
    ensures var verdict := Validate(RecordAt(s, 0));
            var next := if verdict == Valid then Some(FindRecordEnd(s, 0)) else NextCandidate(s, 0);
            Verdicts(s) == [verdict] + (if next.Some? then Verdicts(s[next.value..]) else [])
  {
    hide Validate; hide RecordAt; hide FindRecordEnd; hide NextCandidate;
  }

  lemma FirstFailure(v: ValidationResult, vs: seq<ValidationResult>)
    ensures UpToFailure([v] + vs) == [v] + (if v == Valid then UpToFailure(vs) else [])
  {
    assert ([v] + vs)[1..] == vs;
  }

  /** Strict replay succeeds exactly when a tolerant reader would find nothing to complain about. */
  lemma {:induction false} StrictIffAllValid(s: bytes)
    ensures StrictScan(s).error.None? <==> AllValid(Verdicts(s))
    decreases |s|
  {
    hide Validate; hide RecordAt; hide FindRecordEnd; hide NextCandidate; hide StartsRecord; hide Encode;
    if s != [] {
      var v := Validate(RecordAt(s, 0));
      ReadExactly(s);
      assert Verdicts(s)[0] == v;
      if v == Valid {
        var rest := s[FindRecordEnd(s, 0)..];
        StrictIffAllValid(rest);
        assert Verdicts(s) == [Valid] + Verdicts(rest);
        assert AllValid(Verdicts(s)) <==> AllValid(Verdicts(rest)) by { ValidFirst(Verdicts(rest)); }
      }
    }
  }

  lemma ValidFirst(vs: seq<ValidationResult>)
    ensures AllValid([Valid] + vs) <==> AllValid(vs)
    ensures Damaged([Valid] + vs) <==> Damaged(vs)
  {
    var all := [Valid] + vs;
    assert forall i :: 0 <= i < |vs| ==> vs[i] == all[i + 1];
  }

  /** Behind intact records the reader meets what it would meet without them. */
  lemma {:induction false} VerdictsOfLog(ops: seq<Op>, t: bytes)
    requires AllFit(ops)
    ensures AllValid(Verdicts(EncodeAll(ops) + t)) <==> AllValid(Verdicts(t))
    ensures Damaged(Verdicts(EncodeAll(ops) + t)) <==> Damaged(Verdicts(t))
    decreases |ops|
  {
    hide *;
    EncodeNone();
    if ops == [] {
      assert EncodeAll(ops) + t == t;
    } else {
      var head, tail := ops[0], ops[1..];
      SliceFits(ops, 0);
      SliceFits(ops, 1);
      EncodeCons(ops);
      var e, rest := Encode(head), EncodeAll(tail) + t;
      ConcatAssociative(e, EncodeAll(tail), t);
      StartsWhole(head, rest);
      WrittenIsRead(e + rest, head);
      FirstVerdict(e + rest);
      assert (e + rest)[|e|..] == rest;
      ValidFirst(Verdicts(rest));
      VerdictsOfLog(tail, t);
    }
  }

  lemma StartsWhole(op: Op, rest: bytes)
    requires Fits(op)
    ensures Starts(Encode(op) + rest, op)
  {
  }

  /**
   Intact records followed by nine or more bytes none of which is an operation code: the reader meets one
   unknown operation and stops looking, so there is a fault but nothing that counts as damage.
   */
  lemma UnknownTail(ops: seq<Op>, junk: bytes)
    requires AllFit(ops) && |junk| >= 9 && SET !in junk && DEL !in junk
    ensures var vs := Verdicts(EncodeAll(ops) + junk);
            !Damaged(vs) && !AllValid(vs)
    ensures Verdicts(junk) == [UnknownOperation(junk[0])]
  {
    hide EncodeAll; hide AllFit; hide U32At;
    VerdictsOfLog(ops, junk);
    assert |RecordAt(junk, 0)| >= 9 && RecordAt(junk, 0)[0] == junk[0];
    assert Validate(RecordAt(junk, 0)) == UnknownOperation(junk[0]);
    var next := NextCandidate(junk, 0);
    assert forall p :: 0 <= p < |junk| ==> junk[p] in junk;
    assert next.None?;
    FirstVerdict(junk);
    assert Verdicts(junk) == [UnknownOperation(junk[0])];
    assert !AllValid(Verdicts(junk)) by { assert Verdicts(junk)[0] != Valid; }
  }
}
