/** The older AOF1 record format, without checksums: still replayed, and what compaction writes. */
module Aof1Format {
  import opened Bytes
  import opened AofFormat

  function Encode1(op: Op): (r: bytes)
    ensures |r| == 1 + |Payload(op)|
  {
    [OpCode(op)] + Payload(op)
  }

  function EncodeAll1(ops: seq<Op>): bytes {
    if ops == [] then [] else Encode1(ops[0]) + EncodeAll1(ops[1..])
  }

  /** One record read, or a failure; either way `used` bytes have been consumed. */
  datatype Read = Delivered(op: Op, used: nat) | Failed(used: nat)

  /** `replay_aof1_record` at the start of the remaining bytes. */
  function ReadRecord1(s: bytes): (r: Read)
    requires s != []
    ensures r.used <= |s|
    ensures r.Delivered? ==> r.used > 0
  {
    if s[0] != SET && s[0] != DEL then Failed(0) else
    if 5 > |s| then Failed(1) else
    var afterKey := 5 + U32At(s, 1);
    if afterKey > |s| then Failed(5) else
    var key := s[5..afterKey];
    if s[0] == DEL then Delivered(Del(key), afterKey) else
    if afterKey + 4 > |s| then Failed(afterKey) else
    var afterValue := afterKey + 4 + U32At(s, afterKey);
    if afterValue > |s| then Failed(afterKey + 4) else
    Delivered(Set(key, s[afterKey + 4..afterValue]), afterValue)
  }

  /** A place `find_next_valid_record` is willing to resume at. */
  predicate Candidate(buf: bytes, p: nat) {
    p + 9 <= |buf| && (buf[p] == SET || buf[p] == DEL)
  }

  /** The first candidate after `start`. */
  function NextCandidate(buf: bytes, start: nat): (r: Option<nat>)
    ensures r.Some? ==> start < r.value < |buf| && Candidate(buf, r.value)
    ensures forall q :: start < q < (if r.Some? then r.value else |buf|) ==> !Candidate(buf, q)
    decreases |buf| - start
  {
    if start + 1 >= |buf| then None
    else if Candidate(buf, start + 1) then Some(start + 1)
    else NextCandidate(buf, start + 1)
  }

  lemma NextCandidateShift(buf: bytes, p: nat, start: nat)
    requires p <= |buf|
    ensures var r := NextCandidate(buf[p..], start);
            NextCandidate(buf, p + start) == if r.Some? then Some(p + r.value) else None
  {
    var s := buf[p..];
    var r, r' := NextCandidate(s, start), NextCandidate(buf, p + start);
    assert forall q :: 0 <= q < |s| ==> (Candidate(s, q) <==> Candidate(buf, p + q));
    if r.Some? {
      assert Candidate(buf, p + r.value);
    }
    if r'.Some? {
      assert Candidate(s, r'.value - p);
    }
  }

  /** Strict replay of the remaining bytes: deliveries, and whether it reached the end. */
  function Strict1(s: bytes): (seq<Op>, bool)
    decreases |s|
  {
    if s == [] then ([], true) else
    match ReadRecord1(s)
    case Delivered(op, used) => var (ops, ok) := Strict1(s[used..]); ([op] + ops, ok)
    case Failed(_) => ([], false)
  }

  /** Skip/Log replay of the remaining bytes. */
  function Tolerant1(s: bytes): seq<Op>
    decreases |s|
  {
    if s == [] then [] else
    match ReadRecord1(s)
    case Delivered(op, used) => [op] + Tolerant1(s[used..])
    case Failed(used) =>
      var next := NextCandidate(s, used);
      if next.None? then [] else Tolerant1(s[next.value..])
  }

  /** How many times Skip/Log replay has to resume. */
  function Skips1(s: bytes): nat
    decreases |s|
  {
    if s == [] then 0 else
    match ReadRecord1(s)
    case Delivered(_, used) => Skips1(s[used..])
    case Failed(used) =>
      var next := NextCandidate(s, used);
      1 + if next.None? then 0 else Skips1(s[next.value..])
  }

  lemma Written1IsRead(op: Op, rest: bytes)
    requires Fits(op)
    ensures ReadRecord1(Encode1(op) + rest) == Delivered(op, |Encode1(op)|)
    ensures (Encode1(op) + rest)[|Encode1(op)|..] == rest
  {
    hide PutU32; hide GetU32; hide Field;
    var s, p := Encode1(op) + rest, Payload(op);
    assert s[1..] == p + rest && s[0] == OpCode(op);
    if op.Set? {
      ConcatAssociative(Field(op.key), Field(op.value), rest);
      FieldAt(s, 1, op.key, Field(op.value) + rest);
      FieldAt(s, 5 + |op.key|, op.value, rest);
    } else {
      FieldAt(s, 1, op.key, rest);
    }
  }

  lemma ReadOne1(op: Op, rest: bytes)
    requires Fits(op)
    ensures Strict1(Encode1(op) + rest) == ([op] + Strict1(rest).0, Strict1(rest).1)
    ensures Tolerant1(Encode1(op) + rest) == [op] + Tolerant1(rest)
    ensures Skips1(Encode1(op) + rest) == Skips1(rest)
  {
    Written1IsRead(op, rest);
    hide Encode1; hide ReadRecord1; hide NextCandidate;
  }

  lemma ReadNone1()
    ensures Strict1([]) == ([], true) && Tolerant1([]) == [] && Skips1([]) == 0
  {
  }

  /** A log in the old format replays in full, under every corruption policy. */
  lemma {:induction false} LogRoundTrip1(ops: seq<Op>)
    requires AllFit(ops)
    ensures Strict1(EncodeAll1(ops)) == (ops, true)
    ensures Tolerant1(EncodeAll1(ops)) == ops && Skips1(EncodeAll1(ops)) == 0
    decreases |ops|
  {
    hide Encode1; hide Strict1; hide Tolerant1; hide Skips1; hide Fits;
    ReadNone1();
    if ops != [] {
      ReadOne1(ops[0], EncodeAll1(ops[1..]));
      LogRoundTrip1(ops[1..]);
      assert ops == [ops[0]] + ops[1..];
    }
  }

  // ---- torn logs ----

  /** Reading a record that was cut short fails, having consumed every field that was whole. */
  lemma CutRecord1(op: Op, r: nat)
    requires Fits(op) && 0 < r < |Encode1(op)|
    ensures var k := |op.key|;
            ReadRecord1(Encode1(op)[..r])
            == Failed(if r < 5 then 1 else if r < 5 + k then 5 else if r < 9 + k then 5 + k else 9 + k)
  {
    hide PutU32; hide GetU32; hide Field;
    var e, s, k := Encode1(op), Encode1(op)[..r], |op.key|;
    assert e[1..] == Payload(op) && e[0] == OpCode(op) && s[0] == e[0];
    assert Payload(op) + [] == Payload(op);
    if op.Set? {
      FieldAt(e, 1, op.key, Field(op.value));
      assert Field(op.value) + [] == Field(op.value);
      FieldAt(e, 5 + k, op.value, []);
    } else {
      FieldAt(e, 1, op.key, []);
    }
    if r >= 5 {
      U32Prefix(e, r, 1);
      if op.Set? && r >= 9 + k {
        U32Prefix(e, r, 5 + k);
      }
    }
  }

  lemma TornRecord1(op: Op, cut: nat)
    requires Fits(op) && cut < |Encode1(op)|
    ensures Strict1(Encode1(op)[..cut]) == ([], cut == 0)
    ensures Skips1(Encode1(op)[..cut]) > 0 <==> cut > 0
  {
    if cut > 0 {
      CutRecord1(op, cut);
      hide Encode1; hide ReadRecord1; hide NextCandidate;
    }
  }

  /** How many leading records lie wholly inside the first `cut` bytes. */
  function WholeRecords1(ops: seq<Op>, cut: nat): (n: nat)
    ensures n <= |ops|
    decreases |ops|
  {
    if ops == [] || |Encode1(ops[0])| > cut then 0
    else 1 + WholeRecords1(ops[1..], cut - |Encode1(ops[0])|)
  }

  lemma EncodeCons1(ops: seq<Op>)
    ensures ops != [] ==> EncodeAll1(ops) == Encode1(ops[0]) + EncodeAll1(ops[1..])
    ensures EncodeAll1([]) == []
  {
  }

  /**
   Every byte prefix of a log in the old format: strict replay delivers the operations wholly inside it and
   succeeds iff the cut is on a record boundary; tolerant replay delivers those first, and has to resume
   somewhere iff it is not.
   */
  lemma {:induction false} TornLog1(ops: seq<Op>, cut: nat)
    requires AllFit(ops) && cut <= |EncodeAll1(ops)|
    ensures var n, s := WholeRecords1(ops, cut), EncodeAll1(ops)[..cut];
            && |EncodeAll1(ops[..n])| <= cut && (n < |ops| ==> cut < |EncodeAll1(ops[..n + 1])|)
            && Strict1(s) == (ops[..n], cut == |EncodeAll1(ops[..n])|)
            && ops[..n] <= Tolerant1(s)
            && (Skips1(s) > 0 <==> cut != |EncodeAll1(ops[..n])|)
    decreases |ops|
  {
    hide *;
    EncodeCons1(ops);
    ReadNone1();
    WholeStep1(ops, cut);
    if ops != [] {
      var head, tail, e, s := ops[0], ops[1..], Encode1(ops[0]), EncodeAll1(ops)[..cut];
      AllFitParts(ops);
      var n := WholeRecords1(ops, cut);
      if cut < |e| {
        assert s == e[..cut];
        TornRecord1(head, cut);
        EndStep1(ops, 1);
        assert ops[..0] == [];
      } else {
        var rest := EncodeAll1(tail)[..cut - |e|];
        assert s == e + rest;
        TornLog1(tail, cut - |e|);
        ReadOne1(head, rest);
        EndStep1(ops, n);
        if n < |ops| {
          EndStep1(ops, n + 1);
        }
      }
    }
  }

  lemma WholeStep1(ops: seq<Op>, cut: nat)
    ensures WholeRecords1(ops, cut)
         == if ops == [] || |Encode1(ops[0])| > cut then 0 else 1 + WholeRecords1(ops[1..], cut - |Encode1(ops[0])|)
  {
  }

  lemma AllFitParts(ops: seq<Op>)
    requires AllFit(ops) && ops != []
    ensures Fits(ops[0]) && AllFit(ops[1..])
  {
  }

  lemma EndStep1(ops: seq<Op>, n: nat)
    requires 0 < n <= |ops|
    ensures ops[..n] == [ops[0]] + ops[1..][..n - 1]
    ensures |EncodeAll1(ops[..n])| == |Encode1(ops[0])| + |EncodeAll1(ops[1..][..n - 1])|
  {
    hide Encode1; hide EncodeAll1;
    EncodeCons1(ops[..n]);
    assert ops[..n][1..] == ops[1..][..n - 1];
  }

  /** An unknown operation code stops strict replay; tolerant replay resumes at the next candidate behind it. */
  lemma UnknownCode1(s: bytes)
    requires s != [] && s[0] != 1 && s[0] != 2
    ensures Strict1(s) == ([], false)
    ensures var next := NextCandidate(s, 0);
            Tolerant1(s) == if next.Some? then Tolerant1(s[next.value..]) else []
  {
    hide NextCandidate;
  }

  /** What the bytes look like. */
  lemma ExampleRecord1()
    ensures Encode1(Set([0x61], [0x62, 0x63])) == [1, 0, 0, 0, 1, 0x61, 0, 0, 0, 2, 0x62, 0x63]
    ensures Encode1(Del([0x61])) == [2, 0, 0, 0, 1, 0x61]
  {
  }

  // ---- one turn of the replay loop ----

  lemma DeliveredStep1(buf: bytes, pos: nat)
    requires pos < |buf| && ReadRecord1(buf[pos..]).Delivered?
    ensures var read := ReadRecord1(buf[pos..]);
            var rest := buf[pos + read.used..];
            && Tolerant1(buf[pos..]) == [read.op] + Tolerant1(rest)
            && Strict1(buf[pos..]) == ([read.op] + Strict1(rest).0, Strict1(rest).1)
            && Skips1(buf[pos..]) == Skips1(rest)
  {
    hide ReadRecord1; hide NextCandidate;
    var used := ReadRecord1(buf[pos..]).used;
    assert buf[pos..][used..] == buf[pos + used..];
  }

  lemma FailedStep1(buf: bytes, pos: nat)
    requires pos < |buf| && ReadRecord1(buf[pos..]).Failed?
    ensures var next := NextCandidate(buf, pos + ReadRecord1(buf[pos..]).used);
            && Strict1(buf[pos..]) == ([], false)
            && (next.Some? ==> next.value > pos)
            && Tolerant1(buf[pos..]) == (if next.Some? then Tolerant1(buf[next.value..]) else [])
            && Skips1(buf[pos..]) == 1 + if next.Some? then Skips1(buf[next.value..]) else 0
  {
    hide *;
    var s := buf[pos..];
    var used := ReadRecord1(s).used;
    Fails1(s);
    NextCandidateShift(buf, pos, used);
    var next := NextCandidate(buf, pos + used);
    if next.Some? {
      assert s[next.value - pos..] == buf[next.value..];
    }
  }

  lemma Fails1(s: bytes)
    requires s != [] && ReadRecord1(s).Failed?
    ensures Strict1(s) == ([], false)
    ensures var next := NextCandidate(s, ReadRecord1(s).used);
            && Tolerant1(s) == (if next.Some? then Tolerant1(s[next.value..]) else [])
            && Skips1(s) == 1 + if next.Some? then Skips1(s[next.value..]) else 0
  {
    hide ReadRecord1; hide NextCandidate;
  }

  lemma {:induction false} DeliversFitting1(s: bytes)
    ensures AllFit(Tolerant1(s))
    decreases |s|
  {
    if s != [] {
      match ReadRecord1(s)
      case Delivered(op, used) => DeliversFitting1(s[used..]);
      case Failed(used) =>
        var next := NextCandidate(s, used);
        if next.Some? {
          DeliversFitting1(s[next.value..]);
        }
    }
  }
}
