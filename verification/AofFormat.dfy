/**
 The AOF2 record format: what `append_set`/`append_del` write, how the replayer delimits, checks
 and parses a record, and the naive greedy scanner the replayer is measured against.
 */
module AofFormat {
  import opened Bytes
  import Crc32

  datatype Op = Set(key: bytes, value: bytes) | Del(key: bytes)

  datatype ValidationResult =
    | Valid
    | Corrupted(expected: u32, actual: u32)
    | Truncated
    | UnknownOperation(op: byte)

  datatype Parse = Parsed(op: Op) | Malformed

  const SET: byte := 1
  const DEL: byte := 2

  // ---- writer ----

  /** Lengths survive the `as u32` cast. */
  predicate Fits(op: Op) {
    |op.key| < U32_LIMIT && (op.Set? ==> |op.value| < U32_LIMIT)
  }

  predicate AllFit(ops: seq<Op>) {
    forall i :: 0 <= i < |ops| ==> Fits(ops[i])
  }

  /** A blob behind its big-endian length, cast with `as u32`. */
  function Field(s: bytes): (r: bytes)
    ensures |r| == 4 + |s|
  {
    PutU32(|s| % U32_LIMIT) + s
  }

  function Payload(op: Op): bytes {
    match op
    case Set(key, value) => Field(key) + Field(value)
    case Del(key) => Field(key)
  }

  function OpCode(op: Op): byte {
    if op.Set? then SET else DEL
  }

  /** One appended record: `[op][crc32][klen][key]` and, for SET, `[vlen][value]`. */
  function Encode(op: Op): (r: bytes)
    ensures |r| == 5 + |Payload(op)| >= 9
  {
    [OpCode(op)] + PutU32(Crc32.Checksum(Payload(op))) + Payload(op)
  }

  function EncodeAll(ops: seq<Op>): bytes {
    if ops == [] then [] else Encode(ops[0]) + EncodeAll(ops[1..])
  }

  // ---- reader ----

  function U32At(buf: bytes, pos: nat): u32
    requires pos + 4 <= |buf|
  {
    GetU32(buf[pos..pos + 4])
  }

  /** `find_record_end`: where the record at `start` ends, or the end of the buffer if cut short. */
  function FindRecordEnd(buf: bytes, start: nat): (end: nat)
    requires start < |buf|
    ensures start < end <= |buf|
  {
    if start + 9 > |buf| then |buf| else
    var afterKey := start + 9 + U32At(buf, start + 5);
    if afterKey > |buf| then |buf| else
    if buf[start] != SET then afterKey else
    if afterKey + 4 > |buf| then |buf| else
    var afterValue := afterKey + 4 + U32At(buf, afterKey);
    if afterValue > |buf| then |buf| else afterValue
  }

  /** The structural part of `validate_record_internal`: why a record is rejected before its checksum is looked at. */
  function Shape(data: bytes): (r: Option<ValidationResult>)
    ensures r.None? ==> |data| >= 9
    ensures r.Some? ==> r.value.Truncated? || r.value.UnknownOperation?
  {
    if |data| < 9 then Some(Truncated) else
    var op := data[0];
    if op != SET && op != DEL then Some(UnknownOperation(op)) else
    var payload := data[5..];
    var afterKey := 4 + U32At(payload, 0);
    if |payload| < afterKey then Some(Truncated) else
    if op == SET && |payload| < afterKey + 4 then Some(Truncated) else
    if op == SET && |payload| < afterKey + 4 + U32At(payload, afterKey) then Some(Truncated) else
    None
  }

  /** `validate_record_internal`. */
  function Validate(data: bytes): ValidationResult {
    var shape := Shape(data);
    if shape.Some? then shape.value else Verdict(U32At(data, 1), Crc32.Checksum(data[5..]))
  }

  function Verdict(expected: u32, actual: u32): ValidationResult {
    if actual != expected then Corrupted(expected, actual) else Valid
  }

  /** `parse_valid_aof2_record`: the operation handed to the callback. */
  function ParseRecord(data: bytes): Parse {
    if |data| == 0 || (data[0] != SET && data[0] != DEL) then Malformed else
    if 5 > |data| || 9 > |data| then Malformed else
    var afterKey := 9 + U32At(data, 5);
    if afterKey > |data| then Malformed else
    var key := data[9..afterKey];
    if data[0] == DEL then Parsed(Del(key)) else
    if afterKey + 4 > |data| then Malformed else
    var afterValue := afterKey + 4 + U32At(data, afterKey);
    if afterValue > |data| then Malformed else Parsed(Set(key, data[afterKey + 4..afterValue]))
  }

  function RecordAt(buf: bytes, start: nat): bytes
    requires start < |buf|
  {
    buf[start..FindRecordEnd(buf, start)]
  }

  // ---- the greedy scanner ----

  /** The bytes begin with exactly what appending `op` would have written. */
  predicate Starts(s: bytes, op: Op) {
    Fits(op) && Encode(op) <= s
  }

  ghost predicate StartsRecord(s: bytes) {
    exists op :: Starts(s, op)
  }

  ghost function RecordOf(s: bytes): (op: Op)
    requires StartsRecord(s)
    ensures Starts(s, op)
  {
    var op :| Starts(s, op); op
  }

  /** At each offset: a genuine record is delivered and jumped over, anything else is one byte of junk. */
  ghost function Scan(s: bytes): seq<Op>
    decreases |s|
  {
    if s == [] then []
    else if StartsRecord(s) then [RecordOf(s)] + Scan(s[|Encode(RecordOf(s))|..])
    else Scan(s[1..])
  }

  datatype Outcome = Outcome(ops: seq<Op>, error: Option<ValidationResult>)

  /** The strict reader: genuine records up to the first offset that does not hold one. */
  ghost function StrictScan(s: bytes): Outcome
    decreases |s|
  {
    if s == [] then Outcome([], None)
    else if StartsRecord(s) then
      var rest := StrictScan(s[|Encode(RecordOf(s))|..]);
      Outcome([RecordOf(s)] + rest.ops, rest.error)
    else Outcome([], Some(Validate(RecordAt(s, 0))))
  }

  // ---- a record that was written is read back ----

  lemma FieldAt(s: bytes, pos: nat, blob: bytes, rest: bytes)
    requires pos <= |s| && s[pos..] == Field(blob) + rest && |blob| < U32_LIMIT
    ensures U32At(s, pos) == |blob|
    ensures s[pos + 4..pos + 4 + |blob|] == blob
    ensures s[pos + 4 + |blob|..] == rest
  {
    U32RoundTrip(|blob|);
    FieldParts(blob, rest);
    hide *;
    SliceOfTail(s, pos, 0, 4);
    SliceOfTail(s, pos, 4, 4 + |blob|);
    TailOfTail(s, pos, 4 + |blob|);
    U32AtIs(s, pos);
  }

  lemma U32AtIs(s: bytes, pos: nat)
    requires pos + 4 <= |s|
    ensures U32At(s, pos) == GetU32(s[pos..pos + 4])
  {
  }

  lemma FieldParts(blob: bytes, rest: bytes)
    requires |blob| < U32_LIMIT
    ensures var t := Field(blob) + rest;
            && |t| == 4 + |blob| + |rest| && t[0..4] == PutU32(|blob|)
            && t[4..4 + |blob|] == blob && t[4 + |blob|..] == rest
  {
    hide PutU32;
    var t := Field(blob) + rest;
    assert t == PutU32(|blob|) + (blob + rest);
  }

  lemma SliceOfTail(s: bytes, pos: nat, from: nat, to: nat)
    requires from <= to && pos + to <= |s|
    ensures s[pos + from..pos + to] == s[pos..][from..to]
  {
  }

  lemma TailOfTail(s: bytes, pos: nat, from: nat)
    requires pos + from <= |s|
    ensures s[pos + from..] == s[pos..][from..]
  {
  }

  /** What each offset of a written record holds. */
  lemma Layout(op: Op, rest: bytes)
    requires Fits(op)
    ensures var s, k := Encode(op) + rest, |op.key|;
            && s[0] == OpCode(op) && s[5..] == Payload(op) + rest
            && U32At(s, 1) == Crc32.Checksum(Payload(op))
            && U32At(s, 5) == k && s[9..9 + k] == op.key
            && (op.Set? ==> U32At(s, 9 + k) == |op.value| && s[13 + k..13 + k + |op.value|] == op.value)
  {
    hide Crc32.Checksum; hide PutU32; hide GetU32; hide Encode;
    var s, k := Encode(op) + rest, |op.key|;
    LayoutHeader(op, rest);
    if op.Set? {
      ConcatAssociative(Field(op.key), Field(op.value), rest);
      FieldAt(s, 5, op.key, Field(op.value) + rest);
      FieldAt(s, 9 + k, op.value, rest);
    } else {
      FieldAt(s, 5, op.key, rest);
    }
  }

  lemma LayoutHeader(op: Op, rest: bytes)
    ensures var s := Encode(op) + rest;
            s[0] == OpCode(op) && s[5..] == Payload(op) + rest && U32At(s, 1) == Crc32.Checksum(Payload(op))
  {
    hide Crc32.Checksum; hide PutU32; hide GetU32; hide Payload;
    var s, crc := Encode(op) + rest, Crc32.Checksum(Payload(op));
    U32RoundTrip(crc);
    assert s == [OpCode(op)] + PutU32(crc) + (Payload(op) + rest);
    assert s[1..5] == PutU32(crc);
  }

  lemma U32Shift(buf: bytes, p: nat, q: nat)
    requires p + q + 4 <= |buf|
    ensures U32At(buf, p + q) == U32At(buf[p..], q)
  {
    assert buf[p + q..p + q + 4] == buf[p..][q..q + 4];
  }

  /** Delimiting commutes with dropping what came before. */
  lemma FindRecordEndShift(buf: bytes, p: nat)
    requires p < |buf|
    ensures FindRecordEnd(buf, p) == p + FindRecordEnd(buf[p..], 0)
    ensures RecordAt(buf, p) == RecordAt(buf[p..], 0)
  {
    hide GetU32;
    if p + 9 <= |buf| {
      U32Shift(buf, p, 5);
      var k := 9 + U32At(buf, p + 5);
      if p + k + 4 <= |buf| {
        U32Shift(buf, p, k);
      }
    }
  }

  /** At the offset of a genuine record the reader finds its end, accepts it and parses what was written. */
  lemma WrittenIsRead(s: bytes, op: Op)
    requires Starts(s, op)
    ensures FindRecordEnd(s, 0) == |Encode(op)|
    ensures RecordAt(s, 0) == Encode(op)
    ensures Validate(Encode(op)) == Valid
    ensures ParseRecord(Encode(op)) == Parsed(op)
  {
    hide Crc32.Checksum; hide PutU32; hide GetU32;
    var e := Encode(op);
    assert s == e + s[|e|..];
    Layout(op, s[|e|..]);
    assert e == e + [];
    WrittenIsValid(op);
  }

  lemma WrittenIsValid(op: Op)
    requires Fits(op)
    ensures Validate(Encode(op)) == Valid
    ensures ParseRecord(Encode(op)) == Parsed(op)
  {
    hide Crc32.Checksum; hide PutU32; hide GetU32;
    var e := Encode(op);
    assert e == e + [];
    Layout(op, []);
    assert e[5..] == Payload(op) + [] == Payload(op);
    U32Shift(e, 5, 0);
    if op.Set? {
      U32Shift(e, 5, 4 + |op.key|);
    }
  }

  // ---- nothing else is accepted ----

  /** A record the validator accepts is byte for byte the encoding of what the parser then delivers. */
  lemma ReadIsWritten(s: bytes)
    requires s != [] && Validate(RecordAt(s, 0)) == Valid
    ensures ParseRecord(RecordAt(s, 0)).Parsed?
    ensures Starts(s, ParseRecord(RecordAt(s, 0)).op)
  {
    hide Crc32.Checksum; hide PutU32; hide GetU32; hide Encode; hide ParseRecord;
    var d := RecordAt(s, 0);
    var end := FindRecordEnd(s, 0);
    assert d == s[..end];
    U32Prefix(s, end, 5);
    U32Shift(d, 5, 0);
    var k: nat := U32At(d, 5);
    if d[0] == SET {
      U32Shift(d, 5, 4 + k);
      U32Prefix(s, end, 9 + k);
      SetIsWritten(d);
    } else {
      DelIsWritten(d);
    }
  }

  /** A length field that reads as the length of the blob behind it is the one the writer puts there. */
  lemma FieldFromBytes(length: bytes, blob: bytes)
    requires |length| == 4 && GetU32(length) == |blob|
    ensures |blob| < U32_LIMIT && Field(blob) == length + blob
  {
    U32BytesRoundTrip(length);
    hide PutU32; hide GetU32;
    assert |blob| % U32_LIMIT == |blob|;
  }

  /** Op code, matching checksum and the payload of an operation: the record of that operation. */
  lemma RecordFromParts(d: bytes, op: Op)
    requires |d| >= 9 && d[0] == OpCode(op) && d[5..] == Payload(op) && U32At(d, 1) == Crc32.Checksum(Payload(op))
    ensures Encode(op) == d
  {
    U32BytesRoundTrip(d[1..5]);
    hide PutU32; hide GetU32; hide Crc32.Checksum; hide Payload; hide OpCode;
    assert d == [d[0]] + d[1..5] + d[5..];
  }

  lemma SetIsWritten(d: bytes)
    requires |d| >= 9 && d[0] == SET && U32At(d, 1) == Crc32.Checksum(d[5..])
    requires var k: nat := U32At(d, 5); 13 + k <= |d| && 13 + k + U32At(d, 9 + k) == |d|
    ensures var k: nat := U32At(d, 5);
            var op := Set(d[9..9 + k], d[13 + k..]);
            Fits(op) && Encode(op) == d && ParseRecord(d) == Parsed(op)
  {
    hide Crc32.Checksum; hide PutU32; hide GetU32; hide Field; hide Encode;
    var k: nat := U32At(d, 5);
    var key, value := d[9..9 + k], d[13 + k..];
    FieldFromBytes(d[5..9], key);
    FieldFromBytes(d[9 + k..13 + k], value);
    assert d[5..] == (d[5..9] + key) + (d[9 + k..13 + k] + value);
    RecordFromParts(d, Set(key, value));
    assert d[13 + k..|d|] == value;
  }

  lemma DelIsWritten(d: bytes)
    requires |d| >= 9 && d[0] == DEL && U32At(d, 1) == Crc32.Checksum(d[5..])
    requires var k: nat := U32At(d, 5); 9 + k == |d|
    ensures var op := Del(d[9..]); Fits(op) && Encode(op) == d && ParseRecord(d) == Parsed(op)
  {
    hide Crc32.Checksum; hide PutU32; hide GetU32; hide Field; hide Encode;
    var key := d[9..];
    FieldFromBytes(d[5..9], key);
    assert d[5..] == d[5..9] + key;
    RecordFromParts(d, Del(key));
    assert d[9..|d|] == key;
  }

  lemma U32Prefix(s: bytes, end: nat, pos: nat)
    requires pos + 4 <= end <= |s|
    ensures U32At(s, pos) == U32At(s[..end], pos)
  {
    assert s[pos..pos + 4] == s[..end][pos..pos + 4];
  }

  /** The code is prefix-free: bytes begin with at most one record. */
  lemma RecordUnique(s: bytes, a: Op, b: Op)
    requires Starts(s, a) && Starts(s, b)
    ensures a == b
  {
    WrittenIsRead(s, a);
    WrittenIsRead(s, b);
  }

  /** Validation and parsing decide exactly whether a genuine record starts here, and which. */
  lemma ReadExactly(s: bytes)
    requires s != []
    ensures Validate(RecordAt(s, 0)) == Valid <==> StartsRecord(s)
    ensures StartsRecord(s) ==>
              && ParseRecord(RecordAt(s, 0)) == Parsed(RecordOf(s))
              && FindRecordEnd(s, 0) == |Encode(RecordOf(s))|
  {
    if StartsRecord(s) {
      WrittenIsRead(s, RecordOf(s));
    }
    if Validate(RecordAt(s, 0)) == Valid {
      ReadIsWritten(s);
    }
  }

  // ---- what the bytes look like ----

  /** A DEL of the empty key, byte for byte. */
  lemma ExampleDel()
    ensures Encode(Del([])) == [2, 0x21, 0x44, 0xDF, 0x1C, 0, 0, 0, 0]
  {
    Crc32.ZeroWord();
    ExampleWords();
    hide Crc32.Checksum; hide PutU32;
    assert Field([]) == [0, 0, 0, 0];
  }

  lemma ExampleWords()
    ensures PutU32(0x2144_DF1C) == [0x21, 0x44, 0xDF, 0x1C]
    ensures PutU32(0) == [0, 0, 0, 0] && PutU32(1) == [0, 0, 0, 1] && PutU32(2) == [0, 0, 0, 2]
  {
  }

  /** The fields of a SET: the operation code and, behind the checksum, key and value with their lengths. */
  lemma ExampleSet()
    ensures var e := Encode(Set([0x61], [0x62, 0x63]));
            e[0] == 1 && e[5..] == ([0, 0, 0, 1] + [0x61]) + ([0, 0, 0, 2] + [0x62, 0x63])
  {
    var op := Set([0x61], [0x62, 0x63]);
    LayoutHeader(op, []);
    ExamplePayload();
    hide Encode; hide Payload;
    assert Encode(op) + [] == Encode(op);
    assert Payload(op) + [] == Payload(op);
  }

  lemma ExamplePayload()
    ensures Payload(Set([0x61], [0x62, 0x63])) == ([0, 0, 0, 1] + [0x61]) + ([0, 0, 0, 2] + [0x62, 0x63])
  {
    ExampleWords();
    hide PutU32;
  }
}
