/** The append-only log itself: buffered appends, replay under each policy, rewrite and repair. */
module Aof {
  import opened Bytes
  import opened AofFormat
  import opened Aof1Format
  import opened AofTheorems
  import opened KeyValue
  import Crc32

  datatype SyncPolicy = Always | EverySec | No
  datatype CorruptionPolicy = Strict | Skip | Log
  datatype RepairMode = SkipDamage | Refuse | Recover

  datatype ReplayError = ShortHeader | BadHeader | BadRecord(why: ValidationResult) | BadOldRecord
  datatype Result = Ok | Err(error: ReplayError)

  const MAGIC: bytes := [0x41, 0x4F, 0x46, 0x32]
  const MAGIC1: bytes := [0x41, 0x4F, 0x46, 0x31]
  const INITIAL_BATCH := 32
  const MIN_BATCH := 4

  /** Counters of the validator. */
  datatype IntegrityStats = IntegrityStats(
    checked: nat, valid: nat, corrupted: nat, truncated: nat, unknownOp: nat, skipped: nat)
  {
    /** `IntegrityStats::update`. */
    function Update(result: ValidationResult): IntegrityStats {
      var s := this.(checked := checked + 1);
      match result
      case Valid => s.(valid := valid + 1)
      case Corrupted(_, _) => s.(corrupted := corrupted + 1)
      case Truncated => s.(truncated := truncated + 1)
      case UnknownOperation(_) => s.(unknownOp := unknownOp + 1)
    }

    /** One record validated and, by a tolerant reader, skipped if it is not valid. */
    function Meet(result: ValidationResult, tolerant: bool): IntegrityStats {
      var s := Update(result);
      if tolerant && result != ValidationResult.Valid then s.(skipped := s.skipped + 1) else s
    }

    function MeetAll(vs: seq<ValidationResult>, tolerant: bool): IntegrityStats
      decreases |vs|
    {
      if vs == [] then this else Meet(vs[0], tolerant).MeetAll(vs[1..], tolerant)
    }

    predicate Balanced() {
      checked == valid + corrupted + truncated + unknownOp
    }

    predicate Damage() {
      corrupted > 0 || truncated > 0
    }
  }

  /** Between two readings of the counters exactly these verdicts were met, each counted under its own kind. */
  ghost predicate Counted(before: IntegrityStats, after: IntegrityStats, vs: seq<ValidationResult>, tolerant: bool) {
    && after.checked == before.checked + |vs|
    && after.valid == before.valid + |set i | 0 <= i < |vs| && vs[i] == ValidationResult.Valid|
    && after.corrupted == before.corrupted + |set i | 0 <= i < |vs| && vs[i].Corrupted?|
    && after.truncated == before.truncated + |set i | 0 <= i < |vs| && vs[i].Truncated?|
    && after.unknownOp == before.unknownOp + |set i | 0 <= i < |vs| && vs[i].UnknownOperation?|
    && after.skipped == before.skipped
                        + (if tolerant then |set i | 0 <= i < |vs| && vs[i] != ValidationResult.Valid| else 0)
  }

  /** The corruption policy `repair` reads under. */
  function PolicyOf(mode: RepairMode): (p: CorruptionPolicy)
    ensures p.Strict? <==> mode.Refuse?
  {
    match mode
    case SkipDamage => Skip
    case Refuse => Strict
    case Recover => Log
  }

  // ---- what a file means ----

  predicate HasHeader(content: bytes) {
    |content| >= 4 && (content[..4] == MAGIC || content[..4] == MAGIC1)
  }

  /** The operations a tolerant replay of a file delivers. */
  ghost function TolerantOps(content: bytes): seq<Op>
    requires HasHeader(content)
  {
    if content[..4] == MAGIC then Scan(content[4..]) else Tolerant1(content[4..])
  }

  /** The operations and result of replaying a file under a policy. */
  ghost function ReplaySpec(content: bytes, policy: CorruptionPolicy): (seq<Op>, Result)
  {
    if |content| < 4 then ([], Err(ShortHeader))
    else if !HasHeader(content) then ([], Err(BadHeader))
    else if !policy.Strict? then (TolerantOps(content), Ok)
    else if content[..4] == MAGIC then
      var o := StrictScan(content[4..]);
      (o.ops, if o.error.None? then Ok else Err(BadRecord(o.error.value)))
    else
      var (ops, ok) := Strict1(content[4..]);
      (ops, if ok then Ok else Err(BadOldRecord))
  }

  /** The verdicts a replay of a file meets; the old format carries no checksums and gives none. */
  function Met(content: bytes, policy: CorruptionPolicy): seq<ValidationResult> {
    if |content| < 4 || content[..4] != MAGIC then []
    else if policy.Strict? then UpToFailure(Verdicts(content[4..]))
    else Verdicts(content[4..])
  }

  /** The store a file stands for. */
  ghost function Meaning(content: bytes): Store
    requires HasHeader(content)
  {
    Fold(map[], TolerantOps(content))
  }

  class AofLog {
    const policy: SyncPolicy
    const crc: Crc32.Table
    /** The device accepts every flush. */
    const healthy: bool
    var corruptionPolicy: CorruptionPolicy
    /** Bytes that reached the file, and bytes still in the `BufWriter`. */
    var file: bytes
    var buffer: bytes
    var pending: nat
    var batchSize: nat
    var lastActivity: nat
    var stats: IntegrityStats
    var opsTotal: nat
    var opsSet: nat
    var opsDel: nat
    var flushCount: nat
    var flushErrors: nat
    var replaySkipped: nat

    /**
     File content when the log was opened or last rewritten, the records appended since, and how many of
     those are surely in the file.
     */
    ghost var base: bytes
    ghost var appended: seq<Op>
    ghost var settled: nat

    /** What holds even between an append and its flush. */
    ghost predicate Consistent()
      reads this, crc.table
    {
      ConsistentAt(pending)
    }

    ghost predicate ConsistentAt(unflushed: nat)
      reads this, crc.table
    {
      && crc.Valid()
      && HasHeader(base)
      && file + buffer == base + EncodeAll(appended)
      && settled <= |appended|
      && |base| + |EncodeAll(appended[..settled])| <= |file|
      && batchSize in {4, 8, 16, 32}
      && (policy.Always? ==> |appended| - settled <= unflushed)
      && opsTotal == opsSet + opsDel
      && stats.Balanced()
    }

    ghost predicate Valid()
      reads this, crc.table
    {
      Consistent() && (policy.Always? && healthy ==> pending < INITIAL_BATCH)
    }

    /** The bytes written so far, flushed or not. */
    ghost function Content(): bytes
      reads this`file, this`buffer
    {
      file + buffer
    }

    constructor (content: bytes, policy: SyncPolicy, corruptionPolicy: CorruptionPolicy, healthy: bool)
      requires HasHeader(content)
      ensures Valid() && fresh(crc) && fresh(crc.table)
      ensures this.policy == policy && this.corruptionPolicy == corruptionPolicy && this.healthy == healthy
      ensures file == base == content && buffer == [] && appended == []
      ensures stats == IntegrityStats(0, 0, 0, 0, 0, 0) && opsTotal == 0 && replaySkipped == 0
      ensures batchSize == 32 && pending == 0 && flushCount == 0 && flushErrors == 0
    {
      this.policy, this.corruptionPolicy, this.healthy := policy, corruptionPolicy, healthy;
      var table := new Crc32.Table();
      crc := table;
      file, buffer := content, [];
      pending, batchSize, lastActivity := 0, INITIAL_BATCH, 0;
      stats := IntegrityStats(0, 0, 0, 0, 0, 0);
      opsTotal, opsSet, opsDel, flushCount, flushErrors, replaySkipped := 0, 0, 0, 0, 0, 0;
      base, appended, settled := content, [], 0;
    }

    /** `AofLog::open`: an empty file is given a header, a partial or foreign header is refused. */
    static method Open(content: bytes, policy: SyncPolicy, corruptionPolicy: CorruptionPolicy, healthy: bool)
      returns (log: AofLog?)
      ensures log == null <==> content != [] && !HasHeader(content)
      ensures log != null ==>
                && fresh(log) && fresh(log.crc) && fresh(log.crc.table) && log.Valid()
                && log.policy == policy && log.corruptionPolicy == corruptionPolicy && log.healthy == healthy
                && log.file == log.base == (if content == [] then MAGIC else content)
                && log.buffer == [] && log.appended == [] && log.stats == IntegrityStats(0, 0, 0, 0, 0, 0)
    {
      hide AofLog.Valid;
      if content == [] {
        assert MAGIC[..4] == MAGIC;
        log := new AofLog(MAGIC, policy, corruptionPolicy, healthy);
      } else if |content| < 4 {
        log := null;
      } else if content[..4] != MAGIC && content[..4] != MAGIC1 {
        log := null;
      } else {
        log := new AofLog(content, policy, corruptionPolicy, healthy);
      }
    }

    // ---- appending ----

    /** The `BufWriter` may write any part of its buffer through at any time. */
    method Spill()
      requires Consistent()
      modifies this`file, this`buffer
      ensures Consistent()
      ensures Content() == old(Content()) && old(file) <= file
    {
      hide Crc32.Table.Valid; hide EncodeAll; hide Encode;
      var n :| 0 <= n <= |buffer|;
      assert file + buffer == (file + buffer[..n]) + buffer[n..];
      file, buffer := file + buffer[..n], buffer[n..];
    }

    /** `flush_immediate`. */
    method Flush() returns (ok: bool)
      requires Consistent()
      modifies this`file, this`buffer, this`settled, this`flushCount, this`flushErrors
      ensures Consistent()
      ensures Content() == old(Content()) && old(file) <= file
      ensures healthy ==> ok
      ensures ok ==> buffer == [] && settled == |appended|
      ensures flushCount == old(flushCount) + 1 && flushErrors == old(flushErrors) + (if ok then 0 else 1)
    {
      hide Crc32.Table.Valid; hide EncodeAll; hide Encode;
      ok := *;
      ok := ok || healthy;
      flushCount := flushCount + 1;
      if ok {
        assert file + buffer + [] == file + buffer;
        assert appended[..|appended|] == appended;
        file, buffer := file + buffer, [];
        settled := |appended|;
      } else {
        Spill();
        flushErrors := flushErrors + 1;
      }
    }

    /** `adjust_batch_size`: an idle log flushes in smaller batches. */
    method AdjustBatchSize(now: nat)
      requires Valid()
      modifies this`batchSize
      ensures Valid()
      ensures batchSize == if now - lastActivity > 5 && old(batchSize) > 4 then old(batchSize) / 2 else old(batchSize)
    {
      hide Crc32.Table.Valid; hide EncodeAll; hide Encode;
      if now > lastActivity + 5 && batchSize > MIN_BATCH {
        batchSize := if batchSize / 2 > MIN_BATCH then batchSize / 2 else MIN_BATCH;
      }
    }

    /** `append_set` and `append_del`: one record goes onto the end of the log. */
    method Append(op: Op) returns (ok: bool)
      requires Valid()
      modifies this
      ensures Valid()
      ensures Content() == old(Content()) + Encode(op) && old(file) <= file
      ensures base == old(base) && appended == old(appended) + [op]
      ensures healthy || !policy.Always? ==> ok
      ensures ok <==> flushErrors == old(flushErrors)
      ensures var full := policy.Always? && old(pending) + 1 >= old(batchSize);
              && flushCount == old(flushCount) + (if full then 1 else 0)
              && flushErrors <= old(flushErrors) + (if full then 1 else 0)
              && pending == (if !policy.Always? then old(pending) else if full && ok then 0 else old(pending) + 1)
              && (full && ok ==> buffer == [])
      ensures unchanged(this`corruptionPolicy, this`stats, this`replaySkipped)
      ensures opsTotal == old(opsTotal) + 1 && opsSet == old(opsSet) + (if op.Set? then 1 else 0)
    {
      hide *;
      CountOp(op);
      var record := BuildRecord(op);
      var now: nat, later: nat := *, *;
      Write(record, now, op);
      ok := true;
      if policy.Always? {
        ok := FlushBatch(later);
      }
    }

    method CountOp(op: Op)
      requires Valid()
      modifies this`opsTotal, this`opsSet, this`opsDel
      ensures Valid()
      ensures opsTotal == old(opsTotal) + 1 && opsSet == old(opsSet) + (if op.Set? then 1 else 0)
    {
      hide Crc32.Table.Valid; hide EncodeAll; hide HasHeader;
      opsTotal := opsTotal + 1;
      if op.Set? { opsSet := opsSet + 1; } else { opsDel := opsDel + 1; }
    }

    /** Op code, checksum of the payload, payload. */
    method BuildRecord(op: Op) returns (record: bytes)
      requires Valid()
      ensures record == Encode(op)
    {
      hide Crc32.Table.Valid; hide Crc32.Checksum; hide EncodeAll; hide Payload; hide PutU32; hide HasHeader;
      var payload := Payload(op);
      var checksum := crc.ChecksumOf(payload);
      record := [OpCode(op)] + PutU32(checksum) + payload;
    }

    /** The batching of policy `Always`: flush once the threshold is reached. */
    method FlushBatch(now: nat) returns (ok: bool)
      requires policy.Always?
      requires healthy ==> pending < INITIAL_BATCH
      requires ConsistentAt(pending + 1)
      modifies this`file, this`buffer, this`settled, this`flushCount, this`flushErrors, this`pending, this`batchSize
      ensures Valid()
      ensures Content() == old(Content()) && old(file) <= file
      ensures healthy ==> ok
      ensures ok <==> flushErrors == old(flushErrors)
      ensures var full := old(pending) + 1 >= old(batchSize);
              && flushCount == old(flushCount) + (if full then 1 else 0)
              && flushErrors <= old(flushErrors) + (if full then 1 else 0)
              && pending == (if full && ok then 0 else old(pending) + 1)
              && (full && ok ==> buffer == [])
              && (!full ==> file == old(file) && buffer == old(buffer))
      ensures batchSize == if ok && now - lastActivity > 5 && old(batchSize) > 4 then old(batchSize) / 2
                           else old(batchSize)
    {
      hide Crc32.Table.Valid; hide EncodeAll; hide HasHeader;
      pending := pending + 1;
      ok := true;
      if pending >= batchSize {
        ok := Flush();
        if !ok { return; }
        pending := 0;
      }
      AdjustBatchSize(now);
    }

    /** Bytes of one record enter the buffer. */
    method Write(record: bytes, now: nat, ghost op: Op)
      requires Valid() && record == Encode(op)
      modifies this`file, this`buffer, this`appended, this`lastActivity
      ensures if policy.Always? then ConsistentAt(pending + 1) && (healthy ==> pending < INITIAL_BATCH) else Valid()
      ensures Content() == old(Content()) + record && old(file) <= file
      ensures appended == old(appended) + [op] && lastActivity == now
    {
      hide Crc32.Table.Valid; hide EncodeAll; hide Encode;
      EncodeAllConcat(appended, [op]);
      EncodeOne(op);
      ConcatAssociative(base, EncodeAll(appended), record);
      ConcatAssociative(file, buffer, record);
      assert (appended + [op])[..settled] == appended[..settled];
      appended := appended + [op];
      buffer := buffer + record;
      lastActivity := now;
      var n :| 0 <= n <= |buffer|;
      assert file + buffer == (file + buffer[..n]) + buffer[n..];
      file, buffer := file + buffer[..n], buffer[n..];
    }

    // ---- replay ----

    /** `find_next_valid_record`. */
    static method FindNextValidRecord(buf: bytes, start: nat) returns (next: Option<nat>)
      ensures next == NextCandidate(buf, start)
      ensures next.Some? ==> start < next.value && next.value + 9 <= |buf| && buf[next.value] in {1, 2}
      ensures forall q :: start < q < (if next.Some? then next.value else |buf|) ==> q + 9 > |buf| || buf[q] !in {1, 2}
    {
      var pos := start + 1;
      while pos < |buf|
        invariant start < pos && NextCandidate(buf, start) == NextCandidate(buf, pos - 1)
        invariant forall q :: start < q < pos && q < |buf| ==> q + 9 > |buf| || buf[q] !in {1, 2}
      {
        var op := buf[pos];
        if op == SET || op == DEL {
          if pos + 9 <= |buf| {
            return Some(pos);
          }
        }
        pos := pos + 1;
      }
      return None;
    }

    /** `validate_record`: the verdict, counted. */
    method ValidateRecord(data: bytes) returns (verdict: ValidationResult)
      requires Valid()
      modifies this`stats
      ensures Valid()
      ensures verdict == Validate(data)
      ensures stats == old(stats).Update(verdict) && Counted(old(stats), stats, [verdict], false)
    {
      hide Crc32.Table.Valid; hide Crc32.Checksum; hide EncodeAll; hide Encode; hide HasHeader; hide Shape;
      var shape := Shape(data);
      if shape.Some? {
        verdict := shape.value;
      } else {
        var actual := crc.ChecksumOf(data[5..]);
        verdict := Verdict(U32At(data, 1), actual);
      }
      CountedAll(stats, [verdict], false);
      MeetOne(stats, verdict, [], false);
      assert [verdict] + [] == [verdict];
      stats := stats.Update(verdict);
    }

    /** A record is skipped: counted by the validator and by the log. */
    method MarkSkipped()
      requires Valid()
      modifies this`stats, this`replaySkipped
      ensures Valid()
      ensures stats == old(stats).(skipped := old(stats.skipped) + 1)
      ensures replaySkipped == old(replaySkipped) + 1
    {
      hide Crc32.Table.Valid; hide EncodeAll; hide HasHeader;
      stats := stats.(skipped := stats.skipped + 1);
      replaySkipped := replaySkipped + 1;
    }

    /**
     `replay_aof2_format` on any bytes at all: tolerant policies deliver exactly what the greedy
     scanner does, the strict policy stops at the first offset without a genuine record. Every
     record checked is delivered, skipped, or the one that stopped a strict replay.
     */
    method ReplayAof2(buf: bytes) returns (r: Result, delivered: seq<Op>)
      requires Valid()
      modifies this`stats, this`replaySkipped
      ensures Valid()
      ensures !corruptionPolicy.Strict? ==> r == Ok && delivered == Scan(buf)
      ensures corruptionPolicy.Strict? ==>
                && delivered == StrictScan(buf).ops
                && r == (if StrictScan(buf).error.None? then Ok else Err(BadRecord(StrictScan(buf).error.value)))
      ensures stats.valid == old(stats.valid) + |delivered|
      ensures stats.skipped - old(stats.skipped) == replaySkipped - old(replaySkipped)
      ensures stats.checked - old(stats.checked)
           == |delivered| + (stats.skipped - old(stats.skipped)) + (if r.Err? then 1 else 0)
      ensures corruptionPolicy.Strict? ==> stats.skipped == old(stats.skipped)
      ensures stats == if corruptionPolicy.Strict? then old(stats).MeetAll(UpToFailure(Verdicts(buf)), false)
                       else old(stats).MeetAll(Verdicts(buf), true)
      ensures if corruptionPolicy.Strict? then Counted(old(stats), stats, UpToFailure(Verdicts(buf)), false)
              else Counted(old(stats), stats, Verdicts(buf), true)
    {
      hide *;
      var pos: nat := 0;
      delivered := [];
      WholeBuffer(buf);
      ghost var tolerant := !corruptionPolicy.Strict?;
      CountedAll(stats, ToMeet(buf, tolerant), tolerant);
      while pos < |buf|
        invariant Valid() && pos <= |buf|
        invariant Scan(buf) == delivered + Scan(buf[pos..])
        invariant corruptionPolicy.Strict? ==>
                    StrictScan(buf) == Outcome(delivered + StrictScan(buf[pos..]).ops, StrictScan(buf[pos..]).error)
        invariant stats.valid == old(stats.valid) + |delivered|
        invariant stats.skipped - old(stats.skipped) == replaySkipped - old(replaySkipped)
        invariant stats.checked - old(stats.checked) == |delivered| + (stats.skipped - old(stats.skipped))
        invariant corruptionPolicy.Strict? ==> stats.skipped == old(stats.skipped)
        invariant old(stats).MeetAll(ToMeet(buf, tolerant), tolerant)
               == stats.MeetAll(ToMeet(buf[pos..], tolerant), tolerant)
      {
        var end := FindRecordEnd(buf, pos);
        var record := RecordAt(buf, pos);
        CountedOnce(stats, Validate(record));
        MeetNext(stats, buf, pos, tolerant);
        var verdict := ValidateRecord(record);
        if verdict == ValidationResult.Valid {
          ValidStep(buf, pos);
          var parse := ParseRecord(record);
          ConcatAssociative(delivered, [parse.op], Scan(buf[end..]));
          ConcatAssociative(delivered, [parse.op], StrictScan(buf[end..]).ops);
          delivered := delivered + [parse.op];
          pos := end;
        } else {
          RejectedStep(buf, pos);
          if corruptionPolicy.Strict? {
            assert delivered + [] == delivered;
            AllMet(buf, tolerant, stats);
            return Err(BadRecord(verdict)), delivered;
          }
          MarkSkipped();
          var next := FindNextValidRecord(buf, pos);
          if next.None? {
            assert delivered + [] == delivered;
            AllMet(buf, tolerant, stats);
            return Ok, delivered;
          }
          pos := next.value;
        }
      }
      r := Ok;
      NothingLeft(buf, pos);
      AllMet(buf, tolerant, stats);
      assert delivered + [] == delivered;
    }

    /** `replay_aof1_format`. */
    method ReplayAof1(buf: bytes) returns (r: Result, delivered: seq<Op>)
      requires Valid()
      modifies this`replaySkipped
      ensures Valid()
      ensures !corruptionPolicy.Strict? ==> r == Ok && delivered == Tolerant1(buf)
      ensures corruptionPolicy.Strict? ==>
                delivered == Strict1(buf).0 && r == (if Strict1(buf).1 then Ok else Err(BadOldRecord))
      ensures replaySkipped == old(replaySkipped) + (if corruptionPolicy.Strict? then 0 else Skips1(buf))
    {
      hide *;
      var pos: nat := 0;
      delivered := [];
      WholeBuffer1(buf);
      while pos < |buf|
        invariant Valid() && pos <= |buf|
        invariant Tolerant1(buf) == delivered + Tolerant1(buf[pos..])
        invariant corruptionPolicy.Strict? ==>
                    Strict1(buf) == (delivered + Strict1(buf[pos..]).0, Strict1(buf[pos..]).1)
        invariant if corruptionPolicy.Strict? then replaySkipped == old(replaySkipped)
                  else replaySkipped + Skips1(buf[pos..]) == old(replaySkipped) + Skips1(buf)
      {
        match ReadRecord1(buf[pos..]) {
          case Delivered(op, used) =>
            DeliveredStep1(buf, pos);
            ConcatAssociative(delivered, [op], Tolerant1(buf[pos + used..]));
            ConcatAssociative(delivered, [op], Strict1(buf[pos + used..]).0);
            delivered := delivered + [op];
            pos := pos + used;
          case Failed(used) =>
            FailedStep1(buf, pos);
            assert delivered + [] == delivered;
            if corruptionPolicy.Strict? {
              return Err(BadOldRecord), delivered;
            }
            CountSkip();
            var next := FindNextValidRecord(buf, pos + used);
            if next.None? {
              return Ok, delivered;
            }
            pos := next.value;
        }
      }
      r := Ok;
      NothingLeft1(buf, pos);
      assert delivered + [] == delivered;
    }

    method CountSkip()
      requires Valid()
      modifies this`replaySkipped
      ensures Valid() && replaySkipped == old(replaySkipped) + 1
    {
      hide Crc32.Table.Valid; hide EncodeAll; hide HasHeader;
      replaySkipped := replaySkipped + 1;
    }

    /** `replay`: read the file from its start and hand every operation to the callback, in order. */
    method Replay() returns (r: Result, delivered: seq<Op>)
      requires Valid()
      modifies this`stats, this`replaySkipped
      ensures Valid()
      ensures (delivered, r) == ReplaySpec(file, corruptionPolicy)
      ensures stats == old(stats).MeetAll(Met(file, corruptionPolicy), !corruptionPolicy.Strict?)
      ensures Counted(old(stats), stats, Met(file, corruptionPolicy), !corruptionPolicy.Strict?)
    {
      CountedAll(stats, Met(file, corruptionPolicy), !corruptionPolicy.Strict?);
      hide Counted;
      hide Crc32.Table.Valid; hide Scan; hide StrictScan; hide Strict1; hide Tolerant1; hide EncodeAll;
      hide Verdicts; hide UpToFailure;
      if |file| < 4 {
        return Err(ShortHeader), [];
      }
      var header := file[..4];
      if header != MAGIC && header != MAGIC1 {
        return Err(BadHeader), [];
      }
      if header == MAGIC1 {
        r, delivered := ReplayAof1(file[4..]);
      } else {
        r, delivered := ReplayAof2(file[4..]);
      }
    }

    // ---- rewriting ----

    /** `rewrite`: the file is replaced by one SET record per live entry; what was still buffered is gone. */
    method Rewrite(live: seq<Entry>)
      requires Valid()
      modifies this`file, this`buffer, this`base, this`appended, this`settled
      ensures Valid()
      ensures file == base == MAGIC + EncodeAll(Sets(live)) && buffer == [] && appended == []
    {
      hide Crc32.Table.Valid; hide EncodeAll; hide Encode; hide Sets;
      var tmp := MAGIC;
      EncodeNone();
      assert Sets(live[..0]) == [] by { SetsSnoc(live, 0); }
      assert tmp == tmp + [];
      for i := 0 to |live|
        invariant Valid()
        invariant tmp == MAGIC + EncodeAll(Sets(live[..i]))
      {
        var op := Set(live[i].0, live[i].1);
        var record := BuildRecord(op);
        SetsSnoc(live, i);
        EncodeAllConcat(Sets(live[..i]), [op]);
        EncodeOne(op);
        ConcatAssociative(MAGIC, EncodeAll(Sets(live[..i])), record);
        tmp := tmp + record;
      }
      assert live[..|live|] == live;
      assert tmp[..4] == MAGIC;
      assert tmp + [] == tmp;
      file, buffer := tmp, [];
      base, appended, settled := tmp, [], 0;
    }

    /** One of the iteration orders of a hash map. */
    static method Enumerate(m: Store) returns (entries: seq<Entry>)
      ensures Enumerates(entries, m)
    {
      entries := [];
      var rest := m;
      while rest != map[]
        invariant rest.Keys <= m.Keys && forall k :: k in rest ==> rest[k] == m[k]
        invariant forall i, j :: 0 <= i < j < |entries| ==> entries[i].0 != entries[j].0
        invariant forall i :: 0 <= i < |entries| ==>
                    entries[i].0 in m && entries[i].0 !in rest && m[entries[i].0] == entries[i].1
        invariant forall k :: k in m && k !in rest ==> exists i :: 0 <= i < |entries| && entries[i].0 == k
        decreases |rest|
      {
        var k :| k in rest;
        ghost var before := entries;
        entries := entries + [(k, rest[k])];
        assert entries[|before|].0 == k;
        assert forall i :: 0 <= i < |before| ==> entries[i] == before[i];
        rest := rest - {k};
      }
    }

    /**
     `repair`. The tolerant modes never change what the file means, and whenever they rewrite it
     the new file replays without complaint; the strict mode changes nothing. The file is rewritten
     exactly when damage was counted, now or earlier, so for a log without earlier damage strict replay
     succeeds afterwards unless the only faults met are unknown operation codes.
     */
    method Repair(mode: RepairMode) returns (r: Result, modified: bool)
      requires Valid()
      modifies this
      ensures Valid() && HasHeader(old(file)) && HasHeader(file) && corruptionPolicy == old(corruptionPolicy)
      ensures modified <==> old(stats).Damage() || Damaged(Met(old(file), PolicyOf(mode)))
      ensures mode.Refuse? ==> r == ReplaySpec(old(file), Strict).1
      ensures !mode.Refuse? ==> r == Ok && Meaning(file) == Meaning(old(file))
      ensures modified && !mode.Refuse? ==>
                && buffer == [] && appended == []
                && ReplaySpec(file, Strict).1 == Ok
                && Fold(map[], ReplaySpec(file, Strict).0) == Meaning(old(file))
      ensures !modified || mode.Refuse? ==> file == old(file) && buffer == old(buffer) && appended == old(appended)
      ensures !mode.Refuse? ==>
                (ReplaySpec(file, Strict).1 == Ok <==> modified || ReplaySpec(old(file), Strict).1 == Ok)
      ensures !mode.Refuse? && !old(stats).Damage() && old(file)[..4] == MAGIC ==>
                var vs := Verdicts(old(file)[4..]);
                ReplaySpec(file, Strict).1 == Ok <==> Damaged(vs) || AllValid(vs)
    {
      hide *;
      var originalPolicy := corruptionPolicy;
      SetPolicy(PolicyOf(mode));
      ghost var before := file;
      FileHasHeader();
      var delivered;
      r, delivered := Replay();
      var recovered := Collect(delivered);
      DamageMet(old(stats), Met(before, corruptionPolicy), !corruptionPolicy.Strict?);
      modified := stats.Damage();
      if modified && !mode.Refuse? {
        var live := Enumerate(recovered);
        Rewrite(live);
        TolerantReplay(before, corruptionPolicy);
        MeaningIsFold(before);
        RewrittenFile(before, live);
      }
      SetPolicy(originalPolicy);
      if !mode.Refuse? {
        TolerantReplay(before, PolicyOf(mode));
        if before[..4] == MAGIC {
          StrictFileIffAllValid(before, PolicyOf(mode));
        }
      }
    }

    lemma FileHasHeader()
      requires Valid()
      ensures HasHeader(file) && |file| >= 4
    {
      hide Crc32.Table.Valid; hide EncodeAll;
      assert file[..4] == (file + buffer)[..4] == base[..4];
    }

    method SetPolicy(policy: CorruptionPolicy)
      requires Valid()
      modifies this`corruptionPolicy
      ensures Valid() && corruptionPolicy == policy
    {
      hide Crc32.Table.Valid; hide EncodeAll; hide HasHeader;
      corruptionPolicy := policy;
    }

    /** The callback of `repair`: apply each delivered operation to a hash map. */
    static method Collect(ops: seq<Op>) returns (m: Store)
      ensures m == Fold(map[], ops)
    {
      m := map[];
      assert ops[..0] == [];
      for i := 0 to |ops|
        invariant m == Fold(map[], ops[..i])
      {
        assert ops[..i + 1] == ops[..i] + [ops[i]];
        FoldSnoc(map[], ops[..i], ops[i]);
        m := match ops[i]
          case Set(key, value) => m[key := value]
          case Del(key) => m - {key};
      }
      assert ops[..|ops|] == ops;
    }

    // ---- durability ----

    /**
     Under `Always` with a healthy device, losing everything that has not reached the file costs
     at most the last 31 appended records.
     */
    lemma CrashLosesAtMost31(prior: seq<Op>) returns (n: nat)
      requires Valid() && policy.Always? && healthy
      requires base == MAGIC + EncodeAll(prior) && AllFit(prior + appended)
      ensures |prior| + |appended| - 31 <= n <= |prior| + |appended| && |prior| <= n
      ensures Survives(file, prior + appended, n)
    {
      hide Crc32.Table.Valid; hide EncodeAll; hide HasHeader; hide Survives; hide AllFit;
      var ops := prior + appended;
      EncodeAllConcat(prior, appended);
      EncodeAllConcat(prior, appended[..settled]);
      assert ops[..|prior| + settled] == prior + appended[..settled];
      ConcatAssociative(MAGIC, EncodeAll(prior), EncodeAll(appended));
      n := SurvivingRecords(ops, file, buffer, |prior| + settled);
    }
  }

  /**
   What is left of a log holds its first `n` records and perhaps a part of the next. Strict replay delivers
   those records and succeeds iff there is nothing behind them; tolerant replay delivers them first, and
   nothing besides iff no offset behind them starts a record.
   */
  ghost predicate Survives(file: bytes, history: seq<Op>, n: nat) {
    && n <= |history| && HasHeader(file)
    && var end := 4 + |EncodeAll(history[..n])|;
    && end <= |file|
    && ReplaySpec(file, Strict) == (history[..n], if |file| == end then Ok else Err(BadRecord(Truncated)))
    && history[..n] <= ReplaySpec(file, Log).0
    && (ReplaySpec(file, Log).0 == history[..n] <==> NoRecordFrom(file, end))
  }

  /** A file that holds at least the first `keep` records of a log keeps some prefix no shorter than that. */
  lemma SurvivingRecords(ops: seq<Op>, file: bytes, buffer: bytes, keep: nat) returns (n: nat)
    requires AllFit(ops) && keep <= |ops|
    requires file + buffer == MAGIC + EncodeAll(ops) && 4 + |EncodeAll(ops[..keep])| <= |file|
    ensures keep <= n <= |ops| && Survives(file, ops, n)
  {
    hide EncodeAll; hide AllFit; hide Scan; hide StrictScan; hide WholeRecords; hide NoRecordFrom;
    var whole, cut := MAGIC + EncodeAll(ops), |file| - 4;
    assert file == whole[..|file|];
    assert file[..4] == MAGIC && file[4..] == EncodeAll(ops)[..cut];
    TornLog(ops, cut);
    n := WholeRecords(ops, cut);
    TornLogTolerantIff(ops, cut);
    NoRecordBehind(file, 4, |EncodeAll(ops[..n])|);
    if n < keep {
      assert ops[..keep] == ops[..n + 1] + ops[n + 1..keep];
      EncodeAllConcat(ops[..n + 1], ops[n + 1..keep]);
      assert false;
    }
  }

  lemma NoRecordBehind(s: bytes, h: nat, p: nat)
    requires h + p <= |s|
    ensures NoRecordFrom(s[h..], p) <==> NoRecordFrom(s, h + p)
  {
    hide StartsRecord;
    NoRecordShift(s[h..], p);
    NoRecordShift(s, h + p);
    assert s[h..][p..] == s[h + p..];
  }

  lemma MeaningIsFold(content: bytes)
    requires HasHeader(content)
    ensures Meaning(content) == Fold(map[], TolerantOps(content))
  {
  }

  /** Tolerant policies always finish, delivering the tolerant reading of the file. */
  lemma TolerantReplay(content: bytes, policy: CorruptionPolicy)
    requires HasHeader(content) && !policy.Strict?
    ensures ReplaySpec(content, policy) == (TolerantOps(content), Ok)
  {
  }

  lemma {:induction false} FoldFits(ops: seq<Op>, m: Store)
    requires AllFit(ops) && forall k :: k in m ==> |k| < U32_LIMIT && |m[k]| < U32_LIMIT
    ensures var r := Fold(m, ops); forall k :: k in r ==> |k| < U32_LIMIT && |r[k]| < U32_LIMIT
    decreases |ops|
  {
    if ops != [] {
      FoldFits(ops[1..], Apply(m, ops[0]));
    }
  }

  lemma TolerantOpsFit(content: bytes)
    requires HasHeader(content)
    ensures AllFit(TolerantOps(content))
  {
    if content[..4] == MAGIC {
      ScanDeliversFitting(content[4..]);
    } else {
      DeliversFitting1(content[4..]);
    }
  }

  /** A rewritten log replays under every policy, without error, to exactly the map that was written out. */
  lemma RewriteRoundTrip(order: seq<Entry>, m: Store, policy: CorruptionPolicy)
    requires Enumerates(order, m) && AllFit(Sets(order))
    ensures var file := MAGIC + EncodeAll(Sets(order));
            HasHeader(file) && ReplaySpec(file, policy) == (Sets(order), Ok)
    ensures Fold(map[], Sets(order)) == m
  {
    hide EncodeAll; hide Scan; hide StrictScan; hide Enumerates; hide Fold; hide AllFit;
    LogRoundTrip(Sets(order));
    EnumerationRebuilds(order, m);
    var file := MAGIC + EncodeAll(Sets(order));
    assert file[..4] == MAGIC && file[4..] == EncodeAll(Sets(order));
  }

  /** Writing out what a file means gives a clean file that means the same. */
  lemma RewrittenFile(before: bytes, live: seq<Entry>)
    requires HasHeader(before) && Enumerates(live, Meaning(before))
    ensures var after := MAGIC + EncodeAll(Sets(live));
            && HasHeader(after) && Meaning(after) == Meaning(before)
            && ReplaySpec(after, Strict) == (Sets(live), Ok)
            && Fold(map[], Sets(live)) == Meaning(before)
  {
    hide EncodeAll; hide Scan; hide StrictScan; hide Fold; hide Tolerant1;
    TolerantOpsFit(before);
    FoldFits(TolerantOps(before), map[]);
    assert AllFit(Sets(live));
    RewriteRoundTrip(live, Meaning(before), Strict);
    RewriteRoundTrip(live, Meaning(before), Log);
  }

  lemma StrictFileIffAllValid(content: bytes, policy: CorruptionPolicy)
    requires HasHeader(content) && content[..4] == MAGIC && !policy.Strict?
    ensures ReplaySpec(content, Strict).1 == Ok <==> AllValid(Verdicts(content[4..]))
    ensures Met(content, policy) == Verdicts(content[4..])
  {
    hide Verdicts; hide StrictScan; hide AllValid;
    StrictIffAllValid(content[4..]);
  }

  /**
   Unknown operation codes stop a strict replay but do not count as damage, so `repair` leaves a file
   whose only fault they are as it is: opened afresh and repaired in a tolerant mode, intact records
   followed by junk without operation codes are still there, and strict replay still fails.
   */
  method RepairLeavesUnknownTail(ops: seq<Op>, junk: bytes, sync: SyncPolicy, mode: RepairMode)
    returns (log: AofLog, modified: bool)
    requires AllFit(ops) && |junk| >= 9 && SET !in junk && DEL !in junk && !mode.Refuse?
    ensures !modified && log.file == MAGIC + (EncodeAll(ops) + junk)
    ensures ReplaySpec(log.file, Strict).1.Err?
  {
    hide *;
    var content := MAGIC + (EncodeAll(ops) + junk);
    UnknownTail(ops, junk);
    HeaderOf(EncodeAll(ops) + junk);
    log := new AofLog(content, sync, Strict, true);
    NoDamageYet();
    StrictFileIffAllValid(content, PolicyOf(mode));
    var result;
    result, modified := log.Repair(mode);
  }

  /** One such file: a header and nine zero bytes. */
  lemma NineZeros(policy: CorruptionPolicy)
    ensures var content := MAGIC + [0, 0, 0, 0, 0, 0, 0, 0, 0];
            !Damaged(Met(content, policy)) && ReplaySpec(content, Strict).1.Err?
  {
    hide Verdicts; hide StrictScan; hide AllValid; hide Damaged;
    var junk: bytes := [0, 0, 0, 0, 0, 0, 0, 0, 0];
    UnknownTail([], junk);
    EncodeNone();
    assert [] + junk == junk;
    HeaderOf(junk);
    StrictFileIffAllValid(MAGIC + junk, Log);
    FailureOfUndamaged(Verdicts(junk));
  }

  /** There is no shorter one: fewer than nine bytes behind the header are damage, or nothing. */
  lemma NineIsShortest(content: bytes)
    requires HasHeader(content) && content[..4] == MAGIC && |content| < 13
    ensures Damaged(Met(content, Log)) || ReplaySpec(content, Strict).1 == Ok
  {
    hide StrictScan; hide AllValid;
    var s := content[4..];
    StrictFileIffAllValid(content, Log);
    if s != [] {
      assert |RecordAt(s, 0)| < 9;
      assert Verdicts(s)[0] == Truncated;
    } else {
      EmptyReads();
    }
  }

  lemma {:induction false} FailureOfUndamaged(vs: seq<ValidationResult>)
    requires !Damaged(vs)
    ensures !Damaged(UpToFailure(vs))
    decreases |vs|
  {
    if vs != [] {
      assert !Damaged(vs[1..]) by {
        assert forall i :: 0 <= i < |vs[1..]| ==> vs[1..][i] == vs[i + 1];
      }
      FailureOfUndamaged(vs[1..]);
      ValidFirst(UpToFailure(vs[1..]));
    }
  }

  lemma HeaderOf(records: bytes)
    ensures var content := MAGIC + records;
            HasHeader(content) && content[..4] == MAGIC && content[4..] == records
  {
  }

  lemma NoDamageYet()
    ensures !IntegrityStats(0, 0, 0, 0, 0, 0).Damage()
  {
  }

  /** A whole file in each format. */
  lemma ExampleFiles()
    ensures MAGIC + Encode(Del([])) == [0x41, 0x4F, 0x46, 0x32, 2, 0x21, 0x44, 0xDF, 0x1C, 0, 0, 0, 0]
    ensures MAGIC1 + Encode1(Del([0x61])) == [0x41, 0x4F, 0x46, 0x31, 2, 0, 0, 0, 1, 0x61]
  {
    hide Encode; hide Encode1;
    ExampleDel();
    ExampleRecord1();
  }

  lemma SetsSnoc(live: seq<Entry>, i: nat)
    requires i <= |live|
    ensures Sets(live[..0]) == []
    ensures i < |live| ==> Sets(live[..i + 1]) == Sets(live[..i]) + [Set(live[i].0, live[i].1)]
  {
  }

  lemma WholeBuffer(buf: bytes)
    ensures Scan(buf) == [] + Scan(buf[0..])
    ensures StrictScan(buf) == Outcome([] + StrictScan(buf[0..]).ops, StrictScan(buf[0..]).error)
  {
    hide *;
    assert buf[0..] == buf;
    assert [] + Scan(buf) == Scan(buf) && [] + StrictScan(buf).ops == StrictScan(buf).ops;
  }

  lemma WholeBuffer1(buf: bytes)
    ensures Tolerant1(buf) == [] + Tolerant1(buf[0..])
    ensures Strict1(buf) == ([] + Strict1(buf[0..]).0, Strict1(buf[0..]).1)
    ensures Skips1(buf) == Skips1(buf[0..])
  {
    hide *;
    assert buf[0..] == buf;
    assert [] + Tolerant1(buf) == Tolerant1(buf) && [] + Strict1(buf).0 == Strict1(buf).0;
  }

  lemma NothingLeft1(buf: bytes, pos: nat)
    requires pos == |buf|
    ensures Tolerant1(buf[pos..]) == [] && Strict1(buf[pos..]) == ([], true) && Skips1(buf[pos..]) == 0
  {
    assert buf[pos..] == [];
  }

  lemma NothingLeft(buf: bytes, pos: nat)
    requires pos == |buf|
    ensures Scan(buf[pos..]) == [] && StrictScan(buf[pos..]) == Outcome([], None)
    ensures forall tolerant :: ToMeet(buf[pos..], tolerant) == []
  {
    assert buf[pos..] == [];
  }

  /** The verdicts still ahead of a reader. */
  function ToMeet(s: bytes, tolerant: bool): seq<ValidationResult> {
    if tolerant then Verdicts(s) else UpToFailure(Verdicts(s))
  }

  lemma AllMet(buf: bytes, tolerant: bool, s: IntegrityStats)
    ensures s.MeetAll([], tolerant) == s
    ensures ToMeet(buf, tolerant) == if tolerant then Verdicts(buf) else UpToFailure(Verdicts(buf))
  {
  }

  /** One turn of the replay loop meets one verdict. */
  lemma MeetNext(stats: IntegrityStats, buf: bytes, pos: nat, tolerant: bool)
    requires pos < |buf|
    ensures var v := Validate(RecordAt(buf, pos));
            var next := if v == Valid then Some(FindRecordEnd(buf, pos)) else NextCandidate(buf, pos);
            var s := stats.Update(v);
            && (v == Valid ==>
                  stats.MeetAll(ToMeet(buf[pos..], tolerant), tolerant)
                  == s.MeetAll(ToMeet(buf[next.value..], tolerant), tolerant))
            && (v != Valid && !tolerant ==>
                  stats.MeetAll(ToMeet(buf[pos..], tolerant), tolerant) == s)
            && (v != Valid && tolerant ==>
                  stats.MeetAll(ToMeet(buf[pos..], tolerant), tolerant)
                  == s.(skipped := s.skipped + 1)
                      .MeetAll(if next.Some? then ToMeet(buf[next.value..], tolerant) else [], tolerant))
  {
    hide *;
    VerdictStep(buf, pos);
    var v := Validate(RecordAt(buf, pos));
    var next := if v == Valid then Some(FindRecordEnd(buf, pos)) else NextCandidate(buf, pos);
    var rest := if next.Some? then Verdicts(buf[next.value..]) else [];
    AllMet(buf[pos..], tolerant, stats);
    if next.Some? {
      AllMet(buf[next.value..], tolerant, stats);
    }
    MeetOne(stats, v, if tolerant then rest else if v == Valid then UpToFailure(rest) else [], tolerant);
  }

  lemma MeetOne(s: IntegrityStats, v: ValidationResult, rest: seq<ValidationResult>, tolerant: bool)
    ensures s.MeetAll([v] + rest, tolerant) == s.Meet(v, tolerant).MeetAll(rest, tolerant)
    ensures s.Meet(v, tolerant)
         == if tolerant && v != Valid then s.Update(v).(skipped := s.Update(v).skipped + 1) else s.Update(v)
    ensures forall u: IntegrityStats :: u.MeetAll([], tolerant) == u
  {
    assert ([v] + rest)[1..] == rest;
  }

  lemma MeetNone(s: IntegrityStats, tolerant: bool)
    ensures s.MeetAll([], tolerant) == s && Counted(s, s, [], tolerant)
  {
  }

  lemma {:induction false} MeetSnoc(s: IntegrityStats, vs: seq<ValidationResult>, v: ValidationResult, tolerant: bool)
    ensures s.MeetAll(vs + [v], tolerant) == s.MeetAll(vs, tolerant).Meet(v, tolerant)
    decreases |vs|
  {
    hide IntegrityStats.Meet;
    if vs == [] {
      assert vs + [v] == [v] && [v][1..] == [];
    } else {
      assert (vs + [v])[1..] == vs[1..] + [v];
      MeetSnoc(s.Meet(vs[0], tolerant), vs[1..], v, tolerant);
    }
  }

  lemma ValidSnoc(vs: seq<ValidationResult>, v: ValidationResult)
    ensures |set i | 0 <= i < |vs + [v]| && (vs + [v])[i] == ValidationResult.Valid|
         == |set i | 0 <= i < |vs| && vs[i] == ValidationResult.Valid| + (if v == ValidationResult.Valid then 1 else 0)
  {
    var n, all := |vs|, vs + [v];
    assert (set i | 0 <= i < |all| && all[i] == ValidationResult.Valid)
        == (set i | 0 <= i < n && vs[i] == ValidationResult.Valid) + (if v == ValidationResult.Valid then {n} else {});
  }

  lemma CorruptedSnoc(vs: seq<ValidationResult>, v: ValidationResult)
    ensures |set i | 0 <= i < |vs + [v]| && (vs + [v])[i].Corrupted?|
         == |set i | 0 <= i < |vs| && vs[i].Corrupted?| + (if v.Corrupted? then 1 else 0)
  {
    var n, all := |vs|, vs + [v];
    assert (set i | 0 <= i < |all| && all[i].Corrupted?)
        == (set i | 0 <= i < n && vs[i].Corrupted?) + (if v.Corrupted? then {n} else {});
  }

  lemma TruncatedSnoc(vs: seq<ValidationResult>, v: ValidationResult)
    ensures |set i | 0 <= i < |vs + [v]| && (vs + [v])[i].Truncated?|
         == |set i | 0 <= i < |vs| && vs[i].Truncated?| + (if v.Truncated? then 1 else 0)
  {
    var n, all := |vs|, vs + [v];
    assert (set i | 0 <= i < |all| && all[i].Truncated?)
        == (set i | 0 <= i < n && vs[i].Truncated?) + (if v.Truncated? then {n} else {});
  }

  lemma UnknownSnoc(vs: seq<ValidationResult>, v: ValidationResult)
    ensures |set i | 0 <= i < |vs + [v]| && (vs + [v])[i].UnknownOperation?|
         == |set i | 0 <= i < |vs| && vs[i].UnknownOperation?| + (if v.UnknownOperation? then 1 else 0)
  {
    var n, all := |vs|, vs + [v];
    assert (set i | 0 <= i < |all| && all[i].UnknownOperation?)
        == (set i | 0 <= i < n && vs[i].UnknownOperation?) + (if v.UnknownOperation? then {n} else {});
  }

  lemma SkippedSnoc(vs: seq<ValidationResult>, v: ValidationResult)
    ensures |set i | 0 <= i < |vs + [v]| && (vs + [v])[i] != ValidationResult.Valid|
         == |set i | 0 <= i < |vs| && vs[i] != ValidationResult.Valid| + (if v != ValidationResult.Valid then 1 else 0)
  {
    var n, all := |vs|, vs + [v];
    assert (set i | 0 <= i < |all| && all[i] != ValidationResult.Valid)
        == (set i | 0 <= i < n && vs[i] != ValidationResult.Valid) + (if v != ValidationResult.Valid then {n} else {});
  }

  /** A verdict more is one more of its own kind and of no other. */
  lemma CountedOneMore(a: IntegrityStats, b: IntegrityStats, vs: seq<ValidationResult>, v: ValidationResult,
                       tolerant: bool)
    requires Counted(a, b, vs, tolerant)
    ensures Counted(a, b.Meet(v, tolerant), vs + [v], tolerant)
  {
    ValidSnoc(vs, v);
    CorruptedSnoc(vs, v);
    TruncatedSnoc(vs, v);
    UnknownSnoc(vs, v);
    SkippedSnoc(vs, v);
  }

  /** Each counter grows by the number of verdicts of its own kind. */
  lemma {:induction false} CountedAll(s: IntegrityStats, vs: seq<ValidationResult>, tolerant: bool)
    ensures Counted(s, s.MeetAll(vs, tolerant), vs, tolerant)
    decreases |vs|
  {
    hide *;
    MeetNone(s, tolerant);
    if vs != [] {
      var init, last := vs[..|vs| - 1], vs[|vs| - 1];
      assert vs == init + [last];
      CountedAll(s, init, tolerant);
      MeetSnoc(s, init, last, tolerant);
      CountedOneMore(s, s.MeetAll(init, tolerant), init, last, tolerant);
    }
  }

  /** The counters show damage exactly when they did before or some verdict met since is damage. */
  lemma {:induction false} DamageMet(s: IntegrityStats, vs: seq<ValidationResult>, tolerant: bool)
    ensures s.MeetAll(vs, tolerant).Damage() <==> s.Damage() || Damaged(vs)
    decreases |vs|
  {
    if vs != [] {
      DamageMet(s.Meet(vs[0], tolerant), vs[1..], tolerant);
      assert Damaged(vs) <==> vs[0].Corrupted? || vs[0].Truncated? || Damaged(vs[1..]) by {
        assert forall i :: 0 <= i < |vs[1..]| ==> vs[1..][i] == vs[i + 1];
        if Damaged(vs[1..]) {
          var i :| 0 <= i < |vs[1..]| && (vs[1..][i].Corrupted? || vs[1..][i].Truncated?);
          assert vs[i + 1] == vs[1..][i];
        }
        if Damaged(vs) {
          var i :| 0 <= i < |vs| && (vs[i].Corrupted? || vs[i].Truncated?);
          assert i > 0 ==> vs[1..][i - 1] == vs[i];
        }
      }
    }
  }

  lemma CountedOnce(s: IntegrityStats, verdict: ValidationResult)
    ensures s.Update(verdict).checked == s.checked + 1 && s.Update(verdict).skipped == s.skipped
    ensures s.Update(verdict).valid == s.valid + (if verdict == Valid then 1 else 0)
  {
  }
}
