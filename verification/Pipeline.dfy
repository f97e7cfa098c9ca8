/** The audit-export pipeline object: each operation is proved to be the matching step of the state machine. */
module AuditPipeline {
  import opened Arithmetic
  import opened Bytes
  import opened Results
  import opened PipelineSpec

  class Pipeline {
    const cfg: Config
    var buffer: seq<Record>
    var bufferBytes: nat
    var inFlight: Option<seq<Record>>
    var lastTxId: u64
    var batchStartedAt: Option<u64>
    var backoff: u64
    var nextAttempt: u64
    var halt: Option<HaltReason>
    var dropped: nat
    var lastOverflow: Option<u64>

    /** The running byte count agrees with the buffer. */
    ghost predicate Valid()
      reads this
    {
      bufferBytes == Sum(buffer) && dropped <= U32_MAX
    }

    ghost function Model(): State
      reads this
    {
      State(buffer, inFlight, lastTxId, batchStartedAt, backoff, nextAttempt, halt, dropped, lastOverflow)
    }

    constructor (cfg: Config, lastKnownTxId: u64)
      ensures Valid()
      ensures this.cfg == cfg && Model() == Init(lastKnownTxId)
    {
      this.cfg := cfg;
      buffer, bufferBytes, inFlight := [], 0, None;
      lastTxId, batchStartedAt := lastKnownTxId, None;
      backoff, nextAttempt, halt := 0, 0, None;
      dropped, lastOverflow := 0, None;
    }

    method CountDrop()
      requires dropped <= U32_MAX
      modifies this`dropped
      ensures dropped == Tally(old(dropped), 1)
    {
      if dropped < U32_MAX {
        dropped := dropped + 1;
      }
    }

    /** Drop the oldest records until `need` bytes fit; `fits` is false when an empty buffer would not do. */
    method MakeRoom(need: nat) returns (fits: bool)
      requires Valid()
      modifies this`buffer, this`bufferBytes, this`dropped
      ensures Valid()
      ensures fits == (need <= cfg.bufferBytes)
      ensures var k := Victims(cfg.bufferBytes, old(buffer), need);
        && buffer == old(buffer)[k..]
        && dropped == Tally(old(dropped), k + if fits then 0 else 1)
    {
      ghost var k := 0;
      while bufferBytes + need > cfg.bufferBytes
        invariant Valid()
        invariant k <= |old(buffer)| && buffer == old(buffer)[k..]
        invariant Victims(cfg.bufferBytes, old(buffer), need) == k + Victims(cfg.bufferBytes, buffer, need)
        invariant dropped == Tally(old(dropped), k)
        decreases |buffer|
      {
        if buffer == [] {
          CountDrop();
          return false;
        }
        bufferBytes := bufferBytes - buffer[0].Size();
        buffer := buffer[1..];
        CountDrop();
        k := k + 1;
      }
      return true;
    }

    method Push(now: u64, record: Record) returns (r: Result<bool, HaltReason>)
      requires Valid()
      modifies this
      ensures Valid()
      ensures (Model(), r) == PushStep(cfg, old(Model()), now, record)
    {
      if halt.Some? {
        return Err(halt.value);
      }
      if !Passes(cfg, record) {
        return Ok(false);
      }
      var need := record.Size();
      var fits := MakeRoom(need);
      if !fits {
        return Ok(false);
      }
      SumAppend(buffer, record);
      bufferBytes := bufferBytes + need;
      buffer := buffer + [record];
      if batchStartedAt.None? {
        batchStartedAt := Some(now);
      }
      return Ok(true);
    }

    /** Move the oldest `n` records out of the buffer. */
    method TakeFront(n: nat) returns (batch: seq<Record>)
      requires Valid() && n <= |buffer|
      modifies this`buffer, this`bufferBytes
      ensures Valid()
      ensures batch == old(buffer)[..n] && buffer == old(buffer)[n..]
    {
      batch := [];
      for i := 0 to n
        invariant Valid()
        invariant batch == old(buffer)[..i] && buffer == old(buffer)[i..]
      {
        var r := buffer[0];
        buffer := buffer[1..];
        bufferBytes := bufferBytes - r.Size();
        batch := batch + [r];
      }
    }

    method Tick(now: u64) returns (a: Action)
      requires Valid()
      modifies this
      ensures Valid()
      ensures (Model(), a) == TickStep(cfg, old(Model()), now)
    {
      if halt.Some? {
        return Halted(halt.value);
      }
      if inFlight.Some? {
        return Idle(None);
      }
      if now < nextAttempt {
        return Idle(Some(nextAttempt));
      }
      var sizeReady := |buffer| >= cfg.batchSize;
      var timeReady := batchStartedAt.Some? && SatSub(now, batchStartedAt.value) >= cfg.batchInterval && buffer != [];
      if sizeReady || timeReady {
        var n := if cfg.batchSize <= |buffer| then cfg.batchSize else |buffer|;
        var batch := TakeFront(n);
        inFlight := Some(batch);
        batchStartedAt := if buffer == [] then None else Some(now);
        return SendBatch(batch, lastTxId);
      }
      return Idle(if batchStartedAt.None? then None else Some(SatAdd(batchStartedAt.value, cfg.batchInterval)));
    }

    /** Push a batch back to the front, last record first. */
    method PutBack(batch: seq<Record>)
      requires Valid()
      modifies this`buffer, this`bufferBytes
      ensures Valid()
      ensures buffer == batch + old(buffer)
    {
      var i: nat := |batch|;
      while i > 0
        invariant i <= |batch|
        invariant Valid()
        invariant buffer == batch[i..] + old(buffer)
      {
        i := i - 1;
        SumPrepend(batch[i], buffer);
        bufferBytes := bufferBytes + batch[i].Size();
        buffer := [batch[i]] + buffer;
      }
    }

    method OnSend(now: u64, outcome: Outcome) returns (a: SelfAudit)
      requires Valid()
      modifies this
      ensures Valid()
      ensures (Model(), a) == SendStep(cfg, old(Model()), now, outcome)
    {
      hide Sum, NextBackoff, SatAdd;
      var batch := inFlight;
      inFlight := None;
      assert [] + buffer == buffer;
      match outcome {
        case Success(tx) =>
          backoff, nextAttempt, lastTxId := 0, 0, tx;
          a := AttemptOk;
        case Retry(code) =>
          if batch.Some? {
            PutBack(batch.value);
            if batchStartedAt.None? {
              batchStartedAt := Some(now);
            }
          }
          backoff := NextBackoff(cfg, backoff);
          nextAttempt := SatAdd(now, backoff);
          a := AttemptRetry(code);
        case Halt(reason) =>
          if batch.Some? {
            PutBack(batch.value);
          }
          halt := Some(reason);
          a := HaltNotice(reason);
      }
    }

    method MaybeEmitOverflow(now: u64) returns (a: Option<SelfAudit>)
      requires Valid()
      modifies this
      ensures Valid()
      ensures (Model(), a) == ReportStep(cfg, old(Model()), now)
    {
      if dropped == 0 {
        return None;
      }
      var due := lastOverflow.None? || SatSub(now, lastOverflow.value) >= cfg.overflowInterval;
      if !due {
        return None;
      }
      a := Some(Overflow(dropped));
      dropped, lastOverflow := 0, Some(now);
    }
  }

  lemma {:induction false} SumAppend(rs: seq<Record>, r: Record)
    ensures Sum(rs + [r]) == Sum(rs) + r.Size()
  {
    SumConcat(rs, [r]);
    assert [r][1..] == [];
  }

  lemma {:induction false} SumPrepend(r: Record, rs: seq<Record>)
    ensures Sum([r] + rs) == r.Size() + Sum(rs)
  {
    assert ([r] + rs)[1..] == rs;
  }
}
