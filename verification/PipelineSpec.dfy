/** The audit-export pipeline as a state machine over pushes, ticks, send outcomes and overflow reports. */
module PipelineSpec {
  import opened Arithmetic
  import opened Bytes
  import opened Results

  datatype Record = Record(action: seq<byte>, key: seq<byte>, value: seq<byte>) {
    function Size(): nat {
      |action| + |key| + |value|
    }
  }

  datatype Config = Config(
    batchSize: nat,
    batchInterval: u64,
    bufferBytes: nat,
    backoffInitial: u64,
    backoffCap: u64,
    overflowInterval: u64,
    includeActions: seq<seq<byte>>,
    excludeActions: seq<seq<byte>>)

  datatype HaltReason = Unauthenticated | ProofFailure | RollbackSuspected | DecodeFailure

  datatype Outcome = Success(newTxId: u64) | Retry(code: int) | Halt(reason: HaltReason)

  datatype Action =
    | Idle(wakeAt: Option<u64>)
    | SendBatch(records: seq<Record>, proveSince: u64)
    | Halted(reason: HaltReason)

  datatype SelfAudit = Overflow(dropped: nat) | AttemptOk | AttemptRetry(code: int) | HaltNotice(reason: HaltReason)

  datatype State = State(
    buffer: seq<Record>,
    inFlight: Option<seq<Record>>,
    lastTxId: u64,
    startedAt: Option<u64>,
    backoff: u64,
    nextAttempt: u64,
    halt: Option<HaltReason>,
    dropped: nat,
    lastOverflow: Option<u64>)
  {
    function Batch(): seq<Record> {
      if inFlight.Some? then inFlight.value else []
    }
  }

  function Init(lastTxId: u64): State {
    State([], None, lastTxId, None, 0, 0, None, 0, None)
  }

  /** Bytes a list of records accounts for. */
  function Sum(rs: seq<Record>): nat {
    if rs == [] then 0 else rs[0].Size() + Sum(rs[1..])
  }

  /** A 32-bit tally that sticks at its maximum. */
  function Tally(dropped: nat, more: nat): nat {
    Min(dropped + more, U32_MAX)
  }

  predicate Passes(cfg: Config, r: Record) {
    (cfg.includeActions == [] || r.action in cfg.includeActions) && r.action !in cfg.excludeActions
  }

  /** How many of the oldest records go to make room for `need` bytes. */
  function Victims(cap: nat, buffer: seq<Record>, need: nat): (k: nat)
    ensures k <= |buffer|
  {
    if Sum(buffer) + need <= cap || buffer == [] then 0 else 1 + Victims(cap, buffer[1..], need)
  }

  function PushStep(cfg: Config, s: State, now: u64, r: Record): (State, Result<bool, HaltReason>) {
    if s.halt.Some? then (s, Err(s.halt.value))
    else if !Passes(cfg, r) then (s, Ok(false))
    else
      var k := Victims(cfg.bufferBytes, s.buffer, r.Size());
      if r.Size() > cfg.bufferBytes then (s.(buffer := s.buffer[k..], dropped := Tally(s.dropped, k + 1)), Ok(false))
      else (s.(buffer := s.buffer[k..] + [r], dropped := Tally(s.dropped, k),
               startedAt := if s.startedAt.None? then Some(now) else s.startedAt), Ok(true))
  }

  predicate TimeReady(cfg: Config, s: State, now: u64) {
    s.startedAt.Some? && SatSub(now, s.startedAt.value) >= cfg.batchInterval && s.buffer != []
  }

  predicate Sends(cfg: Config, s: State, now: u64) {
    && s.halt.None? && s.inFlight.None? && s.nextAttempt <= now
    && (|s.buffer| >= cfg.batchSize || TimeReady(cfg, s, now))
  }

  /** How many records the next batch holds. */
  function Cut(cfg: Config, s: State): (n: nat)
    ensures n <= |s.buffer|
  {
    Min(cfg.batchSize, |s.buffer|)
  }

  /** The state after the oldest records have gone into flight. */
  function Ship(cfg: Config, s: State, now: u64): State {
    var n := Cut(cfg, s);
    s.(buffer := s.buffer[n..], inFlight := Some(s.buffer[..n]),
       startedAt := if n == |s.buffer| then None else Some(now))
  }

  function TickStep(cfg: Config, s: State, now: u64): (State, Action) {
    if s.halt.Some? then (s, Halted(s.halt.value))
    else if s.inFlight.Some? then (s, Idle(None))
    else if now < s.nextAttempt then (s, Idle(Some(s.nextAttempt)))
    else if Sends(cfg, s, now) then (Ship(cfg, s, now), SendBatch(s.buffer[..Cut(cfg, s)], s.lastTxId))
    else (s, Idle(if s.startedAt.None? then None else Some(SatAdd(s.startedAt.value, cfg.batchInterval))))
  }

  /** Doubling from the initial delay up to the cap. */
  function NextBackoff(cfg: Config, b: u64): u64 {
    if b == 0 then cfg.backoffInitial else Min(SatAdd(b, b), cfg.backoffCap)
  }

  /** The batch in flight goes back to the front, so order is kept. */
  function Requeue(s: State): State {
    s.(buffer := s.Batch() + s.buffer, inFlight := None)
  }

  function SendStep(cfg: Config, s: State, now: u64, o: Outcome): (State, SelfAudit) {
    match o
    case Success(tx) => (s.(inFlight := None, backoff := 0, nextAttempt := 0, lastTxId := tx), AttemptOk)
    case Retry(code) =>
      var b := NextBackoff(cfg, s.backoff);
      (Requeue(s).(startedAt := if s.inFlight.Some? && s.startedAt.None? then Some(now) else s.startedAt,
                   backoff := b, nextAttempt := SatAdd(now, b)), AttemptRetry(code))
    case Halt(reason) => (Requeue(s).(halt := Some(reason)), HaltNotice(reason))
  }

  predicate OverflowDue(cfg: Config, s: State, now: u64) {
    s.dropped != 0 && (s.lastOverflow.None? || SatSub(now, s.lastOverflow.value) >= cfg.overflowInterval)
  }

  function ReportStep(cfg: Config, s: State, now: u64): (State, Option<SelfAudit>) {
    if OverflowDue(cfg, s, now) then (s.(dropped := 0, lastOverflow := Some(now)), Some(Overflow(s.dropped)))
    else (s, None)
  }

  // ----- runs -----

  datatype Event = Push(now: u64, record: Record) | Tick(now: u64) | Send(now: u64, outcome: Outcome) | Report(now: u64)

  /** A state with what has happened to it so far: the records accepted, delivered and evicted, how many were
      refused for being larger than the whole buffer, and how many drops have been reported. */
  datatype World = World(
    s: State,
    accepted: seq<Record>,
    delivered: seq<Record>,
    evicted: seq<Record>,
    oversized: nat,
    reported: nat)

  function Start(lastTxId: u64): World {
    World(Init(lastTxId), [], [], [], 0, 0)
  }

  predicate Considered(cfg: Config, s: State, r: Record) {
    s.halt.None? && Passes(cfg, r)
  }

  function Lost(cfg: Config, s: State, r: Record): seq<Record> {
    if Considered(cfg, s, r) then s.buffer[..Victims(cfg.bufferBytes, s.buffer, r.Size())] else []
  }

  function Step(cfg: Config, w: World, e: Event): World {
    match e
    case Push(now, r) =>
      var (s, answer) := PushStep(cfg, w.s, now, r);
      w.(s := s,
         accepted := if answer == Ok(true) then w.accepted + [r] else w.accepted,
         evicted := w.evicted + Lost(cfg, w.s, r),
         oversized := w.oversized + if Considered(cfg, w.s, r) && r.Size() > cfg.bufferBytes then 1 else 0)
    case Tick(now) => w.(s := TickStep(cfg, w.s, now).0)
    case Send(now, o) =>
      w.(s := SendStep(cfg, w.s, now, o).0,
         delivered := if o.Success? then w.delivered + w.s.Batch() else w.delivered)
    case Report(now) =>
      w.(s := ReportStep(cfg, w.s, now).0,
         reported := w.reported + if OverflowDue(cfg, w.s, now) then w.s.dropped else 0)
  }

  function Run(cfg: Config, w: World, es: seq<Event>): World
    decreases |es|
  {
    if es == [] then w else Run(cfg, Step(cfg, w, es[0]), es[1..])
  }

  lemma {:induction false} RunConcat(cfg: Config, w: World, es: seq<Event>, fs: seq<Event>)
    ensures Run(cfg, w, es + fs) == Run(cfg, Run(cfg, w, es), fs)
    decreases |es|
  {
    if es == [] {
      assert es + fs == fs;
    } else {
      assert (es + fs)[1..] == es[1..] + fs;
      RunConcat(cfg, Step(cfg, w, es[0]), es[1..], fs);
    }
  }

  // ----- byte accounting -----

  lemma {:induction false} SumConcat(a: seq<Record>, b: seq<Record>)
    ensures Sum(a + b) == Sum(a) + Sum(b)
  {
    if a == [] {
      assert a + b == b;
    } else {
      assert (a + b)[1..] == a[1..] + b;
      SumConcat(a[1..], b);
    }
  }

  lemma {:induction false} SumSplit(rs: seq<Record>, k: nat)
    requires k <= |rs|
    ensures Sum(rs) == Sum(rs[..k]) + Sum(rs[k..])
  {
    assert rs == rs[..k] + rs[k..];
    SumConcat(rs[..k], rs[k..]);
  }

  predicate EachFits(cap: nat, rs: seq<Record>) {
    forall i :: 0 <= i < |rs| ==> rs[i].Size() <= cap
  }

  lemma {:induction false} SumBound(cap: nat, rs: seq<Record>)
    requires EachFits(cap, rs)
    ensures Sum(rs) <= |rs| * cap
  {
    if rs != [] {
      assert EachFits(cap, rs[1..]);
      SumBound(cap, rs[1..]);
      assert |rs| * cap == |rs[1..]| * cap + cap;
    }
  }

  /** Eviction stops as soon as the record fits, and throws everything out only when nothing less will do. */
  lemma {:induction false} VictimsAreFewest(cap: nat, buffer: seq<Record>, need: nat)
    ensures var k := Victims(cap, buffer, need);
      && (need <= cap ==> Sum(buffer[k..]) + need <= cap)
      && (need > cap ==> k == |buffer|)
      && (forall j :: 0 <= j < k ==> Sum(buffer[j..]) + need > cap)
  {
    var k := Victims(cap, buffer, need);
    if Sum(buffer) + need <= cap || buffer == [] {
      assert buffer[0..] == buffer;
    } else {
      VictimsAreFewest(cap, buffer[1..], need);
      assert buffer[k..] == buffer[1..][k - 1..];
      forall j | 0 <= j < k ensures Sum(buffer[j..]) + need > cap {
        if j == 0 {
          assert buffer[0..] == buffer;
        } else {
          assert buffer[j..] == buffer[1..][j - 1..];
        }
      }
    }
  }
}
