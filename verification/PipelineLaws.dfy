/** What every run of the audit-export pipeline keeps: no record is duplicated, reordered or lost without being
    counted, memory stays bounded, and retries wait for their backoff. */
module PipelineLaws {
  import opened Arithmetic
  import opened Bytes
  import opened Results
  import opened PipelineSpec

  // ----- order -----

  /** `a` can be had from `b` by leaving elements out. */
  predicate Subsequence(a: seq<Record>, b: seq<Record>)
    decreases |b|
  {
    a == [] || (b != [] &&
      ((a[|a| - 1] == b[|b| - 1] && Subsequence(a[..|a| - 1], b[..|b| - 1])) || Subsequence(a, b[..|b| - 1])))
  }

  lemma {:induction false} SubsequenceAppend(a: seq<Record>, b: seq<Record>, r: Record)
    requires Subsequence(a, b)
    ensures Subsequence(a + [r], b + [r])
  {
    assert (a + [r])[..|a|] == a && (b + [r])[..|b|] == b;
  }

  lemma {:induction false} SubsequenceDrop(p: seq<Record>, q: seq<Record>, t: seq<Record>, b: seq<Record>)
    requires Subsequence(p + q + t, b)
    ensures Subsequence(p + t, b)
    decreases |b|, |q| + |t|
  {
    var a := p + q + t;
    if p + t == [] {
    } else if Subsequence(a, b[..|b| - 1]) {
      SubsequenceDrop(p, q, t, b[..|b| - 1]);
    } else if t != [] {
      var t' := t[..|t| - 1];
      assert a[..|a| - 1] == p + q + t';
      SubsequenceDrop(p, q, t', b[..|b| - 1]);
      assert (p + t)[..|p + t| - 1] == p + t';
    } else if q != [] {
      var q' := q[..|q| - 1];
      assert a[..|a| - 1] == p + q' + t;
      SubsequenceDrop(p, q', t, b[..|b| - 1]);
    } else {
      assert a == p + t;
    }
  }

  lemma {:induction false} SubsequenceLength(a: seq<Record>, b: seq<Record>)
    requires Subsequence(a, b)
    ensures |a| <= |b|
    ensures |a| == |b| ==> a == b
    decreases |b|
  {
    if a != [] {
      if a[|a| - 1] == b[|b| - 1] && Subsequence(a[..|a| - 1], b[..|b| - 1]) {
        SubsequenceLength(a[..|a| - 1], b[..|b| - 1]);
        assert a == a[..|a| - 1] + [a[|a| - 1]] && b == b[..|b| - 1] + [b[|b| - 1]];
      } else {
        SubsequenceLength(a, b[..|b| - 1]);
      }
    }
  }

  // ----- the invariant -----

  /** The records delivered, in flight and waiting, oldest first. */
  function Kept(w: World): seq<Record> {
    w.delivered + w.s.Batch() + w.s.buffer
  }

  predicate Ordered(w: World) {
    Subsequence(Kept(w), w.accepted)
  }

  predicate Conserved(w: World) {
    multiset(w.accepted) == multiset(Kept(w)) + multiset(w.evicted)
  }

  predicate Bounded(cfg: Config, w: World) {
    && EachFits(cfg.bufferBytes, w.s.buffer)
    && EachFits(cfg.bufferBytes, w.s.Batch())
    && |w.s.Batch()| <= cfg.batchSize
    && Sum(w.s.Batch()) + Sum(w.s.buffer) <= cfg.batchSize * cfg.bufferBytes + cfg.bufferBytes
  }

  predicate Timed(w: World) {
    w.s.halt.None? && w.s.buffer != [] ==> w.s.startedAt.Some?
  }

  function Drops(w: World): nat {
    |w.evicted| + w.oversized
  }

  predicate Counted(w: World) {
    && w.s.dropped <= U32_MAX
    && w.reported + w.s.dropped <= Drops(w)
    && (Drops(w) <= U32_MAX ==> w.reported + w.s.dropped == Drops(w))
  }

  predicate Inv(cfg: Config, w: World) {
    Ordered(w) && Conserved(w) && Bounded(cfg, w) && Timed(w) && Counted(w)
  }

  /** The books depend only on what is kept, accepted and evicted. */
  lemma {:induction false} SameBooks(w: World, w': World)
    requires Ordered(w) && Conserved(w)
    requires Kept(w') == Kept(w) && w'.accepted == w.accepted && w'.evicted == w.evicted
    ensures Ordered(w') && Conserved(w')
  {
    hide Kept, Subsequence;
  }

  lemma {:induction false} PushEffect(cfg: Config, w: World, now: u64, r: Record, k: nat)
    requires k == Victims(cfg.bufferBytes, w.s.buffer, r.Size())
    ensures var w' := Step(cfg, w, Event.Push(now, r));
      if !Considered(cfg, w.s, r) then
        Kept(w') == Kept(w) && w'.accepted == w.accepted && w'.evicted == w.evicted
      else
        && w'.evicted == w.evicted + w.s.buffer[..k]
        && (r.Size() > cfg.bufferBytes ==>
              Kept(w') == w.delivered + w.s.Batch() + w.s.buffer[k..] && w'.accepted == w.accepted)
        && (r.Size() <= cfg.bufferBytes ==>
              Kept(w') == w.delivered + w.s.Batch() + w.s.buffer[k..] + [r] && w'.accepted == w.accepted + [r])
  {
    hide Passes, Victims;
  }

  lemma {:induction false} EvictionOrdered(front: seq<Record>, buffer: seq<Record>, accepted: seq<Record>, k: nat)
    requires k <= |buffer| && Subsequence(front + buffer, accepted)
    ensures Subsequence(front + buffer[k..], accepted)
  {
    hide Subsequence;
    assert front + buffer == front + buffer[..k] + buffer[k..];
    SubsequenceDrop(front, buffer[..k], buffer[k..], accepted);
  }

  lemma {:induction false} EvictionConserves(front: seq<Record>, buffer: seq<Record>, evicted: seq<Record>, k: nat)
    requires k <= |buffer|
    ensures multiset(front + buffer) + multiset(evicted)
            == multiset(front + buffer[k..]) + multiset(evicted + buffer[..k])
  {
    assert buffer == buffer[..k] + buffer[k..];
  }

  lemma {:induction false} PushBooks(cfg: Config, w: World, now: u64, r: Record)
    requires Ordered(w) && Conserved(w)
    ensures var w' := Step(cfg, w, Event.Push(now, r)); Ordered(w') && Conserved(w')
  {
    var k := Victims(cfg.bufferBytes, w.s.buffer, r.Size());
    var w' := Step(cfg, w, Event.Push(now, r));
    var front := w.delivered + w.s.Batch();
    PushEffect(cfg, w, now, r, k);
    if !Considered(cfg, w.s, r) {
      SameBooks(w, w');
    } else {
      assert Kept(w) == front + w.s.buffer;
      hide Step, Considered, Victims, Subsequence, Kept;
      EvictionOrdered(front, w.s.buffer, w.accepted, k);
      EvictionConserves(front, w.s.buffer, w.evicted, k);
      SubsequenceAppend(front + w.s.buffer[k..], w.accepted, r);
    }
  }

  lemma {:induction false} PushBounded(cfg: Config, w: World, now: u64, r: Record)
    requires Bounded(cfg, w)
    ensures Bounded(cfg, Step(cfg, w, Event.Push(now, r)))
    ensures PushStep(cfg, w.s, now, r).1 == Ok(true) ==> Sum(PushStep(cfg, w.s, now, r).0.buffer) <= cfg.bufferBytes
  {
    hide Passes, Sum, Victims;
    var cap := cfg.bufferBytes;
    var k := Victims(cap, w.s.buffer, r.Size());
    VictimsAreFewest(cap, w.s.buffer, r.Size());
    SumSplit(w.s.buffer, k);
    SumConcat(w.s.buffer[k..], [r]);
    SumOne(r);
    SumBound(cap, w.s.Batch());
    MulAtMost(|w.s.Batch()|, cfg.batchSize, cap);
  }

  lemma {:induction false} SumOne(r: Record)
    ensures Sum([r]) == r.Size()
  {
    assert [r][1..] == [];
  }

  lemma {:induction false} PushCounted(cfg: Config, w: World, now: u64, r: Record)
    requires Counted(w)
    ensures Counted(Step(cfg, w, Event.Push(now, r)))
  {
    hide Passes, Sum;
  }

  lemma {:induction false} PushKeeps(cfg: Config, w: World, now: u64, r: Record)
    requires Inv(cfg, w)
    ensures Inv(cfg, Step(cfg, w, Event.Push(now, r)))
  {
    PushBooks(cfg, w, now, r);
    PushBounded(cfg, w, now, r);
    PushCounted(cfg, w, now, r);
    PushTimed(cfg, w, now, r);
    hide *;
    assert Inv(cfg, Step(cfg, w, Event.Push(now, r)));
  }

  lemma {:induction false} PushTimed(cfg: Config, w: World, now: u64, r: Record)
    requires Timed(w)
    ensures Timed(Step(cfg, w, Event.Push(now, r)))
  {
    hide Passes, Sum;
  }

  lemma {:induction false} TickBounded(cfg: Config, w: World, now: u64)
    requires Bounded(cfg, w)
    ensures Bounded(cfg, Step(cfg, w, Event.Tick(now)))
  {
    hide Sum;
    if Sends(cfg, w.s, now) {
      SumSplit(w.s.buffer, Cut(cfg, w.s));
      SumNone();
    }
  }

  lemma {:induction false} TickKept(cfg: Config, w: World, now: u64)
    ensures Kept(Step(cfg, w, Event.Tick(now))) == Kept(w)
  {
    if Sends(cfg, w.s, now) {
      var n := Cut(cfg, w.s);
      assert w.s.buffer == w.s.buffer[..n] + w.s.buffer[n..];
    }
  }

  lemma {:induction false} TickKeeps(cfg: Config, w: World, now: u64)
    requires Inv(cfg, w)
    ensures Inv(cfg, Step(cfg, w, Event.Tick(now)))
  {
    TickBounded(cfg, w, now);
    TickKept(cfg, w, now);
    hide Kept, Ordered, Conserved, Bounded;
    SameBooks(w, Step(cfg, w, Event.Tick(now)));
  }

  lemma {:induction false} SumNone()
    ensures Sum([]) == 0
  {
  }

  lemma {:induction false} SendBounded(cfg: Config, w: World, now: u64, o: Outcome)
    requires Bounded(cfg, w)
    ensures Bounded(cfg, Step(cfg, w, Event.Send(now, o)))
  {
    hide Sum;
    SumConcat(w.s.Batch(), w.s.buffer);
    SumNone();
  }

  lemma {:induction false} SendKept(cfg: Config, w: World, now: u64, o: Outcome)
    ensures Kept(Step(cfg, w, Event.Send(now, o))) == Kept(w)
  {
  }

  lemma {:induction false} SendTimed(cfg: Config, w: World, now: u64, o: Outcome)
    requires Timed(w) && Counted(w)
    ensures Timed(Step(cfg, w, Event.Send(now, o))) && Counted(Step(cfg, w, Event.Send(now, o)))
  {
  }

  lemma {:induction false} SendKeeps(cfg: Config, w: World, now: u64, o: Outcome)
    requires Inv(cfg, w)
    ensures Inv(cfg, Step(cfg, w, Event.Send(now, o)))
  {
    SendBounded(cfg, w, now, o);
    SendKept(cfg, w, now, o);
    SendTimed(cfg, w, now, o);
    hide Kept, Ordered, Conserved, Bounded, Timed, Counted;
    SameBooks(w, Step(cfg, w, Event.Send(now, o)));
  }

  lemma {:induction false} ReportTimed(cfg: Config, w: World, now: u64)
    requires Timed(w) && Counted(w)
    ensures Timed(Step(cfg, w, Event.Report(now))) && Counted(Step(cfg, w, Event.Report(now)))
  {
  }

  lemma {:induction false} ReportKeeps(cfg: Config, w: World, now: u64)
    requires Inv(cfg, w)
    ensures Inv(cfg, Step(cfg, w, Event.Report(now)))
  {
    var w' := Step(cfg, w, Event.Report(now));
    assert w'.s.buffer == w.s.buffer && w'.s.inFlight == w.s.inFlight && w'.delivered == w.delivered
        && w'.accepted == w.accepted && w'.evicted == w.evicted;
    ReportTimed(cfg, w, now);
    hide Step, Ordered, Conserved, Timed, Counted, Sum;
    assert Kept(w') == Kept(w);
    SameBooks(w, w');
  }

  lemma {:induction false} StepKeeps(cfg: Config, w: World, e: Event)
    requires Inv(cfg, w)
    ensures Inv(cfg, Step(cfg, w, e))
  {
    match e
    case Push(now, r) => PushKeeps(cfg, w, now, r);
    case Tick(now) => TickKeeps(cfg, w, now);
    case Send(now, o) => SendKeeps(cfg, w, now, o);
    case Report(now) => ReportKeeps(cfg, w, now);
  }

  lemma {:induction false} RunFrom(cfg: Config, w: World, es: seq<Event>)
    requires Inv(cfg, w)
    ensures Inv(cfg, Run(cfg, w, es))
    decreases |es|
  {
    hide Inv, Step;
    if es != [] {
      StepKeeps(cfg, w, es[0]);
      RunFrom(cfg, Step(cfg, w, es[0]), es[1..]);
    }
  }

  /** Every run: what was delivered, is in flight and is waiting is the accepted stream with only evicted records
      missing, in order and without duplicates; memory never exceeds one buffer plus one batch of largest records;
      and the reported and unreported drops add up until the 32-bit tally sticks. */
  lemma {:induction false} EveryRun(cfg: Config, lastTxId: u64, es: seq<Event>)
    ensures Inv(cfg, Run(cfg, Start(lastTxId), es))
  {
    RunFrom(cfg, Start(lastTxId), es);
  }

  /** A run that evicted nothing has lost nothing: the accepted stream is still there in full. */
  lemma {:induction false} NothingEvictedNothingLost(cfg: Config, lastTxId: u64, es: seq<Event>)
    ensures var w := Run(cfg, Start(lastTxId), es); w.evicted == [] <==> Kept(w) == w.accepted
  {
    EveryRun(cfg, lastTxId, es);
    var w := Run(cfg, Start(lastTxId), es);
    hide Run, Step, Start, Subsequence, Kept, Bounded;
    SubsequenceLength(Kept(w), w.accepted);
    assert |multiset(w.accepted)| == |multiset(Kept(w))| + |multiset(w.evicted)|;
  }

  // ----- backoff -----

  /** Retries since the last success. */
  function Streak(k: nat, es: seq<Event>): nat
    decreases |es|
  {
    if es == [] then k
    else
      var k' :=
        if es[0].Send? && es[0].outcome.Success? then 0
        else if es[0].Send? && es[0].outcome.Retry? then k + 1
        else k;
      Streak(k', es[1..])
  }

  /** The initial delay doubled once for every retry after the first, up to the cap. */
  function Delay(cfg: Config, retries: nat): nat {
    if retries == 0 then 0 else Min(cfg.backoffInitial * Pow2(retries - 1), cfg.backoffCap)
  }

  lemma {:induction false} DelayNext(cfg: Config, k: nat)
    requires cfg.backoffInitial <= cfg.backoffCap
    ensures Delay(cfg, k) <= U64_MAX
    ensures NextBackoff(cfg, Delay(cfg, k)) == Delay(cfg, k + 1)
  {
    if k == 0 {
      assert Pow2(0) == 1;
    } else {
      var a := cfg.backoffInitial;
      assert a * Pow2(k) == 2 * (a * Pow2(k - 1)) by {
        assert Pow2(k) == 2 * Pow2(k - 1);
      }
      if cfg.backoffInitial == 0 {
      } else {
        PowGrows(a, k - 1);
      }
    }
  }

  lemma {:induction false} PowGrows(a: nat, k: nat)
    requires a >= 1
    ensures a * Pow2(k) >= 1
  {
    MulAtMost(1, Pow2(k), a);
  }

  lemma {:induction false} BackoffFrom(cfg: Config, w: World, k: nat, es: seq<Event>)
    requires cfg.backoffInitial <= cfg.backoffCap
    requires w.s.backoff == Delay(cfg, k)
    ensures Run(cfg, w, es).s.backoff == Delay(cfg, Streak(k, es))
    decreases |es|
  {
    if es != [] {
      DelayNext(cfg, k);
      BackoffStep(cfg, w, k, es[0]);
      BackoffFrom(cfg, Step(cfg, w, es[0]), Streak(k, [es[0]]), es[1..]);
    }
  }

  lemma {:induction false} BackoffStep(cfg: Config, w: World, k: nat, e: Event)
    requires cfg.backoffInitial <= cfg.backoffCap
    requires w.s.backoff == Delay(cfg, k)
    ensures Step(cfg, w, e).s.backoff == Delay(cfg, Streak(k, [e]))
  {
    DelayNext(cfg, k);
    hide Delay, Sum, Passes, NextBackoff;
    assert [e][1..] == [];
    assert Delay(cfg, 0) == 0 by {
      NoDelay(cfg);
    }
  }

  lemma {:induction false} NoDelay(cfg: Config)
    ensures Delay(cfg, 0) == 0
  {
  }

  ghost predicate BackoffLaw(cfg: Config, lastTxId: u64) {
    forall es :: Run(cfg, Start(lastTxId), es).s.backoff == Delay(cfg, Streak(0, es))
  }

  /** The delay is the capped doubling on every run exactly when the initial delay is within the cap: the first
      retry does not look at the cap. */
  lemma {:induction false} BackoffLawIff(cfg: Config, lastTxId: u64)
    ensures BackoffLaw(cfg, lastTxId) <==> cfg.backoffInitial <= cfg.backoffCap
  {
    if cfg.backoffInitial <= cfg.backoffCap {
      forall es ensures Run(cfg, Start(lastTxId), es).s.backoff == Delay(cfg, Streak(0, es)) {
        BackoffFrom(cfg, Start(lastTxId), 0, es);
      }
    } else {
      var es := [Event.Send(0, Retry(1))];
      assert es[1..] == [];
      assert Run(cfg, Start(lastTxId), es) == Step(cfg, Start(lastTxId), es[0]);
      assert Streak(0, es) == 1;
      assert Pow2(0) == 1;
      assert Run(cfg, Start(lastTxId), es).s.backoff != Delay(cfg, Streak(0, es));
    }
  }

  predicate Quiet(es: seq<Event>) {
    forall i :: 0 <= i < |es| ==> !es[i].Send?
  }

  lemma {:induction false} QuietKeepsDeadline(cfg: Config, w: World, es: seq<Event>)
    requires Quiet(es)
    ensures Run(cfg, w, es).s.nextAttempt == w.s.nextAttempt
    decreases |es|
  {
    if es != [] {
      assert Quiet(es[1..]);
      QuietKeepsDeadline(cfg, Step(cfg, w, es[0]), es[1..]);
      hide Sum, Passes, Run;
      assert Step(cfg, w, es[0]).s.nextAttempt == w.s.nextAttempt;
    }
  }

  /** After a retry at time `t`, whatever is pushed, ticked or reported before the next outcome, no batch goes out
      until the delay owed for that many consecutive retries has passed, a tick before then names that time, and a full
      batch goes out from then on. */
  lemma {:induction false} RetryWaits(cfg: Config, lastTxId: u64, es: seq<Event>, t: u64, code: int,
                                      quiet: seq<Event>, now: u64)
    requires cfg.backoffInitial <= cfg.backoffCap
    requires Quiet(quiet)
    ensures Delay(cfg, Streak(0, es) + 1) <= U64_MAX
    ensures var s := Run(cfg, Start(lastTxId), es + [Event.Send(t, Retry(code))] + quiet).s;
      var due := SatAdd(t, Delay(cfg, Streak(0, es) + 1));
      && (TickStep(cfg, s, now).1.SendBatch? ==> now >= due)
      && (s.halt.None? && s.inFlight.None? && now < due ==> TickStep(cfg, s, now).1 == Idle(Some(due)))
      && (s.halt.None? && s.inFlight.None? && |s.buffer| >= cfg.batchSize ==>
            (TickStep(cfg, s, now).1.SendBatch? <==> now >= due))
  {
    var e := Event.Send(t, Retry(code));
    var w := Run(cfg, Start(lastTxId), es);
    BackoffFrom(cfg, Start(lastTxId), 0, es);
    DelayNext(cfg, Streak(0, es));
    DelayNext(cfg, Streak(0, es) + 1);
    RunConcat(cfg, Start(lastTxId), es + [e], quiet);
    RunConcat(cfg, Start(lastTxId), es, [e]);
    assert [e][1..] == [];
    assert Run(cfg, w, [e]) == Step(cfg, w, e);
    QuietKeepsDeadline(cfg, Step(cfg, w, e), quiet);
    hide Run, Delay, NextBackoff, Streak;
  }

  lemma {:induction false} StepNoWait(cfg: Config, w: World, k: nat, e: Event)
    requires k == 0 ==> w.s.nextAttempt == 0
    ensures Streak(k, [e]) == 0 ==> Step(cfg, w, e).s.nextAttempt == 0
  {
    assert [e][1..] == [];
    assert Streak(0, []) == 0 && Streak(k, []) == k && Streak(k + 1, []) == k + 1;
    hide Sum, Passes;
  }

  lemma {:induction false} StreakUnfold(k: nat, es: seq<Event>)
    requires es != []
    ensures Streak(k, es) == Streak(Streak(k, [es[0]]), es[1..])
  {
    assert [es[0]][1..] == [];
  }

  lemma {:induction false} NoWaitFrom(cfg: Config, w: World, k: nat, es: seq<Event>)
    requires k == 0 ==> w.s.nextAttempt == 0
    ensures Streak(k, es) == 0 ==> Run(cfg, w, es).s.nextAttempt == 0
    decreases |es|
  {
    if es != [] {
      StepNoWait(cfg, w, k, es[0]);
      StreakUnfold(k, es);
      hide Step, Streak;
      NoWaitFrom(cfg, Step(cfg, w, es[0]), Streak(k, [es[0]]), es[1..]);
    }
  }

  /** A pipeline that has not failed since it began or last succeeded puts nothing off. */
  lemma {:induction false} NoRetryNoWait(cfg: Config, lastTxId: u64, es: seq<Event>)
    requires Streak(0, es) == 0
    ensures Run(cfg, Start(lastTxId), es).s.nextAttempt == 0
  {
    NoWaitFrom(cfg, Start(lastTxId), 0, es);
  }

  // ----- batches -----

  /** A batch is the oldest records, at least one and at most a full batch of them, and none are left over but
      those behind it. */
  lemma {:induction false} BatchIsOldest(cfg: Config, s: State, now: u64)
    requires cfg.batchSize >= 1
    requires TickStep(cfg, s, now).1.SendBatch?
    ensures var (s', a) := TickStep(cfg, s, now);
      && 1 <= |a.records| <= cfg.batchSize
      && (|a.records| < cfg.batchSize ==> s'.buffer == [])
      && a.records + s'.buffer == s.buffer
      && s'.inFlight == Some(a.records)
      && a.proveSince == s.lastTxId
  {
    var n := Cut(cfg, s);
    assert s.buffer == s.buffer[..n] + s.buffer[n..];
  }

  /** An advertised wake-up time is honest: every tick before it does nothing. */
  lemma {:induction false} WakeIsHonest(cfg: Config, s: State, now: u64, t: u64)
    requires var a := TickStep(cfg, s, now).1; a.Idle? && a.wakeAt.Some? && t < a.wakeAt.value
    ensures TickStep(cfg, s, t).0 == s && TickStep(cfg, s, t).1.Idle?
  {
    if s.nextAttempt <= t {
      assert !Sends(cfg, s, t);
    }
  }

  /** A reachable pipeline that is not halted and has nothing in flight sends as soon as the retry deadline and the
      batch deadline have both passed. */
  lemma {:induction false} TimerRuns(cfg: Config, lastTxId: u64, es: seq<Event>, now: u64)
    ensures var s := Run(cfg, Start(lastTxId), es).s;
      s.halt.None? && s.inFlight.None? && s.buffer != [] ==>
        && s.startedAt.Some?
        && (s.nextAttempt <= now && s.startedAt.value + cfg.batchInterval <= now ==> TickStep(cfg, s, now).1.SendBatch?)
  {
    EveryRun(cfg, lastTxId, es);
    hide Run, Sum, Subsequence, Conserved, Bounded;
  }

  /** The event starts the wait for a batch: a record is accepted while none waits, a batch leaves records behind, or a
      batch comes back while none waits. */
  predicate StartsWait(cfg: Config, w: World, e: Event) {
    match e
    case Push(now, r) => w.s.startedAt.None? && PushStep(cfg, w.s, now, r).1 == Ok(true)
    case Tick(now) => TickStep(cfg, w.s, now).1.SendBatch? && |w.s.buffer| > cfg.batchSize
    case Send(_, o) => w.s.startedAt.None? && w.s.inFlight.Some? && o.Retry?
    case Report(_) => false
  }

  /** When a batch waits: the wait starts with an event that starts it, ends with a tick that takes everything, and is
      otherwise left alone. */
  lemma {:induction false} TimerLaw(cfg: Config, w: World, e: Event)
    ensures var t := Step(cfg, w, e).s.startedAt;
      if StartsWait(cfg, w, e) then t == Some(e.now)
      else if e.Tick? && TickStep(cfg, w.s, e.now).1.SendBatch? then t == None
      else t == w.s.startedAt
  {
    hide Sum, Passes;
  }

  /** While a batch is in flight nothing else is sent or planned, and a halt is told first. */
  lemma {:induction false} OneInFlight(cfg: Config, s: State, now: u64)
    ensures s.halt.Some? ==> TickStep(cfg, s, now) == (s, Halted(s.halt.value))
    ensures s.halt.None? && s.inFlight.Some? ==> TickStep(cfg, s, now) == (s, Idle(None))
  {
  }

  /** What is told of an outcome: success, the code of a retry, or the reason of a halt, which every tick and every push
      then names. */
  lemma {:induction false} OutcomeTold(cfg: Config, s: State, now: u64, o: Outcome, t: u64, r: Record)
    ensures var (s', told) := SendStep(cfg, s, now, o);
      && (o.Success? ==> told == AttemptOk && s'.lastTxId == o.newTxId)
      && (o.Retry? ==> told == AttemptRetry(o.code))
      && (o.Halt? ==>
            && told == HaltNotice(o.reason)
            && TickStep(cfg, s', t).1 == Halted(o.reason) && PushStep(cfg, s', t, r) == (s', Err(o.reason)))
  {
  }

  /** No tick of the run sends. */
  predicate Unsent(cfg: Config, w: World, es: seq<Event>)
    decreases |es|
  {
    es != [] ==>
      && (es[0].Tick? ==> !TickStep(cfg, w.s, es[0].now).1.SendBatch?)
      && Unsent(cfg, Step(cfg, w, es[0]), es[1..])
  }

  lemma {:induction false} UnsentKeepsTimer(cfg: Config, w: World, es: seq<Event>)
    requires w.s.startedAt.Some? && Unsent(cfg, w, es)
    ensures Run(cfg, w, es).s.startedAt == w.s.startedAt
    decreases |es|
  {
    if es != [] {
      assert Step(cfg, w, es[0]).s.startedAt == w.s.startedAt by {
        hide Sum, Passes, Run, Unsent;
      }
      hide Step;
      UnsentKeepsTimer(cfg, Step(cfg, w, es[0]), es[1..]);
    }
  }

  /** A batch waits for its interval and no longer, counted from the event that started the wait: whatever happened
      before that event, and whatever happens after it short of sending, a tick with records, nothing in flight and no
      retry pending sends exactly when a batch is full or the interval since that event has passed. */
  lemma {:induction false} DeadlineSends(cfg: Config, w: World, e: Event, quiet: seq<Event>, now: u64)
    requires StartsWait(cfg, w, e) && Unsent(cfg, Step(cfg, w, e), quiet)
    ensures var s := Run(cfg, w, [e] + quiet).s;
      s.halt.None? && s.inFlight.None? && s.nextAttempt <= now && s.buffer != [] ==>
        && (TickStep(cfg, s, now).1.SendBatch? <==>
              |s.buffer| >= cfg.batchSize || cfg.batchInterval == 0 || now >= e.now + cfg.batchInterval)
        && (TickStep(cfg, s, now).1.SendBatch? ||
              TickStep(cfg, s, now).1 == Idle(Some(SatAdd(e.now, cfg.batchInterval))))
  {
    var w' := Step(cfg, w, e);
    assert w'.s.startedAt == Some(e.now) by {
      hide Sum, Passes, Run, Unsent;
    }
    UnsentKeepsTimer(cfg, w', quiet);
    assert ([e] + quiet)[1..] == quiet;
    assert Run(cfg, w, [e] + quiet) == Run(cfg, w', quiet);
    hide Run, Unsent, Step, Sum;
  }

  /** A tick, and the acknowledgement of what it sends, with a transaction of the server's choice. */
  datatype Answered = Answered(at: u64, tx: u64)

  /** Tick and acknowledge, round after round. */
  function Drain(rounds: seq<Answered>): seq<Event> {
    if rounds == [] then []
    else [Event.Tick(rounds[0].at), Event.Send(rounds[0].at, Success(rounds[0].tx))] + Drain(rounds[1..])
  }

  predicate Spaced(rounds: seq<Answered>, gap: nat) {
    forall i, j :: 0 <= i < j < |rounds| ==> rounds[i].at + gap <= rounds[j].at
  }

  /** Nothing halted or in flight, and every deadline is over at time `t`. */
  predicate Ready(cfg: Config, w: World, t: u64) {
    && w.s.halt.None? && w.s.inFlight.None? && w.s.nextAttempt <= t
    && (w.s.buffer != [] ==> w.s.startedAt.Some? && w.s.startedAt.value + cfg.batchInterval <= t)
  }

  function Round(cfg: Config, w: World, r: Answered): World {
    Step(cfg, Step(cfg, w, Event.Tick(r.at)), Event.Send(r.at, Success(r.tx)))
  }

  lemma {:induction false} RoundDelivers(cfg: Config, w: World, r: Answered)
    requires cfg.batchSize >= 1 && Ready(cfg, w, r.at)
    ensures var w' := Round(cfg, w, r);
      && w'.s.lastTxId == r.tx
      && w'.delivered + w'.s.buffer == w.delivered + w.s.buffer
      && (w.s.buffer != [] ==> |w'.s.buffer| < |w.s.buffer|)
      && (w.s.buffer == [] ==> w'.s.buffer == [])
      && forall t: u64 :: r.at + cfg.batchInterval <= t ==> Ready(cfg, w', t)
  {
    if w.s.buffer != [] {
      assert Sends(cfg, w.s, r.at);
      BatchIsOldest(cfg, w.s, r.at);
    }
  }

  lemma {:induction false} DrainUnfold(cfg: Config, w: World, rounds: seq<Answered>)
    requires rounds != []
    ensures Run(cfg, w, Drain(rounds)) == Run(cfg, Round(cfg, w, rounds[0]), Drain(rounds[1..]))
  {
    hide Step;
    var es := Drain(rounds);
    var r := rounds[0];
    assert es[1..] == [Event.Send(r.at, Success(r.tx))] + Drain(rounds[1..]);
    assert es[1..][1..] == Drain(rounds[1..]);
  }

  lemma {:induction false} NothingDrained(cfg: Config, w: World)
    ensures Run(cfg, w, Drain([])) == w
  {
  }

  /** With the server answering, whatever transactions it names, a healthy pipeline delivers everything it holds, in
      order: one round a record is always enough. */
  lemma {:induction false} DrainDelivers(cfg: Config, w: World, rounds: seq<Answered>)
    requires cfg.batchSize >= 1
    requires rounds != [] ==> Ready(cfg, w, rounds[0].at)
    requires Spaced(rounds, cfg.batchInterval)
    requires |w.s.buffer| <= |rounds|
    ensures Run(cfg, w, Drain(rounds)).delivered == w.delivered + w.s.buffer
    ensures Run(cfg, w, Drain(rounds)).s.buffer == []
    ensures rounds != [] ==> Run(cfg, w, Drain(rounds)).s.lastTxId == rounds[|rounds| - 1].tx
    decreases |rounds|
  {
    if rounds != [] {
      var w' := Round(cfg, w, rounds[0]);
      RoundDelivers(cfg, w, rounds[0]);
      DrainUnfold(cfg, w, rounds);
      hide Round, Run, Drain, Ready;
      assert |rounds| > 1 ==> rounds[1..][0] == rounds[1];
      DrainDelivers(cfg, w', rounds[1..]);
      if |rounds| == 1 {
        NothingDrained(cfg, w');
      } else {
        assert rounds[1..][|rounds| - 2] == rounds[|rounds| - 1];
      }
    }
  }

  // ----- who gets in, what is proved, and when it stops -----

  /** A push is accepted exactly when the pipeline is running, the action is wanted and not excluded, and the record
      fits an empty buffer; otherwise it says whether the pipeline is halted. */
  lemma {:induction false} PushAcceptsIff(cfg: Config, s: State, now: u64, r: Record)
    ensures var answer := PushStep(cfg, s, now, r).1;
      && (answer == Ok(true) <==>
            && s.halt.None?
            && (cfg.includeActions == [] || r.action in cfg.includeActions) && r.action !in cfg.excludeActions
            && r.Size() <= cfg.bufferBytes)
      && (answer.Err? <==> s.halt.Some?)
  {
  }

  predicate Admitted(cfg: Config, rs: seq<Record>) {
    forall i :: 0 <= i < |rs| ==>
      && (cfg.includeActions != [] ==> rs[i].action in cfg.includeActions)
      && rs[i].action !in cfg.excludeActions
      && rs[i].Size() <= cfg.bufferBytes
  }

  /** In every run, only records that pass the filter and fit are accepted. */
  lemma {:induction false} OnlyAdmitted(cfg: Config, w: World, es: seq<Event>)
    requires Admitted(cfg, w.accepted)
    ensures Admitted(cfg, Run(cfg, w, es).accepted)
    decreases |es|
  {
    if es != [] {
      var w' := Step(cfg, w, es[0]);
      assert Admitted(cfg, w'.accepted) by {
        if es[0].Push? {
          PushAcceptsIff(cfg, w.s, es[0].now, es[0].record);
        }
        hide PushStep;
      }
      hide Step;
      OnlyAdmitted(cfg, w', es[1..]);
    }
  }

  /** The transaction of the last acknowledged batch. */
  function LastTransaction(tx: u64, es: seq<Event>): u64
    decreases |es|
  {
    if es == [] then tx
    else LastTransaction(if es[0].Send? && es[0].outcome.Success? then es[0].outcome.newTxId else tx, es[1..])
  }

  /** In every run, a batch asks for a proof since the last acknowledged transaction. */
  lemma {:induction false} ProvesSinceLast(cfg: Config, w: World, es: seq<Event>, now: u64)
    ensures var s := Run(cfg, w, es).s;
      && s.lastTxId == LastTransaction(w.s.lastTxId, es)
      && var a := TickStep(cfg, s, now).1; a.SendBatch? ==> a.proveSince == LastTransaction(w.s.lastTxId, es)
    decreases |es|
  {
    if es != [] {
      ProvesSinceLast(cfg, Step(cfg, w, es[0]), es[1..], now);
      hide TickStep, Sum, Passes;
      assert Step(cfg, w, es[0]).s.lastTxId == LastTransaction(w.s.lastTxId, [es[0]]) by {
        assert [es[0]][1..] == [];
        TickKeepsTx(cfg, w.s, if es[0].Tick? then es[0].now else 0);
      }
    }
  }

  lemma {:induction false} TickKeepsTx(cfg: Config, s: State, now: u64)
    ensures TickStep(cfg, s, now).0.lastTxId == s.lastTxId
  {
  }

  /** The same except for what a halted pipeline may still change. */
  predicate Frozen(w: World, w': World) {
    && w'.s.halt.Some? && w'.s.inFlight.None? && w'.s.buffer == w.s.buffer
    && w'.accepted == w.accepted && w'.delivered == w.delivered && w'.evicted == w.evicted
  }

  lemma {:induction false} HaltedStep(cfg: Config, w: World, e: Event)
    requires w.s.halt.Some? && w.s.inFlight.None?
    ensures Frozen(w, Step(cfg, w, e))
  {
    assert [] + w.s.buffer == w.s.buffer && w.delivered + [] == w.delivered && w.evicted + [] == w.evicted;
  }

  lemma {:induction false} HaltedStays(cfg: Config, w: World, es: seq<Event>)
    requires w.s.halt.Some? && w.s.inFlight.None?
    ensures Frozen(w, Run(cfg, w, es))
    decreases |es|
  {
    if es != [] {
      HaltedStep(cfg, w, es[0]);
      hide Step;
      HaltedStays(cfg, Step(cfg, w, es[0]), es[1..]);
    }
  }

  /** A halt loses nothing and is final. Whatever ran before it and whatever comes after, nothing more is accepted,
      evicted, sent or delivered, and everything accepted that was neither delivered nor evicted by then, the batch in
      flight first, stays in the buffer in order. */
  lemma {:induction false} HaltFreezes(cfg: Config, w: World, es: seq<Event>, now: u64, reason: HaltReason,
                                       later: seq<Event>, t: u64)
    ensures var w1 := Run(cfg, w, es);
            var w2 := Run(cfg, w, es + [Send(now, Halt(reason))] + later);
            && w2.accepted == w1.accepted && w2.evicted == w1.evicted && w2.delivered == w1.delivered
            && w2.s.inFlight.None? && w2.s.buffer == w1.s.Batch() + w1.s.buffer
            && TickStep(cfg, w2.s, t).1.Halted?
  {
    var w1 := Run(cfg, w, es);
    var halt := [Send(now, Halt(reason))];
    RunConcat(cfg, w, es, halt);
    RunConcat(cfg, w, es + halt, later);
    assert halt[1..] == [];
    var wh := Step(cfg, w1, halt[0]);
    assert Run(cfg, w1, halt) == wh;
    assert w1.delivered + [] == w1.delivered && w1.evicted + [] == w1.evicted;
    HaltedStays(cfg, wh, later);
  }

  /** When overflow was reported. */
  function ReportTimes(cfg: Config, w: World, es: seq<Event>, past: seq<u64>): seq<u64>
    decreases |es|
  {
    if es == [] then past
    else
      var reported := es[0].Report? && OverflowDue(cfg, w.s, es[0].now);
      ReportTimes(cfg, Step(cfg, w, es[0]), es[1..], if reported then past + [es[0].now] else past)
  }

  /** The last report is remembered, and reports keep their distance. */
  predicate Throttled(cfg: Config, s: State, past: seq<u64>) {
    && (s.lastOverflow.None? <==> past == [])
    && (past != [] ==> s.lastOverflow == Some(past[|past| - 1]))
    && forall i :: 0 < i < |past| ==> past[i] >= past[i - 1] + cfg.overflowInterval
  }

  /** In every run, however the clock jumps, overflow reports are at least the interval apart. */
  lemma {:induction false} ReportsAreThrottled(cfg: Config, w: World, es: seq<Event>, past: seq<u64>)
    requires cfg.overflowInterval > 0 && Throttled(cfg, w.s, past)
    ensures Throttled(cfg, Run(cfg, w, es).s, ReportTimes(cfg, w, es, past))
    decreases |es|
  {
    if es != [] {
      var w' := Step(cfg, w, es[0]);
      var reported := es[0].Report? && OverflowDue(cfg, w.s, es[0].now);
      var past' := if reported then past + [es[0].now] else past;
      assert Throttled(cfg, w'.s, past') by {
        hide Sum, Passes;
      }
      hide Step, Throttled;
      ReportsAreThrottled(cfg, w', es[1..], past');
    }
  }

  /** In every run a report is made exactly when drops are pending and no report was made within the interval, and it
      names all the pending drops. */
  lemma {:induction false} ReportedIff(cfg: Config, lastTxId: u64, es: seq<Event>, now: u64)
    requires cfg.overflowInterval > 0
    ensures var s := Run(cfg, Start(lastTxId), es).s;
      var past := ReportTimes(cfg, Start(lastTxId), es, []);
      var (s', told) := ReportStep(cfg, s, now);
      && (told.Some? <==> s.dropped > 0 && (past == [] || now >= past[|past| - 1] + cfg.overflowInterval))
      && (told.Some? ==> told == Some(Overflow(s.dropped)) && s'.dropped == 0)
      && (told.None? ==> s' == s)
  {
    ReportsAreThrottled(cfg, Start(lastTxId), es, []);
    hide Run, ReportTimes;
  }
}
