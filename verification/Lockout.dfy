/** The login throttle: after five failed verifications a source is locked out for a minute at a time. */
module Lockout {
  import opened Arithmetic
  import opened Bytes

  const LOCKOUT_THRESHOLD: nat := 5
  const LOCKOUT_DURATION_SECS: u64 := 60

  datatype Source = Tty | ZenohPeer(fingerprint: string)

  datatype Guard = Guard(failures: nat, lockedUntil: u64)

  /** Sources with a record; one that never failed, or that logged in since, has none. */
  type Guards = map<Source, Guard>

  function GuardOf(m: Guards, src: Source): Guard {
    if src in m then m[src] else Guard(0, 0)
  }

  predicate Locked(m: Guards, src: Source, now: u64) {
    now < GuardOf(m, src).lockedUntil
  }

  function Bump(failures: nat): nat {
    if failures >= U32_MAX then U32_MAX else failures + 1
  }

  predicate Tips(m: Guards, src: Source, now: u64) {
    !Locked(m, src, now) && Bump(GuardOf(m, src).failures) >= LOCKOUT_THRESHOLD
  }

  function Failed(m: Guards, src: Source, now: u64): Guards {
    var g := GuardOf(m, src);
    m[src := Guard(Bump(g.failures), if Tips(m, src, now) then SatAdd(now, LOCKOUT_DURATION_SECS) else g.lockedUntil)]
  }

  function Succeeded(m: Guards, src: Source): Guards {
    m - {src}
  }

  // ----- login rounds -----

  /** How a round at the prompt went: a prompt was left, input failed, or the password was checked. */
  datatype Attempt = Abort | Eof | ReadFault | Wrong | Right

  datatype Round = Round(source: Source, now: u64, attempt: Attempt)

  /** What the round recorded. */
  datatype Effect = Refused | Nothing | Failure | Cleared

  function EffectOf(m: Guards, r: Round): Effect {
    if Locked(m, r.source, r.now) then Refused
    else if r.attempt.Wrong? then Failure
    else if r.attempt.Right? then Cleared
    else Nothing
  }

  function Step(m: Guards, r: Round): Guards {
    match EffectOf(m, r)
    case Failure => Failed(m, r.source, r.now)
    case Cleared => Succeeded(m, r.source)
    case _ => m
  }

  function Run(m: Guards, rs: seq<Round>): Guards
    decreases |rs|
  {
    if rs == [] then m else Run(Step(m, rs[0]), rs[1..])
  }

  // ----- one source does not affect another -----

  function Only(rs: seq<Round>, src: Source): seq<Round> {
    if rs == [] then []
    else if rs[0].source == src then [rs[0]] + Only(rs[1..], src)
    else Only(rs[1..], src)
  }

  /** The effects of the rounds of one source, in order. */
  function Effects(m: Guards, rs: seq<Round>, src: Source): seq<Effect>
    decreases |rs|
  {
    if rs == [] then []
    else
      var rest := Effects(Step(m, rs[0]), rs[1..], src);
      if rs[0].source == src then [EffectOf(m, rs[0])] + rest else rest
  }

  predicate Agree(m: Guards, m': Guards, src: Source) {
    (src in m <==> src in m') && (src in m ==> m[src] == m'[src])
  }

  /** What happens to a source depends on its own rounds alone: dropping every other source's rounds changes neither
      what it is told nor the record kept on it. */
  lemma {:induction false} SourcesAreIndependent(m: Guards, m': Guards, rs: seq<Round>, src: Source)
    requires Agree(m, m', src)
    ensures Agree(Run(m, rs), Run(m', Only(rs, src)), src)
    ensures Effects(m, rs, src) == Effects(m', Only(rs, src), src)
    decreases |rs|
  {
    if rs != [] {
      var r := rs[0];
      if r.source == src {
        assert Agree(Step(m, r), Step(m', r), src);
        SourcesAreIndependent(Step(m, r), Step(m', r), rs[1..], src);
        assert Only(rs, src)[0] == r && Only(rs, src)[1..] == Only(rs[1..], src);
      } else {
        assert Agree(Step(m, r), m', src);
        SourcesAreIndependent(Step(m, r), m', rs[1..], src);
      }
    }
  }

  // ----- how fast failures can come -----

  /** When `src` failed since it last logged in, oldest first. */
  function Failures(m: Guards, rs: seq<Round>, src: Source, past: seq<u64>): seq<u64>
    decreases |rs|
  {
    if rs == [] then past
    else
      var e := EffectOf(m, rs[0]);
      var past' :=
        if rs[0].source != src then past
        else if e.Failure? then past + [rs[0].now]
        else if e.Cleared? then []
        else past;
      Failures(Step(m, rs[0]), rs[1..], src, past')
  }

  /** The record agrees with the failures so far. */
  predicate Matches(m: Guards, src: Source, past: seq<u64>) {
    && (src in m <==> past != [])
    && GuardOf(m, src).failures == Min(|past|, U32_MAX)
    && GuardOf(m, src).lockedUntil
       == if |past| >= LOCKOUT_THRESHOLD then SatAdd(past[|past| - 1], LOCKOUT_DURATION_SECS) else 0
  }

  /** From the fifth failure on, each waits out the lockout of the one before. */
  predicate Spaced(past: seq<u64>) {
    forall i :: LOCKOUT_THRESHOLD <= i < |past| ==> past[i] >= SatAdd(past[i - 1], LOCKOUT_DURATION_SECS)
  }

  lemma {:induction false} StepMatches(m: Guards, r: Round, src: Source, past: seq<u64>)
    requires Matches(m, src, past) && Spaced(past)
    ensures var past' := Failures(m, [r], src, past); Matches(Step(m, r), src, past') && Spaced(past')
  {
    assert [r][1..] == [];
  }

  lemma {:induction false} RunMatches(m: Guards, rs: seq<Round>, src: Source, past: seq<u64>)
    requires Matches(m, src, past) && Spaced(past)
    ensures var past' := Failures(m, rs, src, past); Matches(Run(m, rs), src, past') && Spaced(past')
    decreases |rs|
  {
    if rs != [] {
      var past' := Failures(m, [rs[0]], src, past);
      StepMatches(m, rs[0], src, past);
      assert [rs[0]][1..] == [];
      hide Step, EffectOf, Matches, Spaced;
      RunMatches(Step(m, rs[0]), rs[1..], src, past');
    }
  }

  lemma {:induction false} SpacingAddsUp(past: seq<u64>, n: nat)
    requires Spaced(past) && LOCKOUT_THRESHOLD <= n <= |past|
    ensures past[n - 1] >= Min(past[4] + 60 * (n - LOCKOUT_THRESHOLD), U64_MAX)
  {
    if n > LOCKOUT_THRESHOLD {
      SpacingAddsUp(past, n - 1);
    }
  }

  /** Whatever the other sources do and however the clock jumps, the n-th failed verification of a source since it
      last logged in is at least a minute a failure after its fifth. */
  lemma {:induction false} FailuresAreThrottled(rs: seq<Round>, src: Source, n: nat)
    requires 5 <= n <= |Failures(map[], rs, src, [])|
    ensures var times := Failures(map[], rs, src, []);
      times[n - 1] >= Min(times[4] + 60 * (n - 5), U64_MAX)
  {
    RunMatches(map[], rs, src, []);
    SpacingAddsUp(Failures(map[], rs, src, []), n);
  }

  /** A source is refused exactly until a minute after its last failure, once it has five. */
  lemma {:induction false} LockedExactly(rs: seq<Round>, src: Source, now: u64)
    ensures var times := Failures(map[], rs, src, []);
      Locked(Run(map[], rs), src, now)
      <==> |times| >= 5 && (now as int) < Min((times[|times| - 1] as int) + 60, U64_MAX)
  {
    RunMatches(map[], rs, src, []);
  }

  /** What a round comes to, from the history alone: refused while locked, and otherwise what the attempt deserves. */
  lemma {:induction false} RoundIs(rs: seq<Round>, r: Round)
    ensures var times := Failures(map[], rs, r.source, []);
      EffectOf(Run(map[], rs), r) ==
      if |times| >= 5 && (r.now as int) < Min((times[|times| - 1] as int) + 60, U64_MAX) then Refused
      else match r.attempt case Wrong => Failure case Right => Cleared case _ => Nothing
  {
    LockedExactly(rs, r.source, r.now);
  }
}
