/** Validation of the exporter's configuration, and what a configuration that passes means for the pipeline. */
module ExportConfig {
  import opened Arithmetic
  import opened Bytes
  import opened Results
  import opened PipelineSpec
  import opened PipelineLaws

  const BUFFER_BYTES_MIN: nat := 1024 * 1024
  const BUFFER_BYTES_MAX: nat := 64 * 1024 * 1024
  const BATCH_SIZE_MIN: nat := 1
  const BATCH_SIZE_MAX: nat := 10_000
  const BATCH_INTERVAL_MS_MIN: nat := 100
  const BATCH_INTERVAL_MS_MAX: nat := 60_000
  const BACKOFF_INITIAL_MIN_MS: nat := 100
  const BACKOFF_INITIAL_MAX_MS: nat := 60_000
  const BACKOFF_CAP_MIN_MS: nat := 1_000
  const BACKOFF_CAP_MAX_MS: nat := 3_600_000
  const OVERFLOW_INTERVAL_MS: u64 := 60_000

  datatype AuthMode = Bearer | Mtls

  datatype Settings = Settings(
    enabled: bool,
    endpoint: string,
    authMode: AuthMode,
    database: string,
    batchSize: nat,
    batchInterval: u64,
    bufferBytes: nat,
    backoffInitial: u64,
    backoffCap: u64,
    fingerprint: string,
    trustStorePath: string,
    includeActions: seq<seq<byte>>,
    excludeActions: seq<seq<byte>>)

  datatype ConfigError =
    | EnabledRequiresEndpoint
    | EndpointNotHttps
    | EnabledRequiresPubkeyFingerprint
    | PubkeyFingerprintMalformed
    | TrustStoreRequired
    | BatchSizeOutOfRange(size: nat)
    | BatchIntervalOutOfRange(interval: u64)
    | BufferBytesOutOfRange(bytes: nat)
    | BackoffInitialOutOfRange(initial: u64)
    | BackoffCapOutOfRange(cap: u64)
    | BackoffCapBelowInitial
    | DatabaseEmpty
    | MtlsNotYetSupported

  predicate IsHexDigit(c: char) {
    '0' <= c <= '9' || 'a' <= c <= 'f' || 'A' <= c <= 'F'
  }

  predicate IsHex64(s: string) {
    |s| == 64 && forall i :: 0 <= i < |s| ==> IsHexDigit(s[i])
  }

  /** The first rule the settings break, in the order they are looked at. */
  function Validate(c: Settings): Option<ConfigError> {
    if c.enabled && c.endpoint == "" then Some(EnabledRequiresEndpoint)
    else if c.enabled && !("https://" <= c.endpoint) then Some(EndpointNotHttps)
    else if c.enabled && c.fingerprint == "" then Some(EnabledRequiresPubkeyFingerprint)
    else if c.fingerprint != "" && !IsHex64(c.fingerprint) then Some(PubkeyFingerprintMalformed)
    else if c.enabled && c.trustStorePath == "" then Some(TrustStoreRequired)
    else if c.batchSize < BATCH_SIZE_MIN || c.batchSize > BATCH_SIZE_MAX then Some(BatchSizeOutOfRange(c.batchSize))
    else if c.batchInterval < BATCH_INTERVAL_MS_MIN || c.batchInterval > BATCH_INTERVAL_MS_MAX then
      Some(BatchIntervalOutOfRange(c.batchInterval))
    else if c.bufferBytes < BUFFER_BYTES_MIN || c.bufferBytes > BUFFER_BYTES_MAX then
      Some(BufferBytesOutOfRange(c.bufferBytes))
    else if c.backoffInitial < BACKOFF_INITIAL_MIN_MS || c.backoffInitial > BACKOFF_INITIAL_MAX_MS then
      Some(BackoffInitialOutOfRange(c.backoffInitial))
    else if c.backoffCap < BACKOFF_CAP_MIN_MS || c.backoffCap > BACKOFF_CAP_MAX_MS then
      Some(BackoffCapOutOfRange(c.backoffCap))
    else if c.backoffCap < c.backoffInitial then Some(BackoffCapBelowInitial)
    else if c.database == "" then Some(DatabaseEmpty)
    else if c.authMode == Mtls then Some(MtlsNotYetSupported)
    else None
  }

  /** Settings pass exactly when every rule holds: an enabled exporter names an https endpoint, a pinned key and a
      trust store, a given fingerprint is 64 hexadecimal digits, every number is in its range, the cap is not below
      the first delay, a database is named, and mutual TLS is not asked for. */
  lemma {:induction false} ValidIff(c: Settings)
    ensures Validate(c).None? <==>
      && (c.enabled ==> "https://" <= c.endpoint && c.fingerprint != "" && c.trustStorePath != "")
      && (c.fingerprint != "" ==>
            && |c.fingerprint| == 64
            && forall i :: 0 <= i < 64 ==> c.fingerprint[i] in "0123456789abcdefABCDEF")
      && 1 <= c.batchSize <= 10_000 && 100 <= c.batchInterval <= 60_000
      && 1_048_576 <= c.bufferBytes <= 67_108_864
      && 100 <= c.backoffInitial <= 60_000 && 1_000 <= c.backoffCap <= 3_600_000 && c.backoffInitial <= c.backoffCap
      && c.database != "" && c.authMode.Bearer?
  {
    HexIff(c.fingerprint);
    hide IsHex64;
  }

  lemma {:induction false} HexDigitIff(c: char)
    ensures IsHexDigit(c) <==> c in "0123456789abcdefABCDEF"
  {
    var digits := "0123456789abcdefABCDEF";
    if IsHexDigit(c) {
      var i := if c <= '9' then c as int - '0' as int
               else if c <= 'F' then c as int - 'A' as int + 16
               else c as int - 'a' as int + 10;
      assert digits[i] == c;
    }
  }

  lemma {:induction false} HexIff(s: string)
    ensures IsHex64(s) <==> |s| == 64 && forall i :: 0 <= i < 64 ==> s[i] in "0123456789abcdefABCDEF"
  {
    forall i | 0 <= i < |s| ensures IsHexDigit(s[i]) <==> s[i] in "0123456789abcdefABCDEF" {
      HexDigitIff(s[i]);
    }
    hide IsHexDigit;
  }

  /** The rules in the order in which they are looked at, each with its complaint. */
  ghost function Complaint(c: Settings, rule: nat): Option<ConfigError> {
    match rule
    case 0 => if c.enabled && c.endpoint == "" then Some(EnabledRequiresEndpoint) else None
    case 1 => if c.enabled && !("https://" <= c.endpoint) then Some(EndpointNotHttps) else None
    case 2 => if c.enabled && c.fingerprint == "" then Some(EnabledRequiresPubkeyFingerprint) else None
    case 3 => if c.fingerprint != "" && !IsHex64(c.fingerprint) then Some(PubkeyFingerprintMalformed) else None
    case 4 => if c.enabled && c.trustStorePath == "" then Some(TrustStoreRequired) else None
    case 5 => if 1 <= c.batchSize <= 10_000 then None else Some(BatchSizeOutOfRange(c.batchSize))
    case 6 => if 100 <= c.batchInterval <= 60_000 then None else Some(BatchIntervalOutOfRange(c.batchInterval))
    case 7 => if 1_048_576 <= c.bufferBytes <= 67_108_864 then None else Some(BufferBytesOutOfRange(c.bufferBytes))
    case 8 => if 100 <= c.backoffInitial <= 60_000 then None else Some(BackoffInitialOutOfRange(c.backoffInitial))
    case 9 => if 1_000 <= c.backoffCap <= 3_600_000 then None else Some(BackoffCapOutOfRange(c.backoffCap))
    case 10 => if c.backoffInitial <= c.backoffCap then None else Some(BackoffCapBelowInitial)
    case 11 => if c.database == "" then Some(DatabaseEmpty) else None
    case 12 => if c.authMode == Mtls then Some(MtlsNotYetSupported) else None
    case _ => None
  }

  /** The complaint is that of the first rule that is broken. */
  lemma {:induction false} FirstComplaint(c: Settings, rule: nat)
    requires Complaint(c, rule).Some? && forall k: nat :: k < rule ==> Complaint(c, k).None?
    ensures Validate(c) == Complaint(c, rule)
  {
    hide IsHex64;
    assert Complaint(c, rule).Some? ==> rule <= 12;
    assert forall k: nat :: k < rule ==> Complaint(c, k).None?;
    assert 0 < rule ==> Complaint(c, 0).None?;
    assert 1 < rule ==> Complaint(c, 1).None?;
    assert 2 < rule ==> Complaint(c, 2).None?;
    assert 3 < rule ==> Complaint(c, 3).None?;
    assert 4 < rule ==> Complaint(c, 4).None?;
    assert 5 < rule ==> Complaint(c, 5).None?;
    assert 6 < rule ==> Complaint(c, 6).None?;
    assert 7 < rule ==> Complaint(c, 7).None?;
    assert 8 < rule ==> Complaint(c, 8).None?;
    assert 9 < rule ==> Complaint(c, 9).None?;
    assert 10 < rule ==> Complaint(c, 10).None?;
    assert 11 < rule ==> Complaint(c, 11).None?;
  }

  function ToPipelineConfig(c: Settings): Config {
    Config(c.batchSize, c.batchInterval, c.bufferBytes, c.backoffInitial, c.backoffCap, OVERFLOW_INTERVAL_MS,
           c.includeActions, c.excludeActions)
  }

  /** How the settings govern the pipeline made from them: which records it takes, when it sends, how long it waits
      after a failure, and how often it reports drops. */
  lemma {:induction false} SettingsGovern(c: Settings, s: State, now: u64, r: Record)
    ensures var cfg := ToPipelineConfig(c);
      && (PushStep(cfg, s, now, r).1 == Ok(true) <==>
            && s.halt.None?
            && (c.includeActions == [] || r.action in c.includeActions) && r.action !in c.excludeActions
            && |r.action| + |r.key| + |r.value| <= c.bufferBytes)
      && (s.halt.None? && s.inFlight.None? && s.nextAttempt <= now && s.startedAt.Some? && s.buffer != [] ==>
            (TickStep(cfg, s, now).1.SendBatch? <==>
               |s.buffer| >= c.batchSize || now >= s.startedAt.value + c.batchInterval || c.batchInterval == 0))
      && (TickStep(cfg, s, now).1.SendBatch? ==> |TickStep(cfg, s, now).1.records| <= c.batchSize)
      && SendStep(cfg, s, now, Retry(0)).0.backoff ==
           (if s.backoff == 0 then c.backoffInitial else Min(SatAdd(s.backoff, s.backoff), c.backoffCap))
      && (ReportStep(cfg, s, now).1.Some? <==>
            s.dropped > 0 && (s.lastOverflow.None? || now >= s.lastOverflow.value + 60_000))
  {
    hide Sum, Victims;
  }

  /** Settings that pass validation give a pipeline that, on every run, follows the capped doubling, never sends an
      empty or oversized batch, and whose byte counter plus any one record fits 64 bits with room to spare. */
  lemma {:induction false} ValidatedRunsAreSafe(c: Settings, lastTxId: u64, es: seq<Event>, now: u64)
    requires Validate(c).None?
    ensures var cfg := ToPipelineConfig(c);
      var w := Run(cfg, Start(lastTxId), es);
      var a := TickStep(cfg, w.s, now).1;
      && w.s.backoff == Delay(cfg, Streak(0, es))
      && (w.s.backoff == 0 || BACKOFF_INITIAL_MIN_MS <= w.s.backoff <= BACKOFF_CAP_MAX_MS)
      && (a.SendBatch? ==> 1 <= |a.records| <= BATCH_SIZE_MAX)
      && Sum(w.s.Batch()) + Sum(w.s.buffer) + TWO_63 < TWO_64
  {
    var cfg := ToPipelineConfig(c);
    var w := Run(cfg, Start(lastTxId), es);
    BackoffRange(c);
    EveryRun(cfg, lastTxId, es);
    BackoffFrom(cfg, Start(lastTxId), 0, es);
    DelayRange(cfg, Streak(0, es));
    hide *;
    Footprint(c, w);
    BatchInRange(c, w.s, now);
  }

  lemma {:induction false} Footprint(c: Settings, w: World)
    requires Validate(c).None? && Inv(ToPipelineConfig(c), w)
    ensures Sum(w.s.Batch()) + Sum(w.s.buffer) + TWO_63 < TWO_64
  {
    hide Sum, Ordered, Conserved, Timed, Counted, EachFits;
    MulAtMost(c.batchSize, BATCH_SIZE_MAX, c.bufferBytes);
  }

  lemma {:induction false} BackoffRange(c: Settings)
    requires Validate(c).None?
    ensures var cfg := ToPipelineConfig(c);
      BACKOFF_INITIAL_MIN_MS <= cfg.backoffInitial <= cfg.backoffCap <= BACKOFF_CAP_MAX_MS
  {
  }

  lemma {:induction false} BatchInRange(c: Settings, s: State, now: u64)
    requires Validate(c).None?
    ensures var a := TickStep(ToPipelineConfig(c), s, now).1; a.SendBatch? ==> 1 <= |a.records| <= BATCH_SIZE_MAX
  {
    var cfg := ToPipelineConfig(c);
    if TickStep(cfg, s, now).1.SendBatch? {
      BatchIsOldest(cfg, s, now);
    }
  }

  lemma {:induction false} DelayRange(cfg: Config, k: nat)
    requires cfg.backoffInitial <= cfg.backoffCap
    ensures Delay(cfg, k) == 0 || cfg.backoffInitial <= Delay(cfg, k) <= cfg.backoffCap
  {
    if k > 0 {
      MulAtMost(1, Pow2(k - 1), cfg.backoffInitial);
    }
  }
}
