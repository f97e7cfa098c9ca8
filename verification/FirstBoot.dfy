/** First boot: the root account is created once, durably, and the next boot finds it. */
module FirstBoot {
  import opened Arithmetic
  import opened Bytes
  import opened Results
  import opened Separated
  import opened ShadowSpec
  import opened ShadowFile
  import opened AtomicWriteSpec
  import opened Phc
  import AtomicWrite
  import ConsoleLogin
  import Lockout
  import Decimal

  const FIRST_BOOT_MAX_ATTEMPTS: nat := 3
  const SECONDS_PER_DAY: nat := 86_400

  // ----- deciding what to do at boot -----

  datatype BootDecision = SetUp | SteadyState(users: seq<Entry>) | CorruptShadow(error: ShadowError)

  predicate Blank(s: string) {
    forall i :: 0 <= i < |s| ==> s[i] == '\n' || s[i] == ' '
  }

  function DecideBoot(raw: Option<Stored>): BootDecision {
    if raw.None? then SetUp
    else if raw.value.NotUtf8? then CorruptShadow(MalformedPhc)
    else if Blank(raw.value.text) then SetUp
    else
      match ParseFile(raw.value.text)
      case Err(e) => CorruptShadow(e)
      case Ok(es) => if es == [] then SetUp else SteadyState(es)
  }

  lemma {:induction false} RecordsAreNotBlank(es: seq<Entry>)
    requires es != []
    ensures !Blank(SerializeFile(es))
  {
    var e := es[0];
    var parts := [e.username, e.phc] + KeyValues(e);
    hide KeyValues, Blank;
    assert SerializeRecord(e) == parts[0] + [':'] + Join(parts[1..], ':');
    var s := SerializeFile(es);
    assert s[|e.username|] == ':';
    NotBlankAt(s, |e.username|);
  }

  lemma {:induction false} NotBlankAt(s: string, i: nat)
    requires i < |s| && s[i] == ':'
    ensures !Blank(s)
  {
  }

  lemma {:induction false} LinesFollow(s: string)
    requires ParseLines(Split(s, '\n')) == Ok([])
    ensures forall i :: 0 <= i < |s| ==> s[i] == '\n'
  {
    hide ParseRecord;
    if s != "" {
      var rest := Split(s[1..], '\n');
      if s[0] == '\n' {
        assert Split(s, '\n') == [""] + rest;
        assert ([""] + rest)[1..] == rest;
        LinesFollow(s[1..]);
      }
      assert s[0] == '\n' && s == [s[0]] + s[1..];
    }
  }

  /** The machine is set up exactly when there is no file or nothing but blanks in it; any other file that cannot be
      read stops the boot with the reason, and is never taken for an empty one. */
  lemma {:induction false} DecidesIff(raw: Option<Stored>)
    ensures DecideBoot(raw) == SetUp <==>
              raw.None? || (raw.value.Text? && forall i :: 0 <= i < |raw.value.text| ==> raw.value.text[i] in " \n")
    ensures raw.Some? && raw.value.NotUtf8? ==> DecideBoot(raw) == CorruptShadow(MalformedPhc)
    ensures raw.Some? && raw.value.Text? && !Blank(raw.value.text) ==>
              match ParseFile(raw.value.text)
              case Err(e) => DecideBoot(raw) == CorruptShadow(e)
              case Ok(es) => es != [] && DecideBoot(raw) == SteadyState(es)
  {
    if raw.Some? && raw.value.Text? && ParseFile(raw.value.text) == Ok([]) {
      LinesFollow(raw.value.text);
    }
    hide ParseFile;
  }

  /** Booting from a stored list of well-formed accounts finds exactly those accounts. */
  lemma {:induction false} BootFindsAccounts(es: seq<Entry>)
    requires forall i :: 0 <= i < |es| ==> WellFormed(es[i])
    ensures DecideBoot(Some(Text(SerializeFile(es)))) == if es == [] then SetUp else SteadyState(es)
  {
    if es != [] {
      RecordsAreNotBlank(es);
      FileRoundTripIff(es);
      hide SerializeFile, ParseFile, WellFormed, Blank;
    }
  }

  // ----- creating the account -----

  function RootEntry(phc: string, now: u64): Entry {
    Entry("root", phc, Root, 0, now / SECONDS_PER_DAY % TWO_32, None, 0, false, [])
  }

  lemma {:induction false} RootIsWellFormed(salt: seq<byte>, tag: seq<byte>, params: Params, now: u64)
    ensures WellFormed(RootEntry(FormatPhc(salt, tag, params), now))
  {
    PhcIsWellFormed(salt, tag, params);
    hide FormatPhc, PhcShape;
    assert ValidateUsername("root").None?;
  }

  /** The file that holds a new root account, letter for letter. */
  lemma {:induction false} RootLine(phc: string, now: u64)
    ensures SerializeFile([RootEntry(phc, now)]) ==
            Join(["root", phc, "role=root", "flags=0", "last_changed=" + Decimal.Text(now / 86_400 % TWO_32),
                  "totp_secret=", "lockout_until=0"], ':') + "\n"
  {
    var e := RootEntry(phc, now);
    var day := Decimal.Text(now / 86_400 % TWO_32);
    var parts := ["root", phc, "role=root", "flags=0", "last_changed=" + day, "totp_secret=", "lockout_until=0"];
    assert Decimal.Text(0) == "0";
    assert KeyValues(e) == parts[2..] by {
      hide Decimal.Text;
      assert "role" + "=" + "root" == "role=root" && "flags" + "=" + "0" == "flags=0";
      assert "last_changed" + "=" + day == "last_changed=" + day;
      assert "totp_secret" + "=" + "" == "totp_secret=" && "lockout_until" + "=" + "0" == "lockout_until=0";
    }
    assert ["root", phc] + KeyValues(e) == parts;
    hide Decimal.Text, KeyValues;
    assert [e][1..] == [] && SerializeFile([]) == "";
    assert SerializeFile([e]) == SerializeRecord(e) + "\n" + "";
  }

  datatype ReadError = Aborted | Eof | Fault

  datatype SetupError = ConfirmationExhausted | Io | AtomicWriteFailed(error: AtomicWrite.WriteError) | SaltTooShort

  /** The operator's keyboard: a script of lines and interruptions. */
  class Keyboard {
    var lines: seq<Result<string, ReadError>>

    method ReadLine() returns (r: Result<string, ReadError>)
      modifies this
      ensures if old(lines) == [] then r == Err(Fault) && lines == []
              else r == old(lines)[0] && lines == old(lines)[1..]
    {
      if lines == [] {
        return Err(Fault);
      }
      r := lines[0];
      lines := lines[1..];
    }
  }

  /** The operator's screen: it may fail at any print. */
  class Screen {
    var faults: seq<bool>

    method Print() returns (ok: bool)
      modifies this
      ensures old(faults) == [] ==> ok && faults == []
    {
      if faults == [] {
        return true;
      }
      ok := !faults[0];
      faults := faults[1..];
    }
  }

  datatype Prompt = Chosen(password: string) | Again | Broken

  type Lines = seq<Result<string, ReadError>>

  /** What one try makes of the typed lines when the screen works, and the lines it leaves. */
  function AskOnce(lines: Lines): (Prompt, Lines) {
    if lines == [] || lines[0] == Err(Fault) then (Broken, if lines == [] then [] else lines[1..])
    else if lines[0].Err? || lines[0].value == "" then (Again, lines[1..])
    else if |lines| == 1 || lines[1] == Err(Fault) then (Broken, if |lines| == 1 then [] else lines[2..])
    else if lines[1] != lines[0] then (Again, lines[2..])
    else (Chosen(lines[0].value), lines[2..])
  }

  /** The whole conversation, with so many tries left. */
  function Dialogue(lines: Lines, tries: nat): Prompt {
    if tries == 0 then Again
    else
      var (p, rest) := AskOnce(lines);
      if p.Again? then Dialogue(rest, tries - 1) else p
  }

  /** What a try is: a password is chosen exactly when it is typed twice and not empty; the try is broken off exactly
      by a failing or missing line; and it takes the second line only after a first that is not empty. */
  lemma {:induction false} TryIs(lines: Lines)
    ensures var (p, rest) := AskOnce(lines);
      var begun := lines != [] && lines[0].Ok? && lines[0].value != "";
      && (forall pw :: p == Chosen(pw) <==> begun && pw == lines[0].value && |lines| >= 2 && lines[1] == Ok(pw))
      && (p == Broken <==>
            || lines == [] || lines[0] == Err(Fault)
            || (begun && (|lines| == 1 || lines[1] == Err(Fault))))
      && rest == (if !begun then if lines == [] then [] else lines[1..] else if |lines| == 1 then [] else lines[2..])
  {
  }

  /** The lines left after so many tries, and how the next one goes. */
  function LinesAfter(lines: Lines, tries: nat): Lines {
    if tries == 0 then lines else AskOnce(LinesAfter(lines, tries - 1)).1
  }

  ghost predicate DecidedAt(lines: Lines, k: nat) {
    && !AskOnce(LinesAfter(lines, k)).0.Again?
    && forall j: nat :: j < k ==> AskOnce(LinesAfter(lines, j)).0.Again?
  }

  lemma {:induction false} LinesAfterFirst(lines: Lines, tries: nat)
    ensures LinesAfter(AskOnce(lines).1, tries) == LinesAfter(lines, tries + 1)
  {
    hide AskOnce;
    if tries > 0 {
      LinesAfterFirst(lines, tries - 1);
    }
  }

  lemma {:induction false} DialogueDecides(lines: Lines, tries: nat)
    ensures forall k: nat :: k < tries && DecidedAt(lines, k) ==>
            Dialogue(lines, tries) == AskOnce(LinesAfter(lines, k)).0
    ensures (forall k: nat :: k < tries ==> !DecidedAt(lines, k)) ==> Dialogue(lines, tries) == Again
    decreases tries
  {
    hide AskOnce;
    if tries > 0 {
      var (p, rest) := AskOnce(lines);
      assert LinesAfter(lines, 0) == lines;
      if p.Again? {
        DialogueDecides(rest, tries - 1);
        forall k: nat ensures p.Again? && k > 0 ==> (DecidedAt(lines, k) <==> DecidedAt(rest, k - 1)) {
          if k > 0 {
            ShiftDecided(lines, k);
          }
        }
        forall k: nat | k < tries && DecidedAt(lines, k)
          ensures Dialogue(lines, tries) == AskOnce(LinesAfter(lines, k)).0
        {
          assert k > 0;
          LinesAfterFirst(lines, k - 1);
          assert DecidedAt(rest, k - 1);
        }
        if forall k: nat :: k < tries ==> !DecidedAt(lines, k) {
          forall k: nat | k < tries - 1 ensures !DecidedAt(rest, k) {
            assert !DecidedAt(lines, k + 1);
          }
        }
      } else {
        assert DecidedAt(lines, 0);
      }
    }
  }

  lemma {:induction false} ShiftDecided(lines: Lines, k: nat)
    requires k > 0 && AskOnce(lines).0.Again?
    ensures DecidedAt(lines, k) <==> DecidedAt(AskOnce(lines).1, k - 1)
  {
    hide AskOnce;
    var rest := AskOnce(lines).1;
    assert LinesAfter(lines, 0) == lines;
    forall j: nat ensures LinesAfter(rest, j) == LinesAfter(lines, j + 1) {
      LinesAfterFirst(lines, j);
    }
    if DecidedAt(rest, k - 1) {
      forall j: nat | j < k ensures AskOnce(LinesAfter(lines, j)).0.Again? {
        if j > 0 {
          assert AskOnce(LinesAfter(rest, j - 1)).0.Again?;
        }
      }
    }
    if DecidedAt(lines, k) {
      forall j: nat | j < k - 1 ensures AskOnce(LinesAfter(rest, j)).0.Again? {
        assert AskOnce(LinesAfter(lines, j + 1)).0.Again?;
      }
    }
  }

  /** The conversation is decided by the first of its three tries that is not to be repeated; if there is none it is
      given up. */
  lemma {:induction false} ThreeTries(lines: Lines)
    ensures forall k: nat :: k < 3 && DecidedAt(lines, k) ==>
              Answered(lines) == match AskOnce(LinesAfter(lines, k)).0
                                 case Chosen(pw) => Ok(pw)
                                 case _ => Err(Io)
    ensures (forall k: nat :: k < 3 ==> !DecidedAt(lines, k)) ==> Answered(lines) == Err(ConfirmationExhausted)
  {
    hide AskOnce, Dialogue;
    DialogueDecides(lines, 3);
  }

  /** What becomes of a chosen password: an account exactly when the salt is long enough, the path is named, a file
      system is there and the write goes through; and otherwise the first of these that fails. */
  lemma {:induction false} CreatedIff(salt: seq<byte>, params: Params, now: u64, hash: Argon, password: string,
                                      path: string, mounted: bool, fault: Fault)
    ensures var r := Created(salt, params, now, hash, password, path, mounted, fault);
      && (r.Ok? <==> |salt| >= 8 && path != "" && mounted && fault == NoFault)
      && (r == Err(SaltTooShort) <==> |salt| < 8)
      && (r == Err(AtomicWriteFailed(AtomicWrite.InvalidPath)) <==> |salt| >= 8 && path == "")
      && (r == Err(AtomicWriteFailed(AtomicWrite.NotImplemented)) <==> |salt| >= 8 && path != "" && !mounted)
  {
  }

  /** One try: a password and its confirmation, or a reason to ask again. */
  method AskTwice(keyboard: Keyboard, screen: Screen) returns (p: Prompt)
    requires keyboard as object != screen as object
    modifies keyboard, screen
    ensures |old(keyboard.lines)| - 2 <= |keyboard.lines| <= |old(keyboard.lines)|
    ensures keyboard.lines == old(keyboard.lines)[|old(keyboard.lines)| - |keyboard.lines|..]
    ensures p.Chosen? ==> (
      && p.password != "" && |old(keyboard.lines)| >= 2
      && old(keyboard.lines)[0] == old(keyboard.lines)[1] == Ok(p.password))
    ensures old(screen.faults) == [] ==> screen.faults == [] && (p, keyboard.lines) == AskOnce(old(keyboard.lines))
  {
    var first := keyboard.ReadLine();
    if first.Err? {
      if first.error.Fault? {
        return Broken;
      }
      p := Reprompt(screen);
      return;
    }
    if first.value == "" {
      p := Reprompt(screen);
      return;
    }
    var ok := screen.Print();
    if !ok {
      return Broken;
    }
    var second := keyboard.ReadLine();
    if second.Err? {
      if second.error.Fault? {
        return Broken;
      }
      p := Reprompt(screen);
      return;
    }
    if first.value != second.value {
      p := Reprompt(screen);
      return;
    }
    return Chosen(first.value);
  }

  /** Say what was wrong and ask again. */
  method Reprompt(screen: Screen) returns (p: Prompt)
    modifies screen
    ensures !p.Chosen?
    ensures old(screen.faults) == [] ==> p == Again && screen.faults == []
  {
    var ok := screen.Print();
    if ok {
      ok := screen.Print();
    }
    return if ok then Again else Broken;
  }

  predicate Twice(lines: Lines, password: string) {
    exists i :: 0 <= i < |lines| - 1 && lines[i] == lines[i + 1] == Ok(password)
  }

  /** The account that a password typed twice creates. */
  ghost predicate Creates(e: Entry, lines: Lines, hash: Argon, salt: seq<byte>, params: Params,
                          now: u64) {
    exists pw :: pw != "" && Twice(lines, pw) && e == RootEntry(Enrolled(hash, pw, salt, params), now)
  }

  /** What becomes of a chosen password when the screen works. */
  function Created(salt: seq<byte>, params: Params, now: u64, hash: Argon, password: string, path: string,
                   mounted: bool, fault: Fault)
    : Result<Entry, SetupError>
  {
    if |salt| < 8 then Err(SaltTooShort)
    else if path == "" then Err(AtomicWriteFailed(AtomicWrite.InvalidPath))
    else if !mounted then Err(AtomicWriteFailed(AtomicWrite.NotImplemented))
    else if !fault.NoFault? then Err(AtomicWriteFailed(AtomicWrite.Io))
    else Ok(RootEntry(Enrolled(hash, password, salt, params), now))
  }

  /** Hash, store and announce. */
  method CreateRoot(screen: Screen, writer: AtomicWrite.Writer, path: string, params: Params, salt: seq<byte>,
                    now: u64, hash: Argon, password: string, ghost lines: Lines)
    returns (r: Result<Entry, SetupError>)
    requires screen !in writer.Objects()
    requires password != "" && Twice(lines, password)
    modifies screen, writer.Objects()
    ensures r.Ok? ==>
      && |salt| >= 8 && Creates(r.value, lines, hash, salt, params, now)
      && Get(writer.Held(), path) == Some(Text(SerializeFile([r.value])))
      && DecideBoot(Get(writer.Held(), path)) == SteadyState([r.value])
    ensures r.Err? ==> Undone(old(writer.Held()), writer.Held()) || (r.error == Io && exists e ::
            && Creates(e, lines, hash, salt, params, now)
            && Undone(old(writer.Held())[path := Text(SerializeFile([e]))], writer.Held()))
    ensures old(screen.faults) == [] ==>
            r == Created(salt, params, now, hash, password, path, writer.Mounted(), old(writer.NextFault()))
  {
    hide EndsTmp, Get, SerializeFile, DecideBoot, FormatPhc, WellFormed, AtomicWriteSpec.Step;
    if |salt| < 8 {
      return Err(SaltTooShort);
    }
    var e := RootEntry(Enrolled(hash, password, salt, params), now);
    assert Creates(e, lines, hash, salt, params, now);
    var body := Text(SerializeFile([e]));
    ghost var before, fault := writer.Held(), writer.NextFault();
    var failed := writer.WriteAtomic(path, body);
    if failed.Some? {
      FailedWriteUndone(before, Write(path, body, fault));
      return Err(AtomicWriteFailed(failed.value));
    }
    WrittenThrough(before, path, body);
    RootIsWellFormed(salt, Tag(hash, password, salt, params, 32), params, now);
    BootFindsAccounts([e]);
    var ok := screen.Print();
    if !ok {
      return Err(Io);
    }
    return Ok(e);
  }

  lemma {:induction false} JudgeOne(e: Entry, check: ConsoleLogin.Verifier, name: string, password: string)
    ensures ConsoleLogin.Judge([e], check, Ok(name), Ok(password)) ==
            if name == e.username && check(password, e.phc) then Lockout.Right else Lockout.Wrong
  {
    assert [e][1..] == [];
    assert ConsoleLogin.Lookup([], name) == None;
    assert ConsoleLogin.Lookup([e], name) == if name == e.username then Some(e) else None;
  }

  /** The password typed at the first boot opens the account at every login, and so does no other that hashes
      differently. */
  lemma {:induction false} RootLogsIn(hash: Argon, salt: seq<byte>, params: Params, now: u64, password: string,
                                      check: ConsoleLogin.Verifier, name: string, typed: string)
    requires Validate(params).None? && |salt| >= 8
    requires forall pw, phc :: check(pw, phc) <==> Verify(hash, pw, phc) == Ok(true)
    ensures var e := RootEntry(Enrolled(hash, password, salt, params), now);
            && ConsoleLogin.Judge([e], check, Ok("root"), Ok(password)) == Lockout.Right
            && (ConsoleLogin.Judge([e], check, Ok(name), Ok(typed)) == Lockout.Right <==>
                  name == "root" && Tag(hash, typed, salt, params, 32) == Tag(hash, password, salt, params, 32))
  {
    hide Verify, Enrolled, Tag;
    EnrolledVerifies(hash, password, salt, params, typed);
    var e := RootEntry(Enrolled(hash, password, salt, params), now);
    JudgeOne(e, check, "root", password);
    JudgeOne(e, check, name, typed);
  }

  /** Every path but staging files is as in `before`. */
  ghost predicate Undone(before: Files, after: Files) {
    forall p :: !EndsTmp(p) ==> Get(after, p) == Get(before, p)
  }

  lemma {:induction false} FailedWriteUndone(before: Files, op: Op)
    requires op.Write? && !Acknowledged(op)
    ensures Undone(before, AtomicWriteSpec.Step(before, op))
  {
    forall p | !EndsTmp(p) ensures Get(AtomicWriteSpec.Step(before, op), p) == Get(before, p) {
      StepHolds(before, op, p);
    }
  }

  lemma {:induction false} WrittenThrough(before: Files, path: string, c: Stored)
    requires path != ""
    ensures Get(AtomicWriteSpec.Step(before, Write(path, c, NoFault)), path) == Some(c)
    ensures Undone(before[path := c], AtomicWriteSpec.Step(before, Write(path, c, NoFault)))
  {
    var op := Write(path, c, NoFault);
    forall p | !EndsTmp(p) ensures Get(AtomicWriteSpec.Step(before, op), p) == Get(before[path := c], p) {
      StepHolds(before, op, p);
    }
  }

  lemma {:induction false} CreatedVerifies(e: Entry, lines: Lines, hash: Argon, salt: seq<byte>, params: Params,
                                           now: u64)
    requires Creates(e, lines, hash, salt, params, now) && Validate(params).None? && |salt| >= 8
    ensures exists pw :: pw != "" && Twice(lines, pw) && Verify(hash, pw, e.phc) == Ok(true)
  {
    hide Verify, Enrolled, Twice, Validate;
    var pw :| pw != "" && Twice(lines, pw) && e == RootEntry(Enrolled(hash, pw, salt, params), now);
    EnrolledVerifies(hash, pw, salt, params, pw);
  }

  /** What the conversation comes to when the screen works. */
  function Answered(lines: Lines): Result<string, SetupError> {
    match Dialogue(lines, FIRST_BOOT_MAX_ATTEMPTS)
    case Broken => Err(Io)
    case Again => Err(ConfirmationExhausted)
    case Chosen(pw) => Ok(pw)
  }

  /** At most three tries at a password. */
  method ChoosePassword(keyboard: Keyboard, screen: Screen) returns (r: Result<string, SetupError>)
    requires keyboard as object != screen as object
    modifies keyboard, screen
    ensures |old(keyboard.lines)| - |keyboard.lines| <= 2 * FIRST_BOOT_MAX_ATTEMPTS
    ensures r.Ok? ==> r.value != "" && Twice(old(keyboard.lines), r.value)
    ensures old(screen.faults) == [] ==> screen.faults == [] && r == Answered(old(keyboard.lines))
  {
    ghost var lines := keyboard.lines;
    var ok := screen.Print();
    if !ok {
      return Err(Io);
    }
    var attempts := 0;
    while true
      invariant attempts <= FIRST_BOOT_MAX_ATTEMPTS
      invariant old(screen.faults) == [] ==>
        && screen.faults == []
        && Dialogue(lines, FIRST_BOOT_MAX_ATTEMPTS) == Dialogue(keyboard.lines, FIRST_BOOT_MAX_ATTEMPTS - attempts)
      invariant |keyboard.lines| <= |lines| && |lines| - |keyboard.lines| <= 2 * attempts
      invariant keyboard.lines == lines[|lines| - |keyboard.lines|..]
      decreases FIRST_BOOT_MAX_ATTEMPTS - attempts
    {
      if attempts == FIRST_BOOT_MAX_ATTEMPTS {
        ok := screen.Print();
        return Err(if ok then ConfirmationExhausted else Io);
      }
      attempts := attempts + 1;
      ghost var at := |lines| - |keyboard.lines|;
      var p := AskTwice(keyboard, screen);
      if p.Broken? {
        return Err(Io);
      }
      if p.Chosen? {
        assert lines[at] == lines[at + 1] == Ok(p.password);
        return Ok(p.password);
      }
    }
  }

  /** With either writer: on success the stored file is exactly the new account, and a reboot finds it. On any error
      every readable path is as before, except that a failing screen can leave the account created. */
  method FirstBootSetup(keyboard: Keyboard, screen: Screen, writer: AtomicWrite.Writer, path: string,
                        params: Params, salt: seq<byte>, now: u64, hash: Argon) returns (r: Result<Entry, SetupError>)
    requires keyboard as object != screen as object && {keyboard as object, screen as object} !! writer.Objects()
    modifies keyboard, screen, writer.Objects()
    ensures |old(keyboard.lines)| - |keyboard.lines| <= 6
    ensures r.Ok? ==>
      && Creates(r.value, old(keyboard.lines), hash, salt, params, now)
      && Get(writer.Held(), path) == Some(Text(SerializeFile([r.value])))
      && DecideBoot(Get(writer.Held(), path)) == SteadyState([r.value])
    ensures r.Ok? && Validate(params).None? ==>
      exists pw :: pw != "" && Twice(old(keyboard.lines), pw) && Verify(hash, pw, r.value.phc) == Ok(true)
    ensures r.Err? ==> Undone(old(writer.Held()), writer.Held()) || (r.error == Io && exists e ::
            && Creates(e, old(keyboard.lines), hash, salt, params, now)
            && Undone(old(writer.Held())[path := Text(SerializeFile([e]))], writer.Held()))
    ensures old(screen.faults) == [] ==>
      r == match Answered(old(keyboard.lines))
           case Err(e) => Err(e)
           case Ok(pw) => Created(salt, params, now, hash, pw, path, writer.Mounted(), old(writer.NextFault()))
  {
    hide EndsTmp, Get, SerializeFile, DecideBoot, FormatPhc, Answered, Created, Creates, Twice;
    ghost var lines := keyboard.lines;
    var password := ChoosePassword(keyboard, screen);
    if password.Err? {
      return Err(password.error);
    }
    r := CreateRoot(screen, writer, path, params, salt, now, hash, password.value, lines);
    if r.Ok? && Validate(params).None? {
      CreatedVerifies(r.value, lines, hash, salt, params, now);
    }
  }

  /** The account outlives every later crash, failed write and clean-up, until a new file is acknowledged. */
  lemma {:induction false} AccountSurvives(files: Files, e: Entry, path: string, ops: seq<Op>)
    requires WellFormed(e) && !EndsTmp(path) && Get(files, path) == Some(Text(SerializeFile([e])))
    requires forall i :: 0 <= i < |ops| && Acknowledged(ops[i]) ==> ops[i].path != path
    ensures DecideBoot(Get(Run(files, ops), path)) == SteadyState([e])
  {
    RunHolds(files, ops, path);
    NothingAcknowledged(files, ops, path);
    BootFindsAccounts([e]);
    hide DecideBoot, SerializeFile, Get, Run, LastAcknowledged;
  }

  lemma {:induction false} NothingAcknowledged(files: Files, ops: seq<Op>, path: string)
    requires forall i :: 0 <= i < |ops| && Acknowledged(ops[i]) ==> ops[i].path != path
    ensures LastAcknowledged(files, ops, path) == Get(files, path)
  {
    if ops != [] {
      NothingAcknowledged(files, ops[..|ops| - 1], path);
    }
  }
}
