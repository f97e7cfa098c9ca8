/** What a shadow line says, told without the reader: which lines parse, to which entries, and which error is first. */
module ShadowMeaning {
  import opened Bytes
  import opened Results
  import opened Separated
  import opened ShadowSpec
  import opened ShadowLaws
  import opened ShadowRoundTrip
  import Base32
  import Decimal

  // ----- segments -----

  function Label(fd: Field): string {
    match fd
    case RoleField => "role="
    case FlagsField => "flags="
    case LastChangedField => "last_changed="
    case TotpSecretField => "totp_secret="
    case LockoutField => "lockout_until="
    case TotpRequiredField => "totp_required="
  }

  /** There is an equals sign, and something before the first one. */
  ghost predicate Keyed(kv: string) {
    kv != "" && kv[0] != '=' && !Lacks(kv, '=')
  }

  predicate Claims(kv: string, fd: Field) {
    Label(fd) <= kv
  }

  /** The values told for a field, in order. */
  ghost function Told(kvs: seq<string>, fd: Field): seq<string> {
    if kvs == [] then []
    else
      var last := kvs[|kvs| - 1];
      Told(kvs[..|kvs| - 1], fd) + if Claims(last, fd) then [last[|Label(fd)|..]] else []
  }

  ghost predicate Foreign(kv: string) {
    forall fd :: !Claims(kv, fd)
  }

  /** The segments of no known field, in order. */
  ghost function Rest(kvs: seq<string>): seq<string> {
    if kvs == [] then []
    else Rest(kvs[..|kvs| - 1]) + if Foreign(kvs[|kvs| - 1]) then [kvs[|kvs| - 1]] else []
  }

  lemma {:induction false} SplitFails(kv: string)
    ensures SplitAtEq(kv).None? <==> Lacks(kv, '=')
    ensures SplitAtEq(kv).Some? ==>
              Lacks(SplitAtEq(kv).value.key, '=') && (SplitAtEq(kv).value.key == "" <==> kv[0] == '=')
  {
    if kv != "" && kv[0] != '=' {
      SplitFails(kv[1..]);
      assert kv == [kv[0]] + kv[1..];
      assert Lacks(kv, '=') <==> Lacks(kv[1..], '=');
    }
  }

  lemma {:induction false} LabelIs(fd: Field)
    ensures Label(fd) == FieldName(fd) + "="
  {
  }

  lemma {:induction false} ClaimIsSegment(kv: string, fd: Field)
    requires Claims(kv, fd)
    ensures kv == Segment(fd, kv[|Label(fd)|..])
  {
    LabelIs(fd);
    hide Label, FieldName;
    assert kv == Label(fd) + kv[|Label(fd)|..];
  }

  lemma {:induction false} SegmentClaims(fd: Field, v: string)
    ensures Claims(Segment(fd, v), fd) && Segment(fd, v)[|Label(fd)|..] == v
  {
    LabelIs(fd);
    hide Label, FieldName;
  }

  /** A segment is bad exactly without a key, and belongs to a field exactly when it starts with its label. */
  lemma {:induction false} KindIff(kv: string, fd: Field)
    ensures KindOf(kv).Bad? <==> !Keyed(kv)
    ensures KindOf(kv).Known? && KindOf(kv).field == fd <==> Claims(kv, fd)
    ensures Claims(kv, fd) ==> KindOf(kv).value == kv[|Label(fd)|..]
  {
    SplitFails(kv);
    if KindOf(kv).Known? {
      KnownIsSegment(kv);
      SegmentClaims(KindOf(kv).field, KindOf(kv).value);
    }
    hide Label, Claims, SplitAtEq, Segment, FieldOf;
    if Claims(kv, fd) {
      ClaimIsSegment(kv, fd);
      SegmentKind(fd, kv[|Label(fd)|..]);
    }
  }

  lemma {:induction false} ToldIs(kvs: seq<string>, fd: Field)
    ensures Told(kvs, fd) == Values(kvs, fd)
  {
    hide KindOf, Claims, Label;
    if kvs != [] {
      ToldIs(kvs[..|kvs| - 1], fd);
      KindIff(kvs[|kvs| - 1], fd);
    }
  }

  lemma {:induction false} ForeignIff(kv: string)
    requires Keyed(kv)
    ensures Foreign(kv) <==> KindOf(kv).Unknown?
  {
    hide KindOf, Claims, Keyed;
    forall fd ensures KindOf(kv).Known? && KindOf(kv).field == fd <==> Claims(kv, fd) {
      KindIff(kv, fd);
    }
    KindIff(kv, RoleField);
    if KindOf(kv).Known? {
      assert Claims(kv, KindOf(kv).field);
    }
  }

  ghost predicate AllKeyed(kvs: seq<string>) {
    forall i :: 0 <= i < |kvs| ==> Keyed(kvs[i])
  }

  lemma {:induction false} RestIs(kvs: seq<string>)
    requires AllKeyed(kvs)
    ensures Rest(kvs) == Unknowns(kvs)
  {
    hide KindOf, Foreign, Keyed;
    if kvs != [] {
      RestIs(kvs[..|kvs| - 1]);
      ForeignIff(kvs[|kvs| - 1]);
    }
  }

  // ----- values -----

  predicate NamesRole(v: string, r: Role) {
    match r
    case Root => v == "root"
    case Operator => v == "operator"
    case Viewer => v == "viewer"
  }

  /** Digits, at least one, that write `n`. */
  predicate WritesNumber(v: string, n: nat, max: nat) {
    v != "" && Decimal.AllDigits(v) && Decimal.Value(v) == n <= max
  }

  /** A letter of either alphabet, or a digit from two to seven. */
  predicate IsBase32(c: char) {
    'A' <= c <= 'Z' || 'a' <= c <= 'z' || '2' <= c <= '7'
  }

  predicate WritesSecret(v: string, secret: Option<seq<byte>>) {
    if v == "" then secret == None
    else (forall i :: 0 <= i < |v| ==> IsBase32(v[i])) && secret == Base32.Decode(v)
  }

  predicate WritesFlag(v: string, b: bool) {
    if b then v == "true" else v == "false"
  }

  /** The field can be read from a value. */
  ghost predicate Legible(fd: Field, v: string) {
    match fd
    case RoleField => exists r :: NamesRole(v, r)
    case FlagsField => exists n :: WritesNumber(v, n, 0xFFFF_FFFF)
    case LastChangedField => exists n :: WritesNumber(v, n, 0xFFFF_FFFF)
    case TotpSecretField => exists secret :: WritesSecret(v, secret)
    case LockoutField => exists n :: WritesNumber(v, n, 0xFFFF_FFFF_FFFF_FFFF)
    case TotpRequiredField => exists b :: WritesFlag(v, b)
  }

  lemma {:induction false} SecretReadable(v: string)
    ensures Base32.Decode(v).Some? <==> forall i :: 0 <= i < |v| ==> IsBase32(v[i])
  {
    forall i | 0 <= i < |v| ensures IsBase32(v[i]) <==> Base32.LetterValue(v[i]).Some? {
      LetterIff(v[i]);
    }
    hide Base32.LetterValue, IsBase32;
  }

  lemma {:induction false} LetterIff(c: char)
    ensures IsBase32(c) <==> Base32.LetterValue(c).Some?
  {
  }

  lemma {:induction false} NumberReads(v: string, n: nat, max: nat)
    ensures WritesNumber(v, n, max) <==> Decimal.Within(v, max) == Some(n)
  {
    hide Decimal.Value;
  }

  lemma {:induction false} RoleReads(v: string, r: Role)
    ensures NamesRole(v, r) <==> RoleFromName(v) == Some(r)
  {
  }

  lemma {:induction false} SecretReads(v: string, secret: Option<seq<byte>>)
    ensures WritesSecret(v, secret) <==> Readable(TotpSecretField, v) && ReadSecret(v) == secret
  {
    SecretReadable(v);
    hide Base32.Decode, IsBase32;
  }

  lemma {:induction false} LegibleIff(fd: Field, v: string)
    ensures Readable(fd, v) <==> Legible(fd, v)
  {
    match fd
    case RoleField =>
      if Readable(fd, v) {
        RoleReads(v, RoleFromName(v).value);
      }
      if r :| NamesRole(v, r) {
        RoleReads(v, r);
      }
    case FlagsField => LegibleNumber(v, 0xFFFF_FFFF);
    case LastChangedField => LegibleNumber(v, 0xFFFF_FFFF);
    case LockoutField => LegibleNumber(v, 0xFFFF_FFFF_FFFF_FFFF);
    case TotpSecretField =>
      SecretReads(v, ReadSecret(v));
      if s :| WritesSecret(v, s) {
        SecretReads(v, s);
      }
    case TotpRequiredField =>
      assert WritesFlag(v, true) <==> v == "true";
      assert WritesFlag(v, false) <==> v == "false";
  }

  lemma {:induction false} LegibleNumber(v: string, max: nat)
    ensures Decimal.Within(v, max).Some? <==> exists n :: WritesNumber(v, n, max)
  {
    hide Decimal.Within;
    if Decimal.Within(v, max).Some? {
      NumberReads(v, Decimal.Within(v, max).value, max);
    }
    if n :| WritesNumber(v, n, max) {
      NumberReads(v, n, max);
    }
  }

  // ----- a whole line -----

  /** A user name and a hash of the Argon2id form. */
  ghost predicate Headed(parts: seq<string>) {
    && |parts| >= 2
    && parts[0] != "" && Lacks(parts[0], '\0') && Lacks(parts[0], '\n')
    && "$argon2id$" <= parts[1] && |Split(parts[1], '$')| == 6
  }

  /** The segments say these fields. */
  ghost predicate Say(kvs: seq<string>, e: Entry) {
    && (|Told(kvs, RoleField)| == 1 && NamesRole(Told(kvs, RoleField)[0], e.role))
    && (|Told(kvs, FlagsField)| == 1 && WritesNumber(Told(kvs, FlagsField)[0], e.flags, 0xFFFF_FFFF))
    && (|Told(kvs, LastChangedField)| == 1 && WritesNumber(Told(kvs, LastChangedField)[0], e.lastChanged, 0xFFFF_FFFF))
    && (|Told(kvs, TotpSecretField)| == 1 && WritesSecret(Told(kvs, TotpSecretField)[0], e.totpSecret))
    && (|Told(kvs, LockoutField)| == 1
        && WritesNumber(Told(kvs, LockoutField)[0], e.lockoutUntil, 0xFFFF_FFFF_FFFF_FFFF))
    && (if Told(kvs, TotpRequiredField) == [] then !e.totpRequired
        else |Told(kvs, TotpRequiredField)| == 1 && WritesFlag(Told(kvs, TotpRequiredField)[0], e.totpRequired))
  }

  /** What a line says. */
  ghost predicate Means(line: string, e: Entry) {
    var parts := Split(line, ':');
    && Headed(parts) && AllKeyed(parts[2..])
    && e.username == parts[0] && e.phc == parts[1]
    && Say(parts[2..], e) && e.trailing == Rest(parts[2..])
  }

  lemma {:induction false} HeadedIff(line: string)
    ensures var parts := Split(line, ':');
            Headed(parts) <==> |parts| >= 2 && ValidateUsername(parts[0]).None? && PhcShape(parts[1])
  {
    var parts := Split(line, ':');
    SplitLacks(line, ':');
    hide Split, Count, Lacks;
    if |parts| >= 2 {
      CountSplit(parts[1], '$');
    }
    assert Lacks(parts[0], ':');
  }

  lemma {:induction false} KeyedIff(kvs: seq<string>)
    ensures AllKeyed(kvs) <==> forall i :: 0 <= i < |kvs| ==> !KindOf(kvs[i]).Bad?
  {
    hide KindOf, Keyed, Claims;
    forall i | 0 <= i < |kvs| ensures Keyed(kvs[i]) <==> !KindOf(kvs[i]).Bad? {
      KindIff(kvs[i], RoleField);
    }
  }

  /** The segments are consistent and complete exactly when they say something, and then they say what was gathered. */
  lemma {:induction false} SayIff(kvs: seq<string>, username: string, phc: string, e: Entry)
    requires AllKeyed(kvs) && e.username == username && e.phc == phc && e.trailing == Unknowns(kvs)
    ensures Consistent(kvs) && Finish(username, phc, Gathered(kvs)) == Ok(e) <==> Say(kvs, e)
  {
    KeyedIff(kvs);
    forall fd ensures Told(kvs, fd) == Values(kvs, fd) {
      ToldIs(kvs, fd);
    }
    hide Told, Values, Unknowns, KindOf, AllKeyed, NamesRole, WritesNumber, WritesSecret, WritesFlag, RoleFromName,
      Decimal.Within, ReadSecret, Readable;
    SayOnce(kvs, e);
    SayGathered(kvs, username, phc, e);
  }

  /** Whoever says something is consistent. */
  lemma {:induction false} SayOnce(kvs: seq<string>, e: Entry)
    requires forall fd :: Told(kvs, fd) == Values(kvs, fd)
    ensures Say(kvs, e) ==> forall fd :: Once(fd, Values(kvs, fd))
  {
    hide Told, Values, Legible, Readable;
    if Say(kvs, e) {
      forall fd ensures Once(fd, Values(kvs, fd)) {
        SaidOnce(kvs, e, fd);
        if |Values(kvs, fd)| == 1 {
          LegibleIff(fd, Values(kvs, fd)[0]);
          SaidIsLegible(kvs, e, fd);
        }
      }
    }
  }

  lemma {:induction false} SaidOnce(kvs: seq<string>, e: Entry, fd: Field)
    requires Say(kvs, e)
    ensures |Told(kvs, fd)| <= 1
  {
    hide Told;
  }

  lemma {:induction false} SaidIsLegible(kvs: seq<string>, e: Entry, fd: Field)
    requires Say(kvs, e) && |Told(kvs, fd)| == 1
    ensures Legible(fd, Told(kvs, fd)[0])
  {
    hide Told, NamesRole, WritesNumber, WritesSecret, WritesFlag;
  }

  lemma {:induction false} SayGathered(kvs: seq<string>, username: string, phc: string, e: Entry)
    requires e.username == username && e.phc == phc && e.trailing == Unknowns(kvs)
    requires forall fd :: Told(kvs, fd) == Values(kvs, fd)
    ensures (forall fd :: Once(fd, Values(kvs, fd))) ==>
              (Finish(username, phc, Gathered(kvs)) == Ok(e) <==> Say(kvs, e))
  {
    hide Told, Values, Unknowns;
    if forall fd :: Once(fd, Values(kvs, fd)) {
      RoleSaid(Values(kvs, RoleField), e.role);
      NumberSaid(Values(kvs, FlagsField), e.flags, 0xFFFF_FFFF);
      NumberSaid(Values(kvs, LastChangedField), e.lastChanged, 0xFFFF_FFFF);
      NumberSaid(Values(kvs, LockoutField), e.lockoutUntil, 0xFFFF_FFFF_FFFF_FFFF);
      assert Once(TotpSecretField, Values(kvs, TotpSecretField));
      SecretSaid(Values(kvs, TotpSecretField), e.totpSecret);
      assert Once(TotpRequiredField, Values(kvs, TotpRequiredField));
      FlagSaid(Values(kvs, TotpRequiredField), e.totpRequired);
      hide NamesRole, WritesNumber, WritesSecret, WritesFlag, RoleIn, NumberIn, SecretIn, FlagIn, Once;
    }
  }

  lemma {:induction false} RoleSaid(vs: seq<string>, r: Role)
    ensures RoleIn(vs) == Some(r) <==> |vs| == 1 && NamesRole(vs[0], r)
  {
    hide RoleFromName, NamesRole;
    if |vs| == 1 {
      RoleReads(vs[0], r);
    }
  }

  lemma {:induction false} NumberSaid(vs: seq<string>, n: nat, max: nat)
    ensures NumberIn(vs, max) == Some(n) <==> |vs| == 1 && WritesNumber(vs[0], n, max)
  {
    hide Decimal.Within, WritesNumber;
    if |vs| == 1 {
      NumberReads(vs[0], n, max);
    }
  }

  lemma {:induction false} SecretSaid(vs: seq<string>, secret: Option<seq<byte>>)
    requires Once(TotpSecretField, vs)
    ensures SecretIn(vs) == Some(secret) <==> |vs| == 1 && WritesSecret(vs[0], secret)
  {
    hide ReadSecret, WritesSecret, Readable;
    if |vs| == 1 {
      SecretReads(vs[0], secret);
    }
  }

  lemma {:induction false} FlagSaid(vs: seq<string>, b: bool)
    requires Once(TotpRequiredField, vs)
    ensures (FlagIn(vs) == Some(true)) == b <==> if vs == [] then !b else |vs| == 1 && WritesFlag(vs[0], b)
  {
  }

  /** A line parses to an entry exactly when the line means the entry. */
  lemma {:induction false} ParsesTo(line: string, e: Entry)
    ensures ParseRecord(line) == Ok(e) <==> Means(line, e)
  {
    var parts := Split(line, ':');
    assert line == "" ==> parts == [""];
    HeadedIff(line);
    hide Split, Headed, ValidateUsername, PhcShape, Fold, Finish, Gathered, Consistent, Say, AllKeyed, Rest, Unknowns;
    if |parts| >= 2 {
      var kvs := parts[2..];
      FoldIsGathered(kvs);
      ConsistentKeyed(kvs);
      if AllKeyed(kvs) {
        RestIs(kvs);
        FinishTrailing(parts[0], parts[1], Gathered(kvs), kvs);
        if e.username == parts[0] && e.phc == parts[1] && e.trailing == Unknowns(kvs) {
          SayIff(kvs, parts[0], parts[1], e);
        }
      }
    }
  }

  lemma {:induction false} ConsistentKeyed(kvs: seq<string>)
    ensures Consistent(kvs) ==> AllKeyed(kvs)
  {
    hide KindOf, AllKeyed, Values;
    KeyedIff(kvs);
  }

  lemma {:induction false} FinishTrailing(username: string, phc: string, f: Fields, kvs: seq<string>)
    requires f == Gathered(kvs)
    ensures var r := Finish(username, phc, f);
            r.Ok? ==> r.value.username == username && r.value.phc == phc && r.value.trailing == Unknowns(kvs)
  {
    hide Values, Unknowns;
  }

  /** No field is told twice or illegibly, and the five mandatory ones are told. */
  ghost predicate Complete(kvs: seq<string>) {
    && (forall fd :: |Told(kvs, fd)| <= 1 && (|Told(kvs, fd)| == 1 ==> Legible(fd, Told(kvs, fd)[0])))
    && forall fd :: fd != TotpRequiredField ==> Told(kvs, fd) != []
  }

  lemma {:induction false} OnceIff(kvs: seq<string>, fd: Field)
    ensures Once(fd, Values(kvs, fd)) <==>
            |Told(kvs, fd)| <= 1 && (|Told(kvs, fd)| == 1 ==> Legible(fd, Told(kvs, fd)[0]))
  {
    hide Told, Values, Legible, Readable;
    ToldIs(kvs, fd);
    if |Values(kvs, fd)| == 1 {
      LegibleIff(fd, Values(kvs, fd)[0]);
    }
  }

  lemma {:induction false} CompleteIff(kvs: seq<string>, username: string, phc: string)
    ensures Fold(kvs).Ok? && Finish(username, phc, Fold(kvs).value).Ok? <==> AllKeyed(kvs) && Complete(kvs)
  {
    FoldIsGathered(kvs);
    KeyedIff(kvs);
    hide Fold, Finish, Gathered, AllKeyed, Told, Values, KindOf, Legible, Once;
    forall fd
      ensures Once(fd, Values(kvs, fd)) <==>
              |Told(kvs, fd)| <= 1 && (|Told(kvs, fd)| == 1 ==> Legible(fd, Told(kvs, fd)[0]))
      ensures Told(kvs, fd) == Values(kvs, fd)
    {
      OnceIff(kvs, fd);
      ToldIs(kvs, fd);
    }
    if Consistent(kvs) {
      FinishIff(kvs, username, phc);
      assert forall fd :: Once(fd, Values(kvs, fd));
      if forall fd :: Required(fd) ==> |Values(kvs, fd)| == 1 {
        forall fd | fd != TotpRequiredField ensures Told(kvs, fd) != [] {
          assert Required(fd);
        }
      }
      if forall fd :: fd != TotpRequiredField ==> Told(kvs, fd) != [] {
        forall fd | Required(fd) ensures |Values(kvs, fd)| == 1 {
          assert Told(kvs, fd) != [] && Once(fd, Values(kvs, fd));
        }
      }
    }
  }

  /** A line parses exactly when it has a user name and a hash in front, every further segment has a key, no known
      field is told twice or illegibly, and the five mandatory ones are told. */
  lemma {:induction false} ParsesIff(line: string)
    ensures var parts := Split(line, ':');
      ParseRecord(line).Ok? <==> Headed(parts) && AllKeyed(parts[2..]) && Complete(parts[2..])
  {
    var parts := Split(line, ':');
    assert line == "" ==> parts == [""];
    HeadedIff(line);
    hide Split, Headed, ValidateUsername, PhcShape, Fold, Finish, AllKeyed, Complete;
    assert Headed(parts) ==> |parts| >= 2;
    if |parts| >= 2 {
      CompleteIff(parts[2..], parts[0], parts[1]);
    }
  }

  // ----- which error comes first -----

  /** What is wrong with a segment after others. */
  ghost function Fault(before: seq<string>, kv: string): Option<ShadowError> {
    if !Keyed(kv) then Some(Truncated)
    else if Foreign(kv) then None
    else
      var fd :| Claims(kv, fd);
      if Told(before, fd) != [] then Some(DuplicateField(fd))
      else if Legible(fd, kv[|Label(fd)|..]) then None
      else if fd == RoleField then Some(UnknownRole)
      else Some(InvalidInteger(fd))
  }

  lemma {:induction false} OneClaim(kv: string, a: Field, b: Field)
    requires Claims(kv, a) && Claims(kv, b)
    ensures a == b
  {
    hide KindOf, Claims;
    KindIff(kv, a);
    KindIff(kv, b);
  }

  lemma {:induction false} StepFault(before: seq<string>, kv: string)
    requires Consistent(before)
    ensures var r := Step(Gathered(before), kv);
            (Fault(before, kv).None? <==> r.Ok?) && (r.Err? ==> Fault(before, kv) == Some(r.error))
  {
    hide KindOf, Label, Keyed, Values, Told, Legible, Readable, Gathered, Has, Set;
    KindIff(kv, RoleField);
    if Keyed(kv) {
      ForeignIff(kv);
      if !Foreign(kv) {
        var fd :| Claims(kv, fd);
        KindIff(kv, fd);
        forall g | Claims(kv, g) ensures g == fd {
          OneClaim(kv, g, fd);
        }
        assert Once(fd, Values(before, fd));
        GatheredHas(before, fd);
        ToldIs(before, fd);
        LegibleIff(fd, kv[|Label(fd)|..]);
      }
    }
  }

  /** The first segment with a fault is at `i`. */
  ghost predicate FirstFaulty(kvs: seq<string>, i: nat) {
    && i < |kvs| && Fault(kvs[..i], kvs[i]).Some?
    && forall j :: 0 <= j < i ==> Fault(kvs[..j], kvs[j]).None?
  }

  /** Reading segments fails exactly when one has a fault, with the fault of the first that has. */
  lemma {:induction false} FirstFault(kvs: seq<string>)
    ensures Fold(kvs).Err? <==> exists i :: 0 <= i < |kvs| && Fault(kvs[..i], kvs[i]).Some?
    ensures forall i: nat :: FirstFaulty(kvs, i) ==> Fold(kvs) == Err(Fault(kvs[..i], kvs[i]).value)
  {
    hide Step, Fault, Consistent, Gathered;
    if kvs != [] {
      var n := |kvs| - 1;
      var init := kvs[..n];
      FirstFault(init);
      assert forall j :: 0 <= j < n ==> init[..j] == kvs[..j] && init[j] == kvs[j];
      FoldIsGathered(init);
      if Fold(init).Ok? {
        StepFault(init, kvs[n]);
        assert forall j :: 0 <= j < n ==> Fault(init[..j], init[j]).None?;
      } else {
        var i :| 0 <= i < n && Fault(init[..i], init[i]).Some?;
        assert Fault(kvs[..i], kvs[i]).Some?;
      }
      forall i: nat | FirstFaulty(kvs, i) ensures Fold(kvs) == Err(Fault(kvs[..i], kvs[i]).value) {
        if i < n {
          assert FirstFaulty(init, i);
        } else {
          assert forall j :: 0 <= j < n ==> Fault(init[..j], init[j]).None?;
        }
      }
    }
  }

  /** The fields in the order in which they are missed. */
  const MANDATORY: seq<Field> := [RoleField, FlagsField, LastChangedField, TotpSecretField, LockoutField]

  /** The first mandatory field that is not told is the `k`-th. */
  ghost predicate FirstMissing(kvs: seq<string>, k: nat) {
    && k < |MANDATORY| && Told(kvs, MANDATORY[k]) == []
    && forall j :: 0 <= j < k ==> Told(kvs, MANDATORY[j]) != []
  }

  /** The error of a line that does not parse: the user name, the hash, the first faulty segment, and then the first
      missing field. */
  lemma {:induction false} ErrorIs(line: string)
    ensures var (r, parts) := (ParseRecord(line), Split(line, ':'));
            if line == "" then r == Err(EmptyRecord)
            else if parts[0] == "" then r == Err(EmptyUsername)
            else if !Lacks(parts[0], '\0') || !Lacks(parts[0], '\n') then r == Err(InvalidUsername)
            else if |parts| == 1 then r == Err(Truncated)
            else if !("$argon2id$" <= parts[1] && |Split(parts[1], '$')| == 6) then r == Err(MalformedPhc)
            else if Fold(parts[2..]).Err? then r == Err(Fold(parts[2..]).error)
            else forall k: nat :: FirstMissing(parts[2..], k) ==> r == Err(MissingField(MANDATORY[k]))
  {
    var parts := Split(line, ':');
    SplitLacks(line, ':');
    hide Split, Count, Lacks, Fold, Finish;
    assert Lacks(parts[0], ':');
    if |parts| >= 2 {
      CountSplit(parts[1], '$');
      if Fold(parts[2..]).Ok? {
        MissingIs(parts[2..], parts[0], parts[1]);
      }
    }
  }

  lemma {:induction false} MissingIs(kvs: seq<string>, username: string, phc: string)
    requires Fold(kvs).Ok?
    ensures forall k: nat :: FirstMissing(kvs, k) ==>
              Finish(username, phc, Fold(kvs).value) == Err(MissingField(MANDATORY[k]))
  {
    FoldIsGathered(kvs);
    var f := Gathered(kvs);
    assert Fold(kvs) == Ok(f);
    hide Fold, Values, Told, Gathered;
    forall fd ensures Has(f, fd) <==> Told(kvs, fd) != [] {
      ToldIs(kvs, fd);
      assert Once(fd, Values(kvs, fd));
      GatheredHas(kvs, fd);
    }
    hide Finish, Has;
    forall k: nat | FirstMissing(kvs, k) ensures Finish(username, phc, f) == Err(MissingField(MANDATORY[k])) {
      FinishMisses(username, phc, f, k);
    }
  }

  lemma {:induction false} FinishMisses(username: string, phc: string, f: Fields, k: nat)
    requires k < |MANDATORY| && !Has(f, MANDATORY[k]) && forall j :: 0 <= j < k ==> Has(f, MANDATORY[j])
    ensures Finish(username, phc, f) == Err(MissingField(MANDATORY[k]))
  {
    assert MANDATORY[0] == RoleField && MANDATORY[1] == FlagsField && MANDATORY[2] == LastChangedField;
    assert MANDATORY[3] == TotpSecretField && MANDATORY[4] == LockoutField;
  }
}
