/** Round trips and normal forms of the shadow file. */
module ShadowRoundTrip {
  import opened Arithmetic
  import opened Bytes
  import opened Results
  import opened Separated
  import opened ShadowSpec
  import opened ShadowLaws
  import Base32
  import Decimal

  // ----- entries that come from a record -----

  predicate AllUnknown(ts: seq<string>) {
    forall i :: 0 <= i < |ts| ==> KindOf(ts[i]).Unknown?
  }

  /** What a reader can produce from one record. */
  predicate Shaped(e: Entry) {
    && ValidateUsername(e.username).None?
    && PhcShape(e.phc) && Lacks(e.phc, ':')
    && AllUnknown(e.trailing) && AllLack(e.trailing, ':')
  }

  /** What a reader can produce from one line of a file. */
  predicate OneLine(e: Entry) {
    Lacks(e.phc, '\n') && AllLack(e.trailing, '\n')
  }

  /** An enrolled secret of no bytes reads back as no secret. */
  function Collapse(e: Entry): Entry {
    if e.totpSecret == Some([]) then e.(totpSecret := None) else e
  }

  // ----- canonical segments -----

  lemma {:induction false} FoldUnknown(kvs: seq<string>, f: Fields, ts: seq<string>)
    requires Fold(kvs) == Ok(f) && AllUnknown(ts)
    ensures Fold(kvs + ts) == Ok(f.(trailing := f.trailing + ts))
    decreases |ts|
  {
    hide KindOf, Fold;
    if ts == [] {
      assert kvs + ts == kvs && f.trailing + ts == f.trailing;
    } else {
      var init, t := ts[..|ts| - 1], ts[|ts| - 1];
      FoldUnknown(kvs, f, init);
      FoldSnoc(kvs + init, t);
      assert kvs + init + [t] == kvs + ts;
      assert f.trailing + init + [t] == f.trailing + ts;
    }
  }

  lemma {:induction false} FoldKnown(kvs: seq<string>, f: Fields, fd: Field, v: string)
    requires Fold(kvs) == Ok(f) && !Has(f, fd) && Readable(fd, v)
    ensures Fold(kvs + [Segment(fd, v)]) == Ok(Set(f, fd, v))
  {
    hide KindOf, Fold, Has, Readable, Set, Segment;
    FoldSnoc(kvs, Segment(fd, v));
    SegmentKind(fd, v);
  }

  /** Reading the canonical segments fills the fields with what their texts say. */
  lemma {:induction false} FoldMandatory(role: string, flags: string, changed: string, secret: string, lockout: string)
    requires Readable(RoleField, role) && Readable(FlagsField, flags) && Readable(LastChangedField, changed)
    requires Readable(TotpSecretField, secret) && Readable(LockoutField, lockout)
    ensures Fold(Mandatory(role, flags, changed, secret, lockout)) == Ok(Fields(
      RoleFromName(role), Decimal.Within(flags, U32_MAX), Decimal.Within(changed, U32_MAX), Some(ReadSecret(secret)),
      Decimal.Within(lockout, U64_MAX), None, []))
  {
    hide Fold, RoleFromName, Decimal.Within, ReadSecret, Base32.Decode, Segment;
    var s1, s2, s3 := Segment(RoleField, role), Segment(FlagsField, flags), Segment(LastChangedField, changed);
    var s4, s5 := Segment(TotpSecretField, secret), Segment(LockoutField, lockout);
    NothingFolded();
    FoldKnown([], NO_FIELDS, RoleField, role);
    assert [] + [s1] == [s1];
    FoldKnown([s1], Set(NO_FIELDS, RoleField, role), FlagsField, flags);
    assert [s1] + [s2] == [s1, s2];
    var f2 := Set(Set(NO_FIELDS, RoleField, role), FlagsField, flags);
    FoldKnown([s1, s2], f2, LastChangedField, changed);
    assert [s1, s2] + [s3] == [s1, s2, s3];
    var f3 := Set(f2, LastChangedField, changed);
    FoldKnown([s1, s2, s3], f3, TotpSecretField, secret);
    assert [s1, s2, s3] + [s4] == [s1, s2, s3, s4];
    FoldKnown([s1, s2, s3, s4], Set(f3, TotpSecretField, secret), LockoutField, lockout);
    assert [s1, s2, s3, s4] + [s5] == [s1, s2, s3, s4, s5];
  }

  lemma {:induction false} NothingFolded()
    ensures Fold([]) == Ok(NO_FIELDS)
  {
  }

  lemma {:induction false} FoldCanonical(m: seq<string>, f: Fields, required: bool, ts: seq<string>)
    requires Fold(m) == Ok(f) && f.totpRequired.None? && f.trailing == [] && AllUnknown(ts)
    ensures Fold(m + RequiredSegments(required) + ts)
         == Ok(f.(totpRequired := if required then Some(true) else None, trailing := ts))
  {
    hide Fold, KindOf, Segment;
    if required {
      FoldKnown(m, f, TotpRequiredField, "true");
      FoldUnknown(m + RequiredSegments(required), f.(totpRequired := Some(true)), ts);
    } else {
      assert m + [] == m;
      FoldUnknown(m, f, ts);
    }
    assert [] + ts == ts;
  }

  // ----- texts of values -----

  lemma {:induction false} RoleReads(r: Role)
    ensures RoleFromName(RoleName(r)) == Some(r)
  {
  }

  lemma {:induction false} NumberReads(n: nat, max: nat)
    requires n <= max
    ensures Decimal.Within(Decimal.Text(n), max) == Some(n)
  {
    Decimal.TextValue(n);
  }

  lemma {:induction false} EncodeEmptyIff(bytes: seq<byte>)
    ensures Base32.Encode(bytes) == "" <==> bytes == []
  {
    if bytes == [] {
    } else {
      assert Base32.ByteBits(bytes) != [];
    }
  }

  lemma {:induction false} SecretReads(secret: Option<seq<byte>>)
    ensures Readable(TotpSecretField, SecretText(secret))
    ensures ReadSecret(SecretText(secret)) == if secret == Some([]) then None else secret
  {
    if secret.Some? {
      EncodeEmptyIff(secret.value);
      Base32.DecodeEncode(secret.value);
      hide Base32.Encode, Base32.Decode;
    }
  }

  lemma {:induction false} FoldKeyValues(e: Entry)
    requires AllUnknown(e.trailing)
    ensures Fold(KeyValues(e)).Ok?
    ensures Finish(e.username, e.phc, Fold(KeyValues(e)).value) == Ok(Collapse(e))
  {
    RoleReads(e.role);
    NumberReads(e.flags, U32_MAX);
    NumberReads(e.lastChanged, U32_MAX);
    NumberReads(e.lockoutUntil, U64_MAX);
    SecretReads(e.totpSecret);
    hide Fold, RoleFromName, RoleName, Decimal.Within, Decimal.Text, ReadSecret, SecretText, AllUnknown, Mandatory,
      RequiredSegments;
    var role, flags, changed := RoleName(e.role), Decimal.Text(e.flags), Decimal.Text(e.lastChanged);
    var secret, lockout := SecretText(e.totpSecret), Decimal.Text(e.lockoutUntil);
    FoldMandatory(role, flags, changed, secret, lockout);
    var m := Mandatory(role, flags, changed, secret, lockout);
    FoldCanonical(m, Fold(m).value, e.totpRequired, e.trailing);
  }

  // ----- separators -----

  lemma {:induction false} DigitsLack(s: string, c: char)
    requires Decimal.AllDigits(s) && !Decimal.IsDigit(c)
    ensures Lacks(s, c)
  {
  }

  lemma {:induction false} LettersLack(bytes: seq<byte>, c: char)
    requires !Base32.IsUpper(c)
    ensures Lacks(Base32.Encode(bytes), c)
  {
    Base32.LettersUpper(Base32.ByteBits(bytes));
    hide Base32.Letters, Base32.ByteBits, Base32.IsUpper;
  }

  lemma {:induction false} SegmentLacks(fd: Field, v: string, c: char)
    requires Lacks(v, c) && (c == ':' || c == '\n')
    ensures Lacks(Segment(fd, v), c)
  {
    assert Lacks(FieldName(fd), c);
    hide FieldName;
    LacksConcat(FieldName(fd), "=", c);
    LacksConcat(FieldName(fd) + "=", v, c);
  }

  lemma {:induction false} KeyValuesLack(e: Entry, c: char)
    requires (c == ':' || c == '\n') && AllLack(e.trailing, c)
    ensures AllLack(KeyValues(e), c)
  {
    assert Lacks(RoleName(e.role), c);
    SegmentLacks(RoleField, RoleName(e.role), c);
    DigitsLack(Decimal.Text(e.flags), c);
    SegmentLacks(FlagsField, Decimal.Text(e.flags), c);
    DigitsLack(Decimal.Text(e.lastChanged), c);
    SegmentLacks(LastChangedField, Decimal.Text(e.lastChanged), c);
    if e.totpSecret.Some? {
      LettersLack(e.totpSecret.value, c);
    }
    SegmentLacks(TotpSecretField, SecretText(e.totpSecret), c);
    DigitsLack(Decimal.Text(e.lockoutUntil), c);
    SegmentLacks(LockoutField, Decimal.Text(e.lockoutUntil), c);
    SegmentLacks(TotpRequiredField, "true", c);
    hide Lacks, Segment, RoleName, Decimal.Text, SecretText;
  }

  lemma {:induction false} SerializedParts(e: Entry)
    requires Shaped(e)
    ensures Split(SerializeRecord(e), ':') == [e.username, e.phc] + KeyValues(e)
    ensures SerializeRecord(e) != ""
  {
    KeyValuesLack(e, ':');
    var parts := [e.username, e.phc] + KeyValues(e);
    hide KeyValues, Split, Lacks, PhcShape;
    assert AllLack(parts, ':') by {
      forall i | 0 <= i < |parts| ensures Lacks(parts[i], ':') {
        assert i >= 2 ==> parts[i] == KeyValues(e)[i - 2];
      }
    }
    SplitJoin(parts, ':');
    assert Join(parts, ':') == parts[0] + [':'] + Join(parts[1..], ':');
  }

  /** A field is among the segments after the user name and the hash. */
  predicate Written(parts: seq<string>, fd: Field) {
    exists i :: 2 <= i < |parts| && KindOf(parts[i]).Known? && KindOf(parts[i]).field == fd
  }

  lemma {:induction false} SegmentWritten(parts: seq<string>, i: nat, fd: Field, v: string)
    requires 2 <= i < |parts| && parts[i] == Segment(fd, v)
    ensures KindOf(parts[i]) == Known(fd, v) && Written(parts, fd)
  {
    hide KindOf, Segment;
    SegmentKind(fd, v);
  }

  lemma {:induction false} MandatoryWritten(parts: seq<string>, role: string, flags: string, lastChanged: string,
                                            secret: string, lockout: string)
    requires |parts| >= 7 && parts[2..7] == Mandatory(role, flags, lastChanged, secret, lockout)
    ensures forall fd :: Required(fd) ==> Written(parts, fd)
    ensures forall i :: 2 <= i < 7 ==> KindOf(parts[i]).Known? && Required(KindOf(parts[i]).field)
  {
    hide KindOf, Segment, Written;
    var m := parts[2..7];
    assert parts[2] == m[0] && parts[3] == m[1] && parts[4] == m[2] && parts[5] == m[3] && parts[6] == m[4];
    SegmentWritten(parts, 2, RoleField, role);
    SegmentWritten(parts, 3, FlagsField, flags);
    SegmentWritten(parts, 4, LastChangedField, lastChanged);
    SegmentWritten(parts, 5, TotpSecretField, secret);
    SegmentWritten(parts, 6, LockoutField, lockout);
  }

  /** The TOTP requirement is written exactly when it is set; the mandatory fields always are. */
  lemma {:induction false} RequirementWrittenIff(e: Entry)
    requires Shaped(e)
    ensures var parts := Split(SerializeRecord(e), ':');
            && (Written(parts, TotpRequiredField) <==> e.totpRequired)
            && forall fd :: Required(fd) ==> Written(parts, fd)
  {
    hide Split, SerializeRecord, KindOf, Segment, PhcShape, ValidateUsername, RoleName, Decimal.Text, SecretText,
      Mandatory;
    SerializedParts(e);
    var parts := [e.username, e.phc] + KeyValues(e);
    var flags, lastChanged := Decimal.Text(e.flags), Decimal.Text(e.lastChanged);
    var lockout := Decimal.Text(e.lockoutUntil);
    var m := Mandatory(RoleName(e.role), flags, lastChanged, SecretText(e.totpSecret), lockout);
    var more := RequiredSegments(e.totpRequired) + e.trailing;
    FiveFields(RoleName(e.role), flags, lastChanged, SecretText(e.totpSecret), lockout);
    assert parts[2..7] == m && parts[7..] == more;
    MandatoryWritten(parts, RoleName(e.role), flags, lastChanged, SecretText(e.totpSecret), lockout);
    assert forall i :: 7 <= i < |parts| ==> parts[i] == more[i - 7];
    if e.totpRequired {
      SegmentWritten(parts, 7, TotpRequiredField, "true");
    } else {
      assert more == e.trailing;
    }
  }

  lemma {:induction false} FiveFields(role: string, flags: string, lastChanged: string, secret: string, lockout: string)
    ensures |Mandatory(role, flags, lastChanged, secret, lockout)| == 5
  {
  }

  /** Every entry a reader can produce reads back from its text, up to an empty secret. */
  lemma {:induction false} RecordReadsBack(e: Entry)
    requires Shaped(e)
    ensures ParseRecord(SerializeRecord(e)) == Ok(Collapse(e))
  {
    SerializedParts(e);
    FoldKeyValues(e);
    var parts := [e.username, e.phc] + KeyValues(e);
    assert parts[2..] == KeyValues(e);
    hide KeyValues, Fold, Finish, Split, PhcShape, SerializeRecord, Collapse, ValidateUsername;
  }

  // ----- what parses -----

  /** The fields every record must have. */
  predicate Required(fd: Field) {
    !fd.TotpRequiredField?
  }

  lemma {:induction false} FinishNeeds(username: string, phc: string, f: Fields)
    ensures Finish(username, phc, f).Ok? <==> forall fd :: Required(fd) ==> Has(f, fd)
  {
    assert Required(RoleField) && Required(FlagsField) && Required(LastChangedField) && Required(TotpSecretField)
        && Required(LockoutField);
  }

  lemma {:induction false} FinishIff(kvs: seq<string>, username: string, phc: string)
    requires Consistent(kvs)
    ensures Finish(username, phc, Gathered(kvs)).Ok? <==> forall fd :: Required(fd) ==> |Values(kvs, fd)| == 1
  {
    hide Values, Gathered;
    forall fd ensures Has(Gathered(kvs), fd) <==> |Values(kvs, fd)| == 1 {
      assert Once(fd, Values(kvs, fd));
      GatheredHas(kvs, fd);
    }
    assert Required(RoleField) && Required(FlagsField) && Required(LastChangedField) && Required(TotpSecretField)
        && Required(LockoutField);
    FinishNeeds(username, phc, Gathered(kvs));
    hide Has, Finish;
  }

  // ----- what parsing produces -----

  lemma {:induction false} UnknownsAreUnknown(kvs: seq<string>)
    ensures AllUnknown(Unknowns(kvs))
    ensures forall i :: 0 <= i < |Unknowns(kvs)| ==> Unknowns(kvs)[i] in kvs
  {
    hide KindOf;
    if kvs != [] {
      UnknownsAreUnknown(kvs[..|kvs| - 1]);
    }
  }

  lemma {:induction false} FoldTrailing(kvs: seq<string>)
    requires Fold(kvs).Ok?
    ensures Fold(kvs).value.trailing == Unknowns(kvs)
  {
    FoldIsGathered(kvs);
  }

  /** What a successful parse looked at. */
  lemma {:induction false} ParsedParts(line: string)
    requires ParseRecord(line).Ok?
    ensures var parts, e := Split(line, ':'), ParseRecord(line).value;
      && |parts| >= 2 && Fold(parts[2..]).Ok? && Finish(parts[0], parts[1], Fold(parts[2..]).value) == Ok(e)
      && e.username == parts[0] && ValidateUsername(e.username).None?
      && e.phc == parts[1] && PhcShape(e.phc)
      && e.trailing == Fold(parts[2..]).value.trailing
  {
    hide Split, Fold, PhcShape, ValidateUsername;
  }

  lemma {:induction false} ParsedIsShaped(line: string)
    requires ParseRecord(line).Ok?
    ensures Shaped(ParseRecord(line).value)
    ensures Lacks(line, '\n') ==> OneLine(ParseRecord(line).value)
  {
    hide Split, Join, Fold, Unknowns, Lacks, KindOf, PhcShape, ValidateUsername, ParseRecord, Finish, AllUnknown;
    var parts := Split(line, ':');
    ParsedParts(line);
    SplitLacks(line, ':');
    JoinSplit(line, ':');
    JoinLacks(parts, ':', '\n');
    FoldTrailing(parts[2..]);
    UnknownsAreUnknown(parts[2..]);
    var e := ParseRecord(line).value;
    forall i | 0 <= i < |e.trailing|
      ensures Lacks(e.trailing[i], ':') && (Lacks(line, '\n') ==> Lacks(e.trailing[i], '\n'))
    {
      assert e.trailing[i] in parts[2..];
    }
  }

  /** Serializing what was parsed is a normal form: it parses, to an entry with the same text. */
  lemma {:induction false} NormalForm(line: string)
    requires ParseRecord(line).Ok?
    ensures var e := ParseRecord(line).value;
      && ParseRecord(SerializeRecord(e)) == Ok(Collapse(e))
      && SerializeRecord(Collapse(e)) == SerializeRecord(e)
  {
    ParsedIsShaped(line);
    RecordReadsBack(ParseRecord(line).value);
    CollapseSameText(ParseRecord(line).value);
  }

  lemma {:induction false} CollapseSameText(e: Entry)
    ensures SerializeRecord(Collapse(e)) == SerializeRecord(e)
  {
    EncodeEmptyIff([]);
    hide Join, Base32.Encode;
    assert SecretText(Collapse(e).totpSecret) == SecretText(e.totpSecret);
    assert KeyValues(Collapse(e)) == KeyValues(e);
  }

  // ----- reordering a line -----

  /** Two lines with the same user and hash and the same fields in another order read the same. */
  lemma {:induction false} ReorderedLine(line: string, other: string)
    requires line != "" && other != ""
    requires var a, b := Split(line, ':'), Split(other, ':');
      && |a| >= 2 && |b| >= 2 && a[..2] == b[..2]
      && multiset(a[2..]) == multiset(b[2..]) && Unknowns(a[2..]) == Unknowns(b[2..])
    requires ParseRecord(line).Ok?
    ensures ParseRecord(other) == ParseRecord(line)
  {
    var a, b := Split(line, ':'), Split(other, ':');
    hide Split, Fold, Unknowns, Finish, PhcShape, ValidateUsername;
    OrderDoesNotMatter(a[2..], b[2..]);
    assert a[0] == a[..2][0] == b[0] && a[1] == a[..2][1] == b[1];
  }
}
