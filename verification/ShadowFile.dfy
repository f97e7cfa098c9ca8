/** Whole shadow files, and the lines that survive a rewrite unchanged. */
module ShadowFile {
  import opened Arithmetic
  import opened Bytes
  import opened Results
  import opened Separated
  import opened ShadowSpec
  import opened ShadowLaws
  import opened ShadowRoundTrip
  import Base32
  import Decimal

  predicate WellFormed(e: Entry) {
    Shaped(e) && OneLine(e) && e.totpSecret != Some([])
  }

  lemma {:induction false} SerializedIsOneLine(e: Entry)
    requires Shaped(e) && OneLine(e)
    ensures Lacks(SerializeRecord(e), '\n')
  {
    KeyValuesLack(e, '\n');
    var parts := [e.username, e.phc] + KeyValues(e);
    hide KeyValues, Lacks, PhcShape;
    assert AllLack(parts, '\n') by {
      forall i | 0 <= i < |parts| ensures Lacks(parts[i], '\n') {
        assert i >= 2 ==> parts[i] == KeyValues(e)[i - 2];
      }
    }
    JoinLacks(parts, ':', '\n');
  }

  function Texts(es: seq<Entry>): (lines: seq<string>)
    ensures |lines| == |es|
  {
    if es == [] then [] else [SerializeRecord(es[0])] + Texts(es[1..])
  }

  predicate AllOneLine(es: seq<Entry>) {
    forall i :: 0 <= i < |es| ==> Shaped(es[i]) && OneLine(es[i])
  }

  lemma {:induction false} FileLines(es: seq<Entry>)
    requires AllOneLine(es)
    ensures Split(SerializeFile(es), '\n') == Texts(es) + [""]
  {
    hide SerializeRecord, Shaped, OneLine, Lacks;
    if es == [] {
      SplitNothing();
    } else {
      FileLines(es[1..]);
      SerializedIsOneLine(es[0]);
      hide Split;
      SplitFirst(SerializeRecord(es[0]), '\n', SerializeFile(es[1..]));
      assert [SerializeRecord(es[0])] + (Texts(es[1..]) + [""]) == Texts(es) + [""];
    }
  }

  lemma {:induction false} SplitNothing()
    ensures Split("", '\n') == [""]
  {
  }

  /** Reading the lines of entries gives each entry back, up to empty secrets. */
  function Collapsed(es: seq<Entry>): (cs: seq<Entry>)
    ensures |cs| == |es|
  {
    if es == [] then [] else [Collapse(es[0])] + Collapsed(es[1..])
  }

  lemma {:induction false} TextsRead(es: seq<Entry>)
    requires AllOneLine(es)
    ensures ParseLines(Texts(es) + [""]) == Ok(Collapsed(es))
  {
    hide SerializeRecord, ParseRecord, Collapse, Shaped, OneLine;
    var lines := Texts(es) + [""];
    if es == [] {
      assert lines == [""];
      assert [""][1..] == [];
    } else {
      TextsRead(es[1..]);
      RecordReadsBack(es[0]);
      SerializedParts(es[0]);
      assert lines[0] == SerializeRecord(es[0]);
      assert lines[1..] == Texts(es[1..]) + [""];
    }
  }

  lemma {:induction false} LinesShaped(lines: seq<string>)
    requires AllLack(lines, '\n') && ParseLines(lines).Ok?
    ensures AllOneLine(ParseLines(lines).value)
  {
    hide Shaped, OneLine, Lacks, ParseRecord;
    if lines != [] {
      assert AllLack(lines[1..], '\n');
      LinesShaped(lines[1..]);
      if lines[0] != "" {
        ParsedIsShaped(lines[0]);
      }
    }
  }

  lemma {:induction false} CollapsedIff(es: seq<Entry>)
    ensures Collapsed(es) == es <==> forall i :: 0 <= i < |es| ==> es[i].totpSecret != Some([])
  {
    if es != [] {
      CollapsedIff(es[1..]);
      assert es == [es[0]] + es[1..];
      assert Collapsed(es)[1..] == Collapsed(es[1..]);
      if forall i :: 0 <= i < |es| ==> es[i].totpSecret != Some([]) {
        assert es[0].totpSecret != Some([]);
      }
      if Collapsed(es) == es {
        assert Collapsed(es)[0] == es[0];
        assert Collapsed(es[1..]) == es[1..];
        assert forall i :: 0 < i < |es| ==> es[i] == es[1..][i - 1];
      }
    }
  }

  /** A list of entries reads back unchanged from its file exactly when every entry is well formed. */
  lemma {:induction false} FileRoundTripIff(es: seq<Entry>)
    ensures ParseFile(SerializeFile(es)) == Ok(es) <==> forall i :: 0 <= i < |es| ==> WellFormed(es[i])
  {
    hide SerializeFile, Shaped, OneLine, Split, ParseLines;
    if ParseFile(SerializeFile(es)) == Ok(es) {
      SplitLacks(SerializeFile(es), '\n');
      LinesShaped(Split(SerializeFile(es), '\n'));
    }
    if AllOneLine(es) {
      FileLines(es);
      TextsRead(es);
      CollapsedIff(es);
    }
  }

  // ----- lines that survive a rewrite -----

  predicate Gives(kv: string, fd: Field) {
    KindOf(kv).Known? && KindOf(kv).field == fd
  }

  /** The mandatory fields in order with canonical values, then perhaps the TOTP requirement, then unknown fields. */
  predicate CanonicalSegments(kvs: seq<string>) {
    && |kvs| >= 5
    && Gives(kvs[0], RoleField)
    && Gives(kvs[1], FlagsField) && Decimal.Canonical(KindOf(kvs[1]).value)
    && Gives(kvs[2], LastChangedField) && Decimal.Canonical(KindOf(kvs[2]).value)
    && Gives(kvs[3], TotpSecretField) && Base32.Canonical(KindOf(kvs[3]).value)
    && Gives(kvs[4], LockoutField) && Decimal.Canonical(KindOf(kvs[4]).value)
    && if |kvs| >= 6 && Gives(kvs[5], TotpRequiredField)
       then KindOf(kvs[5]).value == "true" && AllUnknown(kvs[6..])
       else AllUnknown(kvs[5..])
  }

  lemma {:induction false} SecretCanonical(secret: Option<seq<byte>>)
    ensures Base32.Canonical(SecretText(secret))
  {
    if secret.Some? {
      Base32.DecodeEncode(secret.value);
      Base32.EncodeDecodeIff(Base32.Encode(secret.value));
    }
  }

  lemma {:induction false} SecretReturns(v: string)
    requires Readable(TotpSecretField, v) && Base32.Canonical(v)
    ensures SecretText(ReadSecret(v)) == v
  {
    if v != "" {
      Base32.EncodeDecodeIff(v);
    }
  }

  lemma {:induction false} NumberReturns(v: string, max: nat)
    requires Decimal.Within(v, max).Some? && Decimal.Canonical(v)
    ensures Decimal.Text(Decimal.Within(v, max).value) == v
  {
    Decimal.ValueTextIff(v);
  }

  lemma {:induction false} RoleReturns(v: string)
    requires RoleFromName(v).Some?
    ensures RoleName(RoleFromName(v).value) == v
  {
  }

  /** What is written is canonical. */
  lemma {:induction false} WrittenIsCanonical(e: Entry)
    requires AllUnknown(e.trailing)
    ensures CanonicalSegments(KeyValues(e))
  {
    hide KindOf, Decimal.Canonical, Base32.Canonical, RoleName, Decimal.Text, SecretText, Segment;
    var kvs := KeyValues(e);
    SegmentKind(RoleField, RoleName(e.role));
    SegmentKind(FlagsField, Decimal.Text(e.flags));
    SegmentKind(LastChangedField, Decimal.Text(e.lastChanged));
    SegmentKind(TotpSecretField, SecretText(e.totpSecret));
    SegmentKind(LockoutField, Decimal.Text(e.lockoutUntil));
    SegmentKind(TotpRequiredField, "true");
    Decimal.TextCanonical(e.flags);
    Decimal.TextCanonical(e.lastChanged);
    Decimal.TextCanonical(e.lockoutUntil);
    SecretCanonical(e.totpSecret);
    if e.totpRequired {
      assert kvs[6..] == e.trailing;
    } else {
      assert kvs[5..] == e.trailing;
      assert |kvs| >= 6 ==> kvs[5] == e.trailing[0];
    }
  }

  lemma {:induction false} ValueGiven(kvs: seq<string>, i: nat)
    requires i < |kvs| && KindOf(kvs[i]).Known?
    ensures KindOf(kvs[i]).value in Values(kvs, KindOf(kvs[i]).field)
  {
    hide KindOf;
    if i < |kvs| - 1 {
      ValueGiven(kvs[..|kvs| - 1], i);
    }
  }

  lemma {:induction false} GivenIsReadable(kvs: seq<string>, i: nat)
    requires i < |kvs| && KindOf(kvs[i]).Known? && Fold(kvs).Ok?
    ensures Readable(KindOf(kvs[i]).field, KindOf(kvs[i]).value)
    ensures kvs[i] == Segment(KindOf(kvs[i]).field, KindOf(kvs[i]).value)
  {
    KnownIsSegment(kvs[i]);
    ValueGiven(kvs, i);
    FoldIsGathered(kvs);
    hide KindOf, Values, Readable, Fold, Segment;
    var fd := KindOf(kvs[i]).field;
    assert Once(fd, Values(kvs, fd));
  }

  /** Canonical segments are the mandatory ones, the optional one and the rest. */
  lemma {:induction false} CanonicalShape(kvs: seq<string>) returns (vs: seq<string>, required: bool, ts: seq<string>)
    requires CanonicalSegments(kvs) && Fold(kvs).Ok?
    ensures |vs| == 5 && AllUnknown(ts)
    ensures kvs == Mandatory(vs[0], vs[1], vs[2], vs[3], vs[4]) + RequiredSegments(required) + ts
    ensures Readable(RoleField, vs[0])
    ensures Readable(FlagsField, vs[1]) && Decimal.Canonical(vs[1])
    ensures Readable(LastChangedField, vs[2]) && Decimal.Canonical(vs[2])
    ensures Readable(TotpSecretField, vs[3]) && Base32.Canonical(vs[3])
    ensures Readable(LockoutField, vs[4]) && Decimal.Canonical(vs[4])
  {
    hide KindOf, Readable, Fold, Segment, Decimal.Canonical, Base32.Canonical, AllUnknown;
    vs := seq(5, i requires 0 <= i < 5 => if KindOf(kvs[i]).Known? then KindOf(kvs[i]).value else "");
    GivenIsReadable(kvs, 0);
    GivenIsReadable(kvs, 1);
    GivenIsReadable(kvs, 2);
    GivenIsReadable(kvs, 3);
    GivenIsReadable(kvs, 4);
    required := |kvs| >= 6 && Gives(kvs[5], TotpRequiredField);
    if required {
      GivenIsReadable(kvs, 5);
      ts := kvs[6..];
    } else {
      ts := kvs[5..];
    }
  }

  lemma {:induction false} CanonicalReturns(kvs: seq<string>, username: string, phc: string)
    requires CanonicalSegments(kvs) && Fold(kvs).Ok? && Finish(username, phc, Fold(kvs).value).Ok?
    ensures KeyValues(Finish(username, phc, Fold(kvs).value).value) == kvs
  {
    var vs, required, ts := CanonicalShape(kvs);
    FoldMandatory(vs[0], vs[1], vs[2], vs[3], vs[4]);
    var m := Mandatory(vs[0], vs[1], vs[2], vs[3], vs[4]);
    hide Fold, Mandatory, RequiredSegments, Decimal.Within, Decimal.Canonical, Base32.Canonical, RoleFromName,
      ReadSecret;
    FoldCanonical(m, Fold(m).value, required, ts);
    RoleReturns(vs[0]);
    NumberReturns(vs[1], U32_MAX);
    NumberReturns(vs[2], U32_MAX);
    SecretReturns(vs[3]);
    NumberReturns(vs[4], U64_MAX);
  }

  /** A record comes back letter for letter from a parse and a rewrite exactly when it was written canonically. */
  lemma {:induction false} RewriteIsIdentityIff(line: string)
    requires ParseRecord(line).Ok?
    ensures |Split(line, ':')| >= 2
    ensures SerializeRecord(ParseRecord(line).value) == line <==> CanonicalSegments(Split(line, ':')[2..])
  {
    hide ParseRecord, Split, Join, Fold, Finish, KeyValues, CanonicalSegments;
    ParsedParts(line);
    var parts := Split(line, ':');
    var kvs := parts[2..];
    var e := ParseRecord(line).value;
    ParsedIsShaped(line);
    SerializedParts(e);
    JoinSplit(line, ':');
    assert parts == [parts[0], parts[1]] + kvs;
    if CanonicalSegments(kvs) {
      CanonicalReturns(kvs, parts[0], parts[1]);
    }
    if SerializeRecord(e) == line {
      assert kvs == KeyValues(e);
      WrittenIsCanonical(e);
    }
  }

  lemma {:induction false} CountConcat(a: string, b: string, c: char)
    ensures Count(a + b, c) == Count(a, c) + Count(b, c)
  {
    if a == "" {
      assert a + b == b;
    } else {
      assert (a + b)[1..] == a[1..] + b;
      CountConcat(a[1..], b, c);
    }
  }

  lemma {:induction false} CountLacking(s: string, c: char)
    requires Lacks(s, c)
    ensures Count(s, c) == 0
  {
    if s != "" {
      CountLacking(s[1..], c);
    }
  }

  const SAMPLE_PHC: string := "$" + "argon2id" + "$" + "$$$"

  lemma {:induction false} SamplePhc()
    ensures PhcShape(SAMPLE_PHC) && Lacks(SAMPLE_PHC, ':')
  {
    CountConcat("$" + "argon2id" + "$", "$$$", '$');
    CountConcat("$" + "argon2id", "$", '$');
    CountConcat("$", "argon2id", '$');
    CountLacking("argon2id", '$');
    assert Count("$", '$') == 1;
    CountConcat("$$", "$", '$');
    CountConcat("$", "$", '$');
    assert "$$" + "$" == "$$$" && "$" + "$" == "$$";
    assert "$argon2id$" == "$" + "argon2id" + "$";
  }

  lemma {:induction false} SampleLacks(kvs: seq<string>)
    requires kvs == Mandatory("root", "00", "0", "", "0")
    ensures AllLack(["u", SAMPLE_PHC] + kvs, ':')
  {
    SamplePhc();
    SegmentLacks(RoleField, "root", ':');
    SegmentLacks(FlagsField, "00", ':');
    SegmentLacks(LastChangedField, "0", ':');
    SegmentLacks(TotpSecretField, "", ':');
    SegmentLacks(LockoutField, "0", ':');
    assert Lacks("u", ':');
    hide Lacks, Segment;
  }

  lemma {:induction false} ZerosRead()
    ensures Decimal.Within("00", U32_MAX) == Some(0)
    ensures Decimal.Within("0", U32_MAX) == Some(0) && Decimal.Within("0", U64_MAX) == Some(0)
    ensures !Decimal.Canonical("00")
  {
    assert "0"[..0] == "" && "00"[..1] == "0";
  }

  lemma {:induction false} SampleParses(kvs: seq<string>)
    requires kvs == Mandatory("root", "00", "0", "", "0")
    ensures ParseParts(["u", SAMPLE_PHC] + kvs).Ok?
  {
    SamplePhc();
    ZerosRead();
    assert ValidateUsername("u").None?;
    FoldMandatory("root", "00", "0", "", "0");
    var parts := ["u", SAMPLE_PHC] + kvs;
    hide Fold, PhcShape, ValidateUsername, Mandatory;
    assert parts[2..] == kvs;
  }

  /** A record with a leading zero parses, and is rewritten to a different text. */
  lemma {:induction false} LeadingZeroIsRewritten() returns (line: string)
    ensures ParseRecord(line).Ok? && SerializeRecord(ParseRecord(line).value) != line
  {
    var kvs := Mandatory("root", "00", "0", "", "0");
    var parts := ["u", SAMPLE_PHC] + kvs;
    line := Join(parts, ':');
    assert line == "u" + [':'] + Join(parts[1..], ':');
    SampleLacks(kvs);
    SampleParses(kvs);
    SegmentKind(FlagsField, "00");
    ZerosRead();
    hide Split, Join, ParseParts, KindOf, Segment, Decimal.Canonical;
    SplitJoin(parts, ':');
    RewriteIsIdentityIff(line);
    assert parts[2..] == kvs;
    assert kvs[1] == Segment(FlagsField, "00");
  }
}
