/** The loops that read and write shadow records. */
module Shadow {
  import opened Arithmetic
  import opened Bytes
  import opened Results
  import opened Separated
  import opened ShadowSpec
  import Base32
  import Decimal
  import ShadowLaws

  method CheckUsername(u: string) returns (r: Option<ShadowError>)
    ensures r == ValidateUsername(u)
  {
    if u == "" {
      return Some(EmptyUsername);
    }
    for i := 0 to |u|
      invariant Lacks(u[..i], ':') && Lacks(u[..i], '\0') && Lacks(u[..i], '\n')
    {
      if u[i] == ':' || u[i] == '\0' || u[i] == '\n' {
        return Some(InvalidUsername);
      }
    }
    assert u[..|u|] == u;
    return None;
  }

  /** The fields a record fills in while its segments are read. */
  class Reader {
    var role: Option<Role>
    var flags: Option<u32>
    var lastChanged: Option<u32>
    var totpSecret: Option<Option<seq<byte>>>
    var lockoutUntil: Option<u64>
    var totpRequired: Option<bool>
    var trailing: seq<string>

    ghost function Contents(): Fields
      reads this
    {
      Fields(role, flags, lastChanged, totpSecret, lockoutUntil, totpRequired, trailing)
    }

    constructor ()
      ensures Contents() == NO_FIELDS
    {
      role, flags, lastChanged, totpSecret := None, None, None, None;
      lockoutUntil, totpRequired, trailing := None, None, [];
    }

    method ReadNumber(fd: Field, v: string, max: nat, taken: bool) returns (e: Option<ShadowError>, n: Option<nat>)
      ensures taken ==> e == Some(DuplicateField(fd)) && n.None?
      ensures !taken ==> n == Decimal.Within(v, max) && e == if n.None? then Some(InvalidInteger(fd)) else None
    {
      if taken {
        return Some(DuplicateField(fd)), None;
      }
      n := Decimal.ParseUnsigned(v, max);
      e := if n.None? then Some(InvalidInteger(fd)) else None;
    }

    /** One known field: a second one, or a value that cannot be read, is an error. */
    method ReadKnown(fd: Field, v: string) returns (e: Option<ShadowError>)
      modifies this
      ensures e.None? <==> !Has(old(Contents()), fd) && Readable(fd, v)
      ensures e.None? ==> Contents() == Set(old(Contents()), fd, v)
      ensures e.Some? ==> e.value == if Has(old(Contents()), fd) then DuplicateField(fd) else Unreadable(fd)
    {
      hide Decimal.Within, Base32.Decode, RoleFromName;
      var n: Option<nat>;
      match fd {
        case RoleField =>
          if role.Some? {
            return Some(DuplicateField(fd));
          }
          if RoleFromName(v).None? {
            return Some(UnknownRole);
          }
          role := RoleFromName(v);
        case FlagsField =>
          e, n := ReadNumber(fd, v, U32_MAX, flags.Some?);
          if e.Some? {
            return;
          }
          flags := n;
        case LastChangedField =>
          e, n := ReadNumber(fd, v, U32_MAX, lastChanged.Some?);
          if e.Some? {
            return;
          }
          lastChanged := n;
        case TotpSecretField =>
          if totpSecret.Some? {
            return Some(DuplicateField(fd));
          }
          if v == "" {
            totpSecret := Some(None);
          } else {
            var secret := Base32.DecodeBase32(v);
            if secret.None? {
              return Some(InvalidInteger(fd));
            }
            totpSecret := Some(secret);
          }
        case LockoutField =>
          e, n := ReadNumber(fd, v, U64_MAX, lockoutUntil.Some?);
          if e.Some? {
            return;
          }
          lockoutUntil := n;
        case TotpRequiredField =>
          if totpRequired.Some? {
            return Some(DuplicateField(fd));
          }
          if v != "true" && v != "false" {
            return Some(InvalidInteger(fd));
          }
          totpRequired := Some(v == "true");
      }
      return None;
    }

    method ReadSegment(kv: string) returns (e: Option<ShadowError>)
      modifies this
      ensures match Step(old(Contents()), kv)
        case Ok(f) => e.None? && Contents() == f
        case Err(x) => e == Some(x)
    {
      hide KindOf, Has, Readable, Set, Unreadable;
      var kind := KindOf(kv);
      match kind {
        case Bad => return Some(Truncated);
        case Unknown =>
          trailing := trailing + [kv];
          return None;
        case Known(fd, v) =>
          e := ReadKnown(fd, v);
      }
    }
  }

  method ReadRecord(line: string) returns (r: Result<Entry, ShadowError>)
    ensures r == ParseRecord(line)
  {
    hide Split, Fold, Step, PhcShape, ValidateUsername;
    if line == "" {
      return Err(EmptyRecord);
    }
    var parts := Split(line, ':');
    var bad := CheckUsername(parts[0]);
    if bad.Some? {
      return Err(bad.value);
    }
    if |parts| == 1 {
      return Err(Truncated);
    }
    if !PhcShape(parts[1]) {
      return Err(MalformedPhc);
    }
    var kvs := parts[2..];
    var reader, e := ReadSegments(kvs);
    if e.Some? {
      return Err(e.value);
    }
    var f := Fields(reader.role, reader.flags, reader.lastChanged, reader.totpSecret, reader.lockoutUntil,
                    reader.totpRequired, reader.trailing);
    return Finish(parts[0], parts[1], f);
  }

  method ReadSegments(kvs: seq<string>) returns (reader: Reader, e: Option<ShadowError>)
    ensures fresh(reader)
    ensures match Fold(kvs)
      case Ok(f) => e.None? && reader.Contents() == f
      case Err(x) => e == Some(x)
  {
    hide Step;
    reader := new Reader();
    e := None;
    assert kvs[..0] == [];
    for i := 0 to |kvs|
      invariant fresh(reader)
      invariant Fold(kvs[..i]) == Ok(reader.Contents())
    {
      ghost var before := reader.Contents();
      ShadowLaws.FoldSnoc(kvs[..i], kvs[i]);
      assert kvs[..i] + [kvs[i]] == kvs[..i + 1];
      e := reader.ReadSegment(kvs[i]);
      if e.Some? {
        FoldStopped(kvs, i + 1, e.value);
        return;
      }
    }
    assert kvs[..|kvs|] == kvs;
    e := None;
  }

  /** An error ends the fold. */
  lemma {:induction false} FoldStopped(kvs: seq<string>, k: nat, x: ShadowError)
    requires k <= |kvs| && Fold(kvs[..k]) == Err(x)
    ensures Fold(kvs) == Err(x)
    decreases |kvs| - k
  {
    hide Step;
    if k == |kvs| {
      assert kvs[..k] == kvs;
    } else {
      ShadowLaws.FoldSnoc(kvs[..k], kvs[k]);
      assert kvs[..k] + [kvs[k]] == kvs[..k + 1];
      FoldStopped(kvs, k + 1, x);
    }
  }

  lemma {:induction false} LinesPrefix(lines: seq<string>, k: nat)
    requires k < |lines|
    ensures ParseLines(lines[k..]) ==
      if lines[k] == "" then ParseLines(lines[k + 1..])
      else
        match ParseRecord(lines[k])
        case Err(e) => Err(e)
        case Ok(e) =>
          match ParseLines(lines[k + 1..])
          case Err(x) => Err(x)
          case Ok(es) => Ok([e] + es)
  {
    hide ParseRecord;
    assert lines[k..][1..] == lines[k + 1..];
  }

  function Behind(out: seq<Entry>, r: Result<seq<Entry>, ShadowError>): Result<seq<Entry>, ShadowError> {
    if r.Ok? then Ok(out + r.value) else r
  }

  method ReadFile(content: string) returns (r: Result<seq<Entry>, ShadowError>)
    ensures r == ParseFile(content)
  {
    hide Split, ParseRecord, ParseLines;
    var lines := Split(content, '\n');
    var out: seq<Entry> := [];
    assert lines[0..] == lines;
    BehindNothing(ParseLines(lines));
    for i := 0 to |lines|
      invariant ParseLines(lines) == Behind(out, ParseLines(lines[i..]))
    {
      LinesPrefix(lines, i);
      if lines[i] != "" {
        var e := ReadRecord(lines[i]);
        if e.Err? {
          return Err(e.error);
        }
        BehindOne(out, e.value, ParseLines(lines[i + 1..]));
        out := out + [e.value];
      }
    }
    assert lines[|lines|..] == [];
    NoLines();
    assert out + [] == out;
    return Ok(out);
  }

  lemma {:induction false} NoLines()
    ensures ParseLines([]) == Ok([])
  {
  }

  lemma {:induction false} BehindNothing(r: Result<seq<Entry>, ShadowError>)
    ensures Behind([], r) == r
  {
    if r.Ok? {
      assert [] + r.value == r.value;
    }
  }

  lemma {:induction false} BehindOne(out: seq<Entry>, e: Entry, r: Result<seq<Entry>, ShadowError>)
    ensures r.Ok? ==> Behind(out, Ok([e] + r.value)) == Behind(out + [e], r)
  {
    if r.Ok? {
      assert out + ([e] + r.value) == out + [e] + r.value;
    }
  }

  // ----- writing -----

  /** Append the unknown fields, each behind a colon. */
  method PushTrailing(out: string, ts: seq<string>) returns (r: string)
    ensures r == out + Tail(ts)
  {
    r := out;
    assert ts[0..] == ts;
    for i := 0 to |ts|
      invariant r + Tail(ts[i..]) == out + Tail(ts)
    {
      assert ts[i..][1..] == ts[i + 1..];
      r := r + ":" + ts[i];
    }
    assert ts[|ts|..] == [];
  }

  /** The parts of a record after the first, each behind a colon. */
  function Tail(parts: seq<string>): string {
    if parts == [] then "" else ":" + parts[0] + Tail(parts[1..])
  }

  lemma {:induction false} JoinIsTail(p: string, parts: seq<string>)
    ensures Join([p] + parts, ':') == p + Tail(parts)
    decreases |parts|
  {
    assert ([p] + parts)[1..] == parts;
    if parts != [] {
      JoinIsTail(parts[0], parts[1..]);
      assert [parts[0]] + parts[1..] == parts;
      assert p + [':'] + (parts[0] + Tail(parts[1..])) == p + (":" + parts[0] + Tail(parts[1..]));
    } else {
      assert p + "" == p;
    }
  }

  lemma {:induction false} TailConcat(a: seq<string>, b: seq<string>)
    ensures Tail(a + b) == Tail(a) + Tail(b)
  {
    if a == [] {
      assert a + b == b;
    } else {
      assert (a + b)[1..] == a[1..] + b;
      TailConcat(a[1..], b);
    }
  }

  /** A record is its user name and then every other part behind a colon. */
  lemma {:induction false} RecordIsTail(e: Entry, m: seq<string>)
    requires KeyValues(e) == m + RequiredSegments(e.totpRequired) + e.trailing
    ensures SerializeRecord(e)
            == e.username + ":" + e.phc + Tail(m) + Tail(RequiredSegments(e.totpRequired)) + Tail(e.trailing)
  {
    hide KeyValues, RequiredSegments;
    var required := RequiredSegments(e.totpRequired);
    assert [e.username, e.phc] + KeyValues(e) == [e.username] + ([e.phc] + KeyValues(e));
    JoinIsTail(e.username, [e.phc] + KeyValues(e));
    assert ([e.phc] + KeyValues(e))[1..] == KeyValues(e);
    TailConcat(m + required, e.trailing);
    TailConcat(m, required);
  }

  /** The mandatory fields as they are appended. */
  function MandatoryText(e: Entry): string {
    ":role=" + RoleName(e.role) + (":flags=" + Decimal.Text(e.flags)) + (":last_changed=" + Decimal.Text(e.lastChanged))
    + (":totp_secret=" + SecretText(e.totpSecret)) + (":lockout_until=" + Decimal.Text(e.lockoutUntil))
  }

  lemma {:induction false} TailFive(a: string, b: string, c: string, d: string, f: string)
    ensures Tail([a, b, c, d, f]) == ":" + a + (":" + b) + (":" + c) + (":" + d) + (":" + f)
  {
    assert [a, b, c, d, f][1..] == [b, c, d, f];
    assert [b, c, d, f][1..] == [c, d, f];
    assert [c, d, f][1..] == [d, f];
    assert [d, f][1..] == [f];
    assert [f][1..] == [];
    assert Tail([f]) == ":" + f;
    assert Tail([d, f]) == ":" + d + (":" + f);
    assert Tail([c, d, f]) == ":" + c + (":" + d) + (":" + f);
    assert Tail([b, c, d, f]) == ":" + b + (":" + c) + (":" + d) + (":" + f);
  }

  lemma {:induction false} SegmentText(fd: Field, v: string)
    ensures ":" + Segment(fd, v) == match fd
      case RoleField => ":role=" + v
      case FlagsField => ":flags=" + v
      case LastChangedField => ":last_changed=" + v
      case TotpSecretField => ":totp_secret=" + v
      case LockoutField => ":lockout_until=" + v
      case TotpRequiredField => ":totp_required=" + v
  {
    assert ":" + ("role" + "=" + v) == ":role=" + v;
    assert ":" + ("flags" + "=" + v) == ":flags=" + v;
    assert ":" + ("last_changed" + "=" + v) == ":last_changed=" + v;
    assert ":" + ("totp_secret" + "=" + v) == ":totp_secret=" + v;
    assert ":" + ("lockout_until" + "=" + v) == ":lockout_until=" + v;
    assert ":" + ("totp_required" + "=" + v) == ":totp_required=" + v;
  }

  lemma {:induction false} MandatoryIsTail(e: Entry)
    ensures MandatoryText(e) == Tail(Mandatory(RoleName(e.role), Decimal.Text(e.flags), Decimal.Text(e.lastChanged),
                                               SecretText(e.totpSecret), Decimal.Text(e.lockoutUntil)))
  {
    hide Tail, Segment, RoleName, Decimal.Text, SecretText;
    var role, flags, changed := RoleName(e.role), Decimal.Text(e.flags), Decimal.Text(e.lastChanged);
    var secret, lockout := SecretText(e.totpSecret), Decimal.Text(e.lockoutUntil);
    TailFive(Segment(RoleField, role), Segment(FlagsField, flags), Segment(LastChangedField, changed),
             Segment(TotpSecretField, secret), Segment(LockoutField, lockout));
    SegmentText(RoleField, role);
    SegmentText(FlagsField, flags);
    SegmentText(LastChangedField, changed);
    SegmentText(TotpSecretField, secret);
    SegmentText(LockoutField, lockout);
  }

  lemma {:induction false} RequiredIsTail(required: bool)
    ensures Tail(RequiredSegments(required)) == if required then ":totp_required=true" else ""
  {
    SegmentText(TotpRequiredField, "true");
    hide Segment;
    assert [Segment(TotpRequiredField, "true")][1..] == [];
    assert ":totp_required=" + "true" == ":totp_required=true";
  }

  method PushNumber(out: string, prefix: string, n: nat, width: nat) returns (r: string)
    requires n < Decimal.Pow10(width)
    ensures r == out + (prefix + Decimal.Text(n))
  {
    hide Decimal.Text, Decimal.Pow10;
    r := Decimal.PushDecimal(out + prefix, n, width);
  }

  method PushSecret(out: string, secret: Option<seq<byte>>) returns (r: string)
    ensures r == out + (":totp_secret=" + SecretText(secret))
  {
    hide Base32.Encode;
    r := out + ":totp_secret=";
    if secret.Some? {
      r := Base32.PushBase32(r, secret.value);
    }
  }

  lemma {:induction false} Regroup(out: string, a: string, b: string, c: string, d: string, e: string)
    ensures out + a + b + c + d + e == out + (a + b + c + d + e)
  {
  }

  /** Append the mandatory fields. */
  method PushMandatory(out: string, e: Entry) returns (r: string)
    ensures r == out + MandatoryText(e)
  {
    hide Decimal.Text, SecretText, RoleName, Decimal.Pow10;
    Decimal.Widths();
    var role := ":role=" + RoleName(e.role);
    r := out + role;
    r := PushNumber(r, ":flags=", e.flags, 10);
    r := PushNumber(r, ":last_changed=", e.lastChanged, 10);
    r := PushSecret(r, e.totpSecret);
    r := PushNumber(r, ":lockout_until=", e.lockoutUntil, 20);
    Regroup(out, role, ":flags=" + Decimal.Text(e.flags), ":last_changed=" + Decimal.Text(e.lastChanged),
            ":totp_secret=" + SecretText(e.totpSecret), ":lockout_until=" + Decimal.Text(e.lockoutUntil));
  }

  method WriteRecord(e: Entry) returns (out: string)
    ensures out == SerializeRecord(e)
  {
    hide RequiredSegments, SerializeRecord, Tail, MandatoryText, Mandatory, Decimal.Text, RoleName, SecretText;
    out := PushMandatory(e.username + ":" + e.phc, e);
    if e.totpRequired {
      out := out + ":totp_required=true";
    }
    out := PushTrailing(out, e.trailing);
    MandatoryIsTail(e);
    RequiredIsTail(e.totpRequired);
    RecordIsTail(e, Mandatory(RoleName(e.role), Decimal.Text(e.flags), Decimal.Text(e.lastChanged),
                              SecretText(e.totpSecret), Decimal.Text(e.lockoutUntil)));
  }

  lemma {:induction false} FileSnoc(es: seq<Entry>, e: Entry)
    ensures SerializeFile(es + [e]) == SerializeFile(es) + SerializeRecord(e) + "\n"
  {
    hide SerializeRecord;
    if es == [] {
      assert es + [e] == [e];
      assert [e][1..] == [];
    } else {
      assert (es + [e])[1..] == es[1..] + [e];
      FileSnoc(es[1..], e);
    }
  }

  method WriteFile(es: seq<Entry>) returns (out: string)
    ensures out == SerializeFile(es)
  {
    hide SerializeRecord;
    out := "";
    assert es[..0] == [];
    for i := 0 to |es|
      invariant out == SerializeFile(es[..i])
    {
      FileSnoc(es[..i], es[i]);
      assert es[..i] + [es[i]] == es[..i + 1];
      var line := WriteRecord(es[i]);
      out := out + line + "\n";
    }
    assert es[..|es|] == es;
  }
}
