/** The shadow file: records, their text, and the reader. */
module ShadowSpec {
  import opened Arithmetic
  import opened Bytes
  import opened Results
  import opened Separated
  import Base32
  import Decimal

  type u32 = x: nat | x <= U32_MAX

  datatype Role = Root | Operator | Viewer

  datatype Entry = Entry(
    username: string,
    phc: string,
    role: Role,
    flags: u32,
    lastChanged: u32,
    totpSecret: Option<seq<byte>>,
    lockoutUntil: u64,
    totpRequired: bool,
    trailing: seq<string>)

  /** The fields a reader knows. */
  datatype Field = RoleField | FlagsField | LastChangedField | TotpSecretField | LockoutField | TotpRequiredField

  datatype ShadowError =
    | Truncated
    | MalformedPhc
    | UnknownRole
    | MissingField(field: Field)
    | InvalidInteger(field: Field)
    | DuplicateField(field: Field)
    | EmptyUsername
    | InvalidUsername
    | EmptyRecord

  function RoleName(r: Role): string {
    match r
    case Root => "root"
    case Operator => "operator"
    case Viewer => "viewer"
  }

  function RoleFromName(s: string): Option<Role> {
    if s == "root" then Some(Root)
    else if s == "operator" then Some(Operator)
    else if s == "viewer" then Some(Viewer)
    else None
  }

  function FieldName(f: Field): string {
    match f
    case RoleField => "role"
    case FlagsField => "flags"
    case LastChangedField => "last_changed"
    case TotpSecretField => "totp_secret"
    case LockoutField => "lockout_until"
    case TotpRequiredField => "totp_required"
  }

  function FieldOf(key: string): Option<Field> {
    if key == "role" then Some(RoleField)
    else if key == "flags" then Some(FlagsField)
    else if key == "last_changed" then Some(LastChangedField)
    else if key == "totp_secret" then Some(TotpSecretField)
    else if key == "lockout_until" then Some(LockoutField)
    else if key == "totp_required" then Some(TotpRequiredField)
    else None
  }

  // ----- key=value segments -----

  datatype Pair = Pair(key: string, value: string)

  /** The text around the first equals sign. */
  function SplitAtEq(s: string): Option<Pair> {
    if s == "" then None
    else if s[0] == '=' then Some(Pair("", s[1..]))
    else
      match SplitAtEq(s[1..])
      case None => None
      case Some(p) => Some(Pair([s[0]] + p.key, p.value))
  }

  /** What a segment is to the reader. */
  datatype Kind = Bad | Known(field: Field, value: string) | Unknown

  function KindOf(kv: string): Kind {
    match SplitAtEq(kv)
    case None => Bad
    case Some(p) =>
      if p.key == "" then Bad
      else if FieldOf(p.key).Some? then Known(FieldOf(p.key).value, p.value)
      else Unknown
  }

  // ----- reading a record -----

  /** What has been read so far. */
  datatype Fields = Fields(
    role: Option<Role>,
    flags: Option<u32>,
    lastChanged: Option<u32>,
    totpSecret: Option<Option<seq<byte>>>,
    lockoutUntil: Option<u64>,
    totpRequired: Option<bool>,
    trailing: seq<string>)

  const NO_FIELDS: Fields := Fields(None, None, None, None, None, None, [])

  predicate Has(f: Fields, fd: Field) {
    match fd
    case RoleField => f.role.Some?
    case FlagsField => f.flags.Some?
    case LastChangedField => f.lastChanged.Some?
    case TotpSecretField => f.totpSecret.Some?
    case LockoutField => f.lockoutUntil.Some?
    case TotpRequiredField => f.totpRequired.Some?
  }

  predicate Readable(fd: Field, v: string) {
    match fd
    case RoleField => RoleFromName(v).Some?
    case FlagsField => Decimal.Within(v, U32_MAX).Some?
    case LastChangedField => Decimal.Within(v, U32_MAX).Some?
    case TotpSecretField => v == "" || Base32.Decode(v).Some?
    case LockoutField => Decimal.Within(v, U64_MAX).Some?
    case TotpRequiredField => v == "true" || v == "false"
  }

  function ReadSecret(v: string): Option<seq<byte>> {
    if v == "" then None else Base32.Decode(v)
  }

  function Set(f: Fields, fd: Field, v: string): Fields
    requires Readable(fd, v)
  {
    match fd
    case RoleField => f.(role := RoleFromName(v))
    case FlagsField => f.(flags := Decimal.Within(v, U32_MAX))
    case LastChangedField => f.(lastChanged := Decimal.Within(v, U32_MAX))
    case TotpSecretField => f.(totpSecret := Some(ReadSecret(v)))
    case LockoutField => f.(lockoutUntil := Decimal.Within(v, U64_MAX))
    case TotpRequiredField => f.(totpRequired := Some(v == "true"))
  }

  function Unreadable(fd: Field): ShadowError {
    if fd.RoleField? then UnknownRole else InvalidInteger(fd)
  }

  function Step(f: Fields, kv: string): Result<Fields, ShadowError> {
    match KindOf(kv)
    case Bad => Err(Truncated)
    case Unknown => Ok(f.(trailing := f.trailing + [kv]))
    case Known(fd, v) =>
      if Has(f, fd) then Err(DuplicateField(fd))
      else if !Readable(fd, v) then Err(Unreadable(fd))
      else Ok(Set(f, fd, v))
  }

  /** The segments read in order, stopping at the first error. */
  function Fold(kvs: seq<string>): Result<Fields, ShadowError> {
    if kvs == [] then Ok(NO_FIELDS)
    else
      match Fold(kvs[..|kvs| - 1])
      case Err(e) => Err(e)
      case Ok(f) => Step(f, kvs[|kvs| - 1])
  }

  function Finish(username: string, phc: string, f: Fields): Result<Entry, ShadowError> {
    if f.role.None? then Err(MissingField(RoleField))
    else if f.flags.None? then Err(MissingField(FlagsField))
    else if f.lastChanged.None? then Err(MissingField(LastChangedField))
    else if f.totpSecret.None? then Err(MissingField(TotpSecretField))
    else if f.lockoutUntil.None? then Err(MissingField(LockoutField))
    else Ok(Entry(username, phc, f.role.value, f.flags.value, f.lastChanged.value, f.totpSecret.value,
                  f.lockoutUntil.value, f.totpRequired == Some(true), f.trailing))
  }

  function ValidateUsername(u: string): Option<ShadowError> {
    if u == "" then Some(EmptyUsername)
    else if Lacks(u, ':') && Lacks(u, '\0') && Lacks(u, '\n') then None
    else Some(InvalidUsername)
  }

  function Count(s: string, c: char): nat {
    if s == "" then 0 else Count(s[1..], c) + if s[0] == c then 1 else 0
  }

  /** An Argon2id hash in PHC form, as far as the reader looks. */
  predicate PhcShape(s: string) {
    "$argon2id$" <= s && Count(s, '$') == 5
  }

  function ParseParts(parts: seq<string>): Result<Entry, ShadowError>
    requires |parts| >= 1
  {
    if ValidateUsername(parts[0]).Some? then Err(ValidateUsername(parts[0]).value)
    else if |parts| == 1 then Err(Truncated)
    else if !PhcShape(parts[1]) then Err(MalformedPhc)
    else
      match Fold(parts[2..])
      case Err(e) => Err(e)
      case Ok(f) => Finish(parts[0], parts[1], f)
  }

  function ParseRecord(line: string): Result<Entry, ShadowError> {
    if line == "" then Err(EmptyRecord) else ParseParts(Split(line, ':'))
  }

  /** Empty lines are skipped; the first bad line is the answer. */
  function ParseLines(lines: seq<string>): Result<seq<Entry>, ShadowError> {
    if lines == [] then Ok([])
    else if lines[0] == "" then ParseLines(lines[1..])
    else
      match ParseRecord(lines[0])
      case Err(e) => Err(e)
      case Ok(e) =>
        match ParseLines(lines[1..])
        case Err(x) => Err(x)
        case Ok(es) => Ok([e] + es)
  }

  function ParseFile(content: string): Result<seq<Entry>, ShadowError> {
    ParseLines(Split(content, '\n'))
  }

  // ----- writing -----

  function SecretText(secret: Option<seq<byte>>): string {
    if secret.None? then "" else Base32.Encode(secret.value)
  }

  function Segment(fd: Field, v: string): string {
    FieldName(fd) + "=" + v
  }

  function RequiredSegments(required: bool): seq<string> {
    if required then [Segment(TotpRequiredField, "true")] else []
  }

  /** The five mandatory fields in their canonical order. */
  function Mandatory(role: string, flags: string, lastChanged: string, secret: string, lockout: string): seq<string> {
    [Segment(RoleField, role), Segment(FlagsField, flags), Segment(LastChangedField, lastChanged),
     Segment(TotpSecretField, secret), Segment(LockoutField, lockout)]
  }

  function KeyValues(e: Entry): seq<string> {
    Mandatory(RoleName(e.role), Decimal.Text(e.flags), Decimal.Text(e.lastChanged), SecretText(e.totpSecret),
              Decimal.Text(e.lockoutUntil))
    + RequiredSegments(e.totpRequired) + e.trailing
  }

  function SerializeRecord(e: Entry): string {
    Join([e.username, e.phc] + KeyValues(e), ':')
  }

  function SerializeFile(es: seq<Entry>): string {
    if es == [] then "" else SerializeRecord(es[0]) + "\n" + SerializeFile(es[1..])
  }
}
