/** JSON values, their text, and the recursive-descent reader. */
module JsonSpec {
  import opened Bytes
  import opened Results
  import opened Binary64
  import Decimal

  datatype Json =
    | Null
    | Bool(b: bool)
    | Number(n: Float)
    | String(s: string)
    | Array(items: seq<Json>)
    | Object(entries: seq<Entry>)

  datatype Entry = Entry(key: string, value: Json)

  datatype ParseError =
    | UnexpectedEnd
    | UnexpectedChar(c: char)
    | ExpectedNull
    | ExpectedBool
    | InvalidNumber
    | NoFractionDigits
    | NoExponentDigits
    | ExpectedQuote
    | Unterminated
    | EndOfEscape
    | InvalidEscape(c: char)
    | IncompleteUnicode
    | InvalidUnicode
    | ExpectedCommaOrBracket
    | ExpectedKey
    | ExpectedColon
    | ExpectedCommaOrBrace
    | TrailingCharacters

  /** What a reader leaves: a value and the text after it, or the reason it stopped. */
  datatype Parsed<T> = Done(value: T, rest: string) | Fail(error: ParseError)

  // ----- writing -----

  /** Formats the numbers the integer path does not cover. */
  type Formatter = Float -> string

  predicate IsWhole(n: Float) {
    n.Finite? && n.value == n.value.Floor as real && -TWO_63 < n.value.Floor < TWO_63
  }

  function IntText(i: int): string {
    if i < 0 then "-" + Decimal.Text(-i) else Decimal.Text(i)
  }

  function NumberText(fmt: Formatter, n: Float): string {
    if IsWhole(n) then IntText(n.value.Floor) else fmt(n)
  }

  function HexDigit(d: nat): char
    requires d < 16
  {
    if d < 10 then ('0' as int + d) as char else ('a' as int + (d - 10)) as char
  }

  function Escape(c: char): string {
    if c == '"' then "\\\""
    else if c == '\\' then "\\\\"
    else if c == '\n' then "\\n"
    else if c == '\r' then "\\r"
    else if c == '\t' then "\\t"
    else if c < ' ' then "\\u00" + [HexDigit(c as int / 16), HexDigit(c as int % 16)]
    else [c]
  }

  function EscapeAll(s: string): string {
    if s == "" then "" else Escape(s[0]) + EscapeAll(s[1..])
  }

  function StringText(s: string): string {
    "\"" + EscapeAll(s) + "\""
  }

  function Text(fmt: Formatter, v: Json): string
    decreases v, 1
  {
    match v
    case Null => "null"
    case Bool(b) => if b then "true" else "false"
    case Number(n) => NumberText(fmt, n)
    case String(s) => StringText(s)
    case Array(items) => "[" + ItemsText(fmt, items) + "]"
    case Object(entries) => "{" + EntriesText(fmt, entries) + "}"
  }

  function ItemsText(fmt: Formatter, items: seq<Json>): string
    decreases items, 0
  {
    if items == [] then ""
    else if |items| == 1 then Text(fmt, items[0])
    else Text(fmt, items[0]) + "," + ItemsText(fmt, items[1..])
  }

  function EntryText(fmt: Formatter, e: Entry): string
    decreases e, 2
  {
    StringText(e.key) + ":" + Text(fmt, e.value)
  }

  function EntriesText(fmt: Formatter, entries: seq<Entry>): string
    decreases entries, 0
  {
    if entries == [] then ""
    else if |entries| == 1 then EntryText(fmt, entries[0])
    else EntryText(fmt, entries[0]) + "," + EntriesText(fmt, entries[1..])
  }

  // ----- reading -----

  /** Unicode White_Space. */
  predicate IsSpace(c: char) {
    || '\U{9}' <= c <= '\U{D}' || c == ' ' || c == '\U{85}' || c == '\U{A0}' || c == '\U{1680}'
    || '\U{2000}' <= c <= '\U{200A}' || c == '\U{2028}' || c == '\U{2029}' || c == '\U{202F}'
    || c == '\U{205F}' || c == '\U{3000}'
  }

  function Skip(s: string): (t: string)
    ensures |t| <= |s|
    ensures t == "" || !IsSpace(t[0])
  {
    if s != "" && IsSpace(s[0]) then Skip(s[1..]) else s
  }

  function SkipEnd(s: string): string {
    if s != "" && IsSpace(s[|s| - 1]) then SkipEnd(s[..|s| - 1]) else s
  }

  function Trim(s: string): string {
    SkipEnd(Skip(s))
  }

  predicate Starts(s: string, c: char) {
    s != "" && s[0] == c
  }

  function ParseNull(s: string): Parsed<Json> {
    if "null" <= s then Done(Null, s[4..]) else Fail(ExpectedNull)
  }

  function ParseBool(s: string): Parsed<Json> {
    if "true" <= s then Done(Bool(true), s[4..])
    else if "false" <= s then Done(Bool(false), s[5..])
    else Fail(ExpectedBool)
  }

  // numbers

  predicate DigitAt(s: string, pos: nat) {
    pos < |s| && Decimal.IsDigit(s[pos])
  }

  predicate CharAt(s: string, pos: nat, c: char) {
    pos < |s| && s[pos] == c
  }

  /** Where the run of digits at `pos` ends. */
  function DigitsEnd(s: string, pos: nat): (q: nat)
    requires pos <= |s|
    ensures pos <= q <= |s|
    ensures forall i :: pos <= i < q ==> Decimal.IsDigit(s[i])
    ensures !DigitAt(s, q)
    decreases |s| - pos
  {
    if DigitAt(s, pos) then DigitsEnd(s, pos + 1) else pos
  }

  function IntegerEnd(s: string, pos: nat): (r: Result<nat, ParseError>)
    requires pos <= |s|
    ensures r.Ok? ==> pos < r.value <= |s|
  {
    if DigitAt(s, pos) then Ok(DigitsEnd(s, pos)) else Err(InvalidNumber)
  }

  function FractionEnd(s: string, pos: nat): (r: Result<nat, ParseError>)
    requires pos <= |s|
    ensures r.Ok? ==> pos <= r.value <= |s|
  {
    if !CharAt(s, pos, '.') then Ok(pos)
    else if DigitAt(s, pos + 1) then Ok(DigitsEnd(s, pos + 1))
    else Err(NoFractionDigits)
  }

  function SignEnd(s: string, pos: nat): (q: nat)
    ensures q == pos || (q == pos + 1 && pos < |s|)
  {
    if CharAt(s, pos, '+') || CharAt(s, pos, '-') then pos + 1 else pos
  }

  function ExponentEnd(s: string, pos: nat): (r: Result<nat, ParseError>)
    requires pos <= |s|
    ensures r.Ok? ==> pos <= r.value <= |s|
  {
    if !CharAt(s, pos, 'e') && !CharAt(s, pos, 'E') then Ok(pos)
    else
      var q := SignEnd(s, pos + 1);
      if DigitAt(s, q) then Ok(DigitsEnd(s, q)) else Err(NoExponentDigits)
  }

  function MinusEnd(s: string): (q: nat)
    ensures q <= |s|
  {
    if Starts(s, '-') then 1 else 0
  }

  /** Where the number literal at the front of the text ends. */
  function NumberEnd(s: string): (r: Result<nat, ParseError>)
    ensures r.Ok? ==> 0 < r.value <= |s|
  {
    match IntegerEnd(s, MinusEnd(s))
    case Err(e) => Err(e)
    case Ok(a) =>
      match FractionEnd(s, a)
      case Err(e) => Err(e)
      case Ok(b) => ExponentEnd(s, b)
  }

  function DigitRun(s: string, from: nat, to: nat): (d: nat)
    requires from <= to <= |s|
  {
    if Decimal.AllDigits(s[from..to]) then Decimal.Value(s[from..to]) else 0
  }

  /** (whole + frac / 10^places) * 10^(+-exponent), signed. */
  function Assemble(minus: bool, whole: nat, frac: nat, places: nat, down: bool, exponent: nat): real {
    var magnitude := whole as real + frac as real / Decimal.Pow10(places) as real;
    var factor := Decimal.Pow10(exponent) as real;
    var scaled := if down then magnitude / factor else magnitude * factor;
    if minus then -scaled else scaled
  }

  /** The exact value of a number literal. */
  function ExactValue(s: string): real
    requires NumberEnd(s).Ok?
  {
    var m := MinusEnd(s);
    var a := IntegerEnd(s, m).value;
    var b := FractionEnd(s, a).value;
    var end := ExponentEnd(s, b).value;
    Assemble(Starts(s, '-'), DigitRun(s, m, a),
             if b == a then 0 else DigitRun(s, a + 1, b), if b == a then 0 else b - a - 1,
             end > b && CharAt(s, b + 1, '-'), if end == b then 0 else DigitRun(s, SignEnd(s, b + 1), end))
  }

  function NumberValue(s: string): Float
    requires NumberEnd(s).Ok?
  {
    Round(ExactValue(s))
  }

  function ParseNumber(s: string): Parsed<Json> {
    match NumberEnd(s)
    case Err(e) => Fail(e)
    case Ok(end) => Done(Number(NumberValue(s)), s[end..])
  }

  // strings

  predicate IsHex(c: char) {
    '0' <= c <= '9' || 'a' <= c <= 'f' || 'A' <= c <= 'F'
  }

  function HexValue(c: char): (d: nat)
    requires IsHex(c)
    ensures d < 16
  {
    if c <= '9' then c as int - '0' as int
    else if c <= 'F' then c as int - 'A' as int + 10
    else c as int - 'a' as int + 10
  }

  /** Four hexadecimal digits, or a plus sign and three. */
  function HexNumber(a: char, b: char, c: char, d: char): (r: Option<nat>)
    ensures r.Some? ==> r.value < 0x1_0000
  {
    if (IsHex(a) || a == '+') && IsHex(b) && IsHex(c) && IsHex(d) then
      Some((if a == '+' then 0 else HexValue(a) * 4096) + HexValue(b) * 256 + HexValue(c) * 16 + HexValue(d))
    else None
  }

  predicate IsSurrogate(n: nat) {
    0xD800 <= n < 0xE000
  }

  /** `t` starts after the backslash-u. */
  function ParseUnicode(t: string): (r: Parsed<char>)
    ensures r.Done? ==> |r.rest| < |t|
  {
    if |t| < 4 then Fail(IncompleteUnicode)
    else
      match HexNumber(t[0], t[1], t[2], t[3])
      case None => Fail(InvalidUnicode)
      case Some(n) => if IsSurrogate(n) then Fail(InvalidUnicode) else Done(n as char, t[4..])
  }

  /** `t` starts after the backslash. */
  function DecodeEscape(t: string): (r: Parsed<char>)
    requires t != ""
    ensures r.Done? ==> |r.rest| < |t|
  {
    match t[0]
    case '"' => Done('"', t[1..])
    case '\\' => Done('\\', t[1..])
    case '/' => Done('/', t[1..])
    case 'n' => Done('\n', t[1..])
    case 'r' => Done('\r', t[1..])
    case 't' => Done('\t', t[1..])
    case 'b' => Done('\U{8}', t[1..])
    case 'f' => Done('\U{C}', t[1..])
    case 'u' => ParseUnicode(t[1..])
    case c => Fail(InvalidEscape(c))
  }

  /** The first character of a string body, decoded. */
  function ReadChar(t: string): (r: Parsed<char>)
    requires t != ""
    ensures r.Done? ==> |r.rest| < |t|
  {
    if t[0] != '\\' then Done(t[0], t[1..])
    else if |t| == 1 then Fail(EndOfEscape)
    else DecodeEscape(t[1..])
  }

  /** A string body up to and including its closing quote. */
  function StringBody(t: string): (r: Parsed<string>)
    ensures r.Done? ==> |r.rest| < |t|
    decreases |t|
  {
    if t == "" then Fail(Unterminated)
    else if t[0] == '"' then Done("", t[1..])
    else
      match ReadChar(t)
      case Fail(e) => Fail(e)
      case Done(c, u) => Before(c, StringBody(u))
  }

  function Before<T>(x: T, r: Parsed<seq<T>>): Parsed<seq<T>> {
    if r.Done? then Done([x] + r.value, r.rest) else r
  }

  function ParseString(s: string): (r: Parsed<string>)
    ensures r.Done? ==> |r.rest| < |s|
  {
    if Starts(s, '"') then StringBody(s[1..]) else Fail(ExpectedQuote)
  }

  // values

  function ParseValue(s: string): (r: Parsed<Json>)
    ensures r.Done? ==> |r.rest| < |s|
    decreases |s|, 1
  {
    var t := Skip(s);
    if t == "" then Fail(UnexpectedEnd)
    else if t[0] == '"' then
      match ParseString(t)
      case Fail(e) => Fail(e)
      case Done(str, rest) => Done(String(str), rest)
    else if t[0] == '{' then ParseObject(t)
    else if t[0] == '[' then ParseArray(t)
    else if t[0] == 't' || t[0] == 'f' then ParseBool(t)
    else if t[0] == 'n' then ParseNull(t)
    else if t[0] == '-' || Decimal.IsDigit(t[0]) then ParseNumber(t)
    else Fail(UnexpectedChar(t[0]))
  }

  function ParseArray(t: string): (r: Parsed<Json>)
    requires Starts(t, '[')
    ensures r.Done? ==> |r.rest| < |t|
    decreases |t|, 0
  {
    var u := Skip(t[1..]);
    if Starts(u, ']') then Done(Array([]), u[1..])
    else
      match ParseItems(u)
      case Fail(e) => Fail(e)
      case Done(items, rest) => Done(Array(items), rest)
  }

  /** One or more values with commas between them, and the closing bracket. */
  function ParseItems(u: string): (r: Parsed<seq<Json>>)
    ensures r.Done? ==> |r.rest| < |u|
    decreases |u|, 2
  {
    match ParseValue(u)
    case Fail(e) => Fail(e)
    case Done(v, rest) =>
      var x := Skip(rest);
      if Starts(x, ']') then Done([v], x[1..])
      else if Starts(x, ',') then Before(v, ParseItems(Skip(x[1..])))
      else Fail(ExpectedCommaOrBracket)
  }

  function ParseObject(t: string): (r: Parsed<Json>)
    requires Starts(t, '{')
    ensures r.Done? ==> |r.rest| < |t|
    decreases |t|, 0
  {
    var u := Skip(t[1..]);
    if Starts(u, '}') then Done(Object([]), u[1..])
    else
      match ParseEntries(u)
      case Fail(e) => Fail(e)
      case Done(entries, rest) => Done(Object(entries), rest)
  }

  /** A key, a colon and a value. */
  function ParseEntry(u: string): (r: Parsed<Entry>)
    ensures r.Done? ==> |r.rest| < |u|
    decreases |u|, 2
  {
    if !Starts(u, '"') then Fail(ExpectedKey)
    else
      match ParseString(u)
      case Fail(e) => Fail(e)
      case Done(key, rest) =>
        var x := Skip(rest);
        if !Starts(x, ':') then Fail(ExpectedColon)
        else
          match ParseValue(Skip(x[1..]))
          case Fail(e) => Fail(e)
          case Done(v, y) => Done(Entry(key, v), y)
  }

  function ParseEntries(u: string): (r: Parsed<seq<Entry>>)
    ensures r.Done? ==> |r.rest| < |u|
    decreases |u|, 3
  {
    match ParseEntry(u)
    case Fail(e) => Fail(e)
    case Done(e, rest) =>
      var x := Skip(rest);
      if Starts(x, '}') then Done([e], x[1..])
      else if Starts(x, ',') then Before(e, ParseEntries(Skip(x[1..])))
      else Fail(ExpectedCommaOrBrace)
  }

  function Parse(s: string): Result<Json, ParseError> {
    match ParseValue(Trim(s))
    case Fail(e) => Err(e)
    case Done(v, rest) => if Trim(rest) == "" then Ok(v) else Err(TrailingCharacters)
  }
}
