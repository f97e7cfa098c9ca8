/** The texts the JSON reader accepts, given as a grammar: a document is written out from a tree that also records the
    white space, the spelling of every character and the parts of every number. */
module JsonGrammar {
  import opened Results
  import opened JsonSpec
  import opened JsonNumeral

  datatype Doc =
    | DNull
    | DBool(b: bool)
    | DNumber(numeral: Numeral)
    | DString(chars: seq<string>)
    | DArray(gap: string, items: seq<Item>)
    | DObject(gap: string, members: seq<Member>)

  datatype Item = Item(before: string, doc: Doc, after: string)

  datatype Member = Member(before: string, key: seq<string>, afterKey: string, beforeValue: string, doc: Doc,
                           after: string)

  // ----- characters -----

  function ShortEscape(c: char): Option<char> {
    match c
    case '"' => Some('"')
    case '\\' => Some('\\')
    case '/' => Some('/')
    case 'n' => Some('\n')
    case 'r' => Some('\r')
    case 't' => Some('\t')
    case 'b' => Some('\U{8}')
    case 'f' => Some('\U{C}')
    case _ => None
  }

  /** What a hexadecimal digit is worth, in either case. */
  function DigitWorth(c: char): (d: Option<nat>)
    ensures d.Some? ==> d.value < 16
  {
    match c
    case '0' => Some(0)
    case '1' => Some(1)
    case '2' => Some(2)
    case '3' => Some(3)
    case '4' => Some(4)
    case '5' => Some(5)
    case '6' => Some(6)
    case '7' => Some(7)
    case '8' => Some(8)
    case '9' => Some(9)
    case 'a' => Some(10)
    case 'b' => Some(11)
    case 'c' => Some(12)
    case 'd' => Some(13)
    case 'e' => Some(14)
    case 'f' => Some(15)
    case 'A' => Some(10)
    case 'B' => Some(11)
    case 'C' => Some(12)
    case 'D' => Some(13)
    case 'E' => Some(14)
    case 'F' => Some(15)
    case _ => None
  }

  /** The number written in base sixteen, most significant digit first. */
  function HexWorth(s: string): Option<nat> {
    if s == "" then Some(0)
    else
      var (front, last) := (HexWorth(s[..|s| - 1]), DigitWorth(s[|s| - 1]));
      if front.Some? && last.Some? then Some(16 * front.value + last.value) else None
  }

  /** The code that four hexadecimal digits write, or a plus sign and three. */
  function CodeOf(s: string): Option<nat> {
    if |s| != 4 then None else if s[0] == '+' then HexWorth(s[1..]) else HexWorth(s)
  }

  /** The character a spelling stands for: itself, a short escape, or four hexadecimal digits. Anything but a quote or a
      backslash may stand for itself, control characters included; surrogates have no spelling. */
  function Spelled(e: string): Option<char> {
    if |e| == 1 && e[0] != '"' && e[0] != '\\' then Some(e[0])
    else if |e| == 2 && e[0] == '\\' then ShortEscape(e[1])
    else if |e| == 6 && e[0] == '\\' && e[1] == 'u' then
      var n := CodeOf(e[2..]);
      if n.Some? && n.value < 0xD800 then Some(n.value as char)
      else if n.Some? && 0xE000 <= n.value < 0x1_0000 then Some(n.value as char)
      else None
    else None
  }

  predicate WellSpelled(chars: seq<string>) {
    forall i :: 0 <= i < |chars| ==> Spelled(chars[i]).Some?
  }

  function Concat(chars: seq<string>): string {
    if chars == [] then "" else chars[0] + Concat(chars[1..])
  }

  function Chars(chars: seq<string>): string
    requires WellSpelled(chars)
  {
    if chars == [] then "" else [Spelled(chars[0]).value] + Chars(chars[1..])
  }

  function Quoted(chars: seq<string>): string {
    "\"" + Concat(chars) + "\""
  }

  // ----- documents -----

  function Render(d: Doc): string
    decreases d, 1
  {
    match d
    case DNull => "null"
    case DBool(b) => if b then "true" else "false"
    case DNumber(numeral) => RenderNumeral(numeral)
    case DString(chars) => Quoted(chars)
    case DArray(gap, items) => "[" + (if items == [] then gap else RenderItems(items)) + "]"
    case DObject(gap, members) => "{" + (if members == [] then gap else RenderMembers(members)) + "}"
  }

  function RenderItem(i: Item): string
    decreases i, 2
  {
    i.before + Render(i.doc) + i.after
  }

  function RenderItems(items: seq<Item>): string
    decreases items, 0
  {
    if items == [] then ""
    else if |items| == 1 then RenderItem(items[0])
    else RenderItem(items[0]) + "," + RenderItems(items[1..])
  }

  function RenderMember(m: Member): string
    decreases m, 2
  {
    m.before + Quoted(m.key) + m.afterKey + ":" + m.beforeValue + Render(m.doc) + m.after
  }

  function RenderMembers(members: seq<Member>): string
    decreases members, 0
  {
    if members == [] then ""
    else if |members| == 1 then RenderMember(members[0])
    else RenderMember(members[0]) + "," + RenderMembers(members[1..])
  }

  /** The twenty-five characters with the Unicode property White_Space. */
  const WHITE_SPACE: string :=
    "\U{9}\U{A}\U{B}\U{C}\U{D}\U{20}\U{85}\U{A0}\U{1680}\U{2000}\U{2001}\U{2002}\U{2003}\U{2004}\U{2005}\U{2006}"
    + "\U{2007}\U{2008}\U{2009}\U{200A}\U{2028}\U{2029}\U{202F}\U{205F}\U{3000}"

  /** White space to the reader is exactly these. */
  lemma {:induction false} SpaceIff(c: char)
    ensures IsSpace(c) <==> c in WHITE_SPACE
  {
    var w := WHITE_SPACE;
    assert |w| == 25;
    if '\U{9}' <= c <= '\U{D}' {
      assert w[c as int - 9] == c;
    } else if '\U{2000}' <= c <= '\U{200A}' {
      assert w[c as int - 0x2000 + 9] == c;
    } else if IsSpace(c) {
      assert w[5] == ' ' && w[6] == '\U{85}' && w[7] == '\U{A0}' && w[8] == '\U{1680}' && w[20] == '\U{2028}';
      assert w[21] == '\U{2029}' && w[22] == '\U{202F}' && w[23] == '\U{205F}' && w[24] == '\U{3000}';
    }
  }

  predicate AllSpace(s: string) {
    forall i :: 0 <= i < |s| ==> IsSpace(s[i])
  }

  /** White space where white space goes, spelled characters, and numbers with digits in them. */
  predicate Good(d: Doc)
    decreases d, 1
  {
    match d
    case DNumber(numeral) => GoodNumeral(numeral)
    case DString(chars) => WellSpelled(chars)
    case DArray(gap, items) => AllSpace(gap) && forall i :: 0 <= i < |items| ==> GoodItem(items[i])
    case DObject(gap, members) => AllSpace(gap) && forall i :: 0 <= i < |members| ==> GoodMember(members[i])
    case _ => true
  }

  predicate GoodItem(i: Item)
    decreases i, 2
  {
    AllSpace(i.before) && Good(i.doc) && AllSpace(i.after)
  }

  predicate GoodMember(m: Member)
    decreases m, 2
  {
    && AllSpace(m.before) && WellSpelled(m.key) && AllSpace(m.afterKey) && AllSpace(m.beforeValue)
    && Good(m.doc) && AllSpace(m.after)
  }

  function Meaning(d: Doc): Json
    requires Good(d)
    decreases d, 1
  {
    match d
    case DNull => Null
    case DBool(b) => Bool(b)
    case DNumber(numeral) => Number(NumeralValue(numeral))
    case DString(chars) => String(Chars(chars))
    case DArray(_, items) => Array(MeaningItems(items))
    case DObject(_, members) => Object(MeaningMembers(members))
  }

  function MeaningItems(items: seq<Item>): seq<Json>
    requires forall i :: 0 <= i < |items| ==> GoodItem(items[i])
    decreases items, 0
  {
    if items == [] then [] else
      assert GoodItem(items[0]);
      [Meaning(items[0].doc)] + MeaningItems(items[1..])
  }

  function MeaningMembers(members: seq<Member>): seq<Entry>
    requires forall i :: 0 <= i < |members| ==> GoodMember(members[i])
    decreases members, 0
  {
    if members == [] then [] else
      assert GoodMember(members[0]);
      [Entry(Chars(members[0].key), Meaning(members[0].doc))] + MeaningMembers(members[1..])
  }

  // ----- characters are read as spelled, and only so -----

  lemma {:induction false} DigitIs(c: char)
    ensures DigitWorth(c) == if IsHex(c) then Some(HexValue(c)) else None
  {
  }

  lemma {:induction false} WorthUnfold(s: string, init: string, c: char)
    requires s == init + [c]
    ensures HexWorth(s) == if HexWorth(init).Some? && DigitWorth(c).Some?
                           then Some(16 * HexWorth(init).value + DigitWorth(c).value) else None
  {
    assert s[..|s| - 1] == init;
    hide DigitWorth;
  }

  /** The reader's arithmetic on four characters gives the code they write. */
  lemma {:induction false} CodeIs(s: string)
    requires |s| == 4
    ensures CodeOf(s) == HexNumber(s[0], s[1], s[2], s[3])
  {
    hide DigitWorth, HexWorth, IsHex, HexValue;
    DigitIs(s[0]);
    DigitIs(s[1]);
    DigitIs(s[2]);
    DigitIs(s[3]);
    NoDigits();
    WorthUnfold(s[..1], "", s[0]);
    WorthUnfold(s[..2], s[..1], s[1]);
    WorthUnfold(s[..3], s[..2], s[2]);
    WorthUnfold(s, s[..3], s[3]);
    WorthUnfold(s[1..2], "", s[1]);
    WorthUnfold(s[1..3], s[1..2], s[2]);
    WorthUnfold(s[1..], s[1..3], s[3]);
    PlusIsNoDigit();
  }

  lemma {:induction false} NoDigits()
    ensures HexWorth("") == Some(0)
  {
  }

  lemma {:induction false} PlusIsNoDigit()
    ensures !IsHex('+')
  {
  }

  const LOWER_DIGITS := "0123456789abcdef"
  const UPPER_DIGITS := "0123456789ABCDEF"

  /** `n` in so many hexadecimal digits, most significant first. */
  function HexText(n: nat, width: nat, upper: bool): (s: string)
    ensures |s| == width
  {
    if width == 0 then ""
    else HexText(n / 16, width - 1, upper) + [(if upper then UPPER_DIGITS else LOWER_DIGITS)[n % 16]]
  }

  lemma {:induction false} DigitCharWorth(d: nat)
    requires d < 16
    ensures DigitWorth(LOWER_DIGITS[d]) == Some(d) && DigitWorth(UPPER_DIGITS[d]) == Some(d)
  {
  }

  function SixteenTo(k: nat): nat {
    if k == 0 then 1 else 16 * SixteenTo(k - 1)
  }

  lemma {:induction false} HexTextWorth(n: nat, width: nat, upper: bool)
    requires n < SixteenTo(width)
    ensures HexWorth(HexText(n, width, upper)) == Some(n)
  {
    hide DigitWorth;
    if width > 0 {
      HexTextWorth(n / 16, width - 1, upper);
      DigitCharWorth(n % 16);
      var init := HexText(n / 16, width - 1, upper);
      WorthUnfold(HexText(n, width, upper), init, HexText(n, width, upper)[width - 1]);
    }
  }

  /** Every code that is no surrogate is read from its four digits, in either case. */
  lemma {:induction false} EscapedCodeReads(n: nat, upper: bool, rest: string)
    requires n < 0x1_0000 && !(0xD800 <= n < 0xE000)
    ensures ParseUnicode(HexText(n, 4, upper) + rest) == Done(n as char, rest)
  {
    assert SixteenTo(2) == 256;
    assert SixteenTo(4) == 0x1_0000;
    HexTextWorth(n, 4, upper);
    var s := HexText(n, 4, upper);
    FirstIsDigit(n, upper);
    hide HexText, HexWorth, HexNumber;
    CodeIs(s);
    var t := s + rest;
    assert t[0] == s[0] && t[1] == s[1] && t[2] == s[2] && t[3] == s[3] && t[4..] == rest;
  }

  lemma {:induction false} FirstIsDigit(n: nat, upper: bool)
    ensures HexText(n, 4, upper)[0] != '+'
  {
    var m := n / 16 / 16 / 16;
    DigitCharWorth(m % 16);
    assert HexText(n, 4, upper)[0] == HexText(n / 16, 3, upper)[0] == HexText(n / 16 / 16, 2, upper)[0]
        == HexText(m, 1, upper)[0];
    assert HexText(m, 1, upper)[0] == (if upper then UPPER_DIGITS else LOWER_DIGITS)[m % 16];
  }

  lemma {:induction false} SpelledReads(e: string, rest: string)
    requires Spelled(e).Some?
    ensures e != "" && (e + rest)[0] != '"'
    ensures ReadChar(e + rest) == Done(Spelled(e).value, rest)
  {
    hide HexNumber, CodeOf;
    var t := e + rest;
    assert t[0] == e[0];
    if |e| == 1 {
      assert t[1..] == rest;
    } else if |e| == 2 {
      assert t[1..][0] == e[1] && t[1..][1..] == rest;
    } else {
      var u := t[1..][1..];
      assert t[1..][0] == e[1];
      assert u[0] == e[2] && u[1] == e[3] && u[2] == e[4] && u[3] == e[5] && u[4..] == rest;
      CodeIs(e[2..]);
    }
  }

  lemma {:induction false} ReadIsSpelled(t: string) returns (e: string)
    requires t != "" && t[0] != '"' && ReadChar(t).Done?
    ensures Spelled(e) == Some(ReadChar(t).value) && t == e + ReadChar(t).rest
  {
    hide HexNumber, CodeOf;
    if t[0] != '\\' {
      e := t[..1];
      assert t == t[..1] + t[1..];
    } else if t[1] == 'u' {
      e := t[..6];
      var u := t[1..][1..];
      assert u[0] == t[2] && u[1] == t[3] && u[2] == t[4] && u[3] == t[5];
      assert u[4..] == t[6..];
      assert t == t[..6] + t[6..];
      CodeIs(e[2..]);
    } else {
      e := t[..2];
      assert t[1..][1..] == t[2..];
      assert t == t[..2] + t[2..];
    }
  }

  lemma {:induction false} QuotedReads(chars: seq<string>, rest: string)
    requires WellSpelled(chars)
    ensures StringBody(Concat(chars) + "\"" + rest) == Done(Chars(chars), rest)
  {
    hide ReadChar, Spelled;
    if chars == [] {
      assert (Concat(chars) + "\"" + rest)[1..] == rest;
    } else {
      var after := Concat(chars[1..]) + "\"" + rest;
      assert Concat(chars) + "\"" + rest == chars[0] + after;
      SpelledReads(chars[0], after);
      QuotedReads(chars[1..], rest);
    }
  }

  lemma {:induction false} BodyIsQuoted(t: string) returns (chars: seq<string>)
    requires StringBody(t).Done?
    ensures WellSpelled(chars) && Chars(chars) == StringBody(t).value
    ensures t == Concat(chars) + "\"" + StringBody(t).rest
    decreases |t|
  {
    hide ReadChar, Spelled;
    if t[0] == '"' {
      chars := [];
      assert t == "" + "\"" + t[1..];
    } else {
      var e := ReadIsSpelled(t);
      var more := BodyIsQuoted(ReadChar(t).rest);
      chars := [e] + more;
      assert chars[1..] == more;
    }
  }

  lemma {:induction false} QuotedParses(chars: seq<string>, rest: string)
    requires WellSpelled(chars)
    ensures ParseString(Quoted(chars) + rest) == Done(Chars(chars), rest)
  {
    QuotedReads(chars, rest);
    hide StringBody, Concat;
    assert (Quoted(chars) + rest)[1..] == Concat(chars) + "\"" + rest;
  }

  lemma {:induction false} ParsedIsQuoted(t: string) returns (chars: seq<string>)
    requires ParseString(t).Done?
    ensures WellSpelled(chars) && Chars(chars) == ParseString(t).value && t == Quoted(chars) + ParseString(t).rest
  {
    chars := BodyIsQuoted(t[1..]);
    hide StringBody, Concat;
    assert t == "\"" + t[1..];
  }
}
