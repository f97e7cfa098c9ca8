/** The loops of the JSON reader and writer, proved to compute the recursive definitions. */
module JsonMachine {
  import opened JsonSpec
  import Decimal

  // ----- reading -----

  method ConsumeDigits(s: string, pos: nat) returns (q: nat)
    requires pos <= |s|
    ensures q == DigitsEnd(s, pos)
  {
    q := pos;
    while q < |s| && Decimal.IsDigit(s[q])
      invariant pos <= q <= |s|
      invariant DigitsEnd(s, pos) == DigitsEnd(s, q)
    {
      q := q + 1;
    }
  }

  /** What was read before, in front of what is still to come. */
  function Chain<T>(done: seq<T>, r: Parsed<seq<T>>): Parsed<seq<T>> {
    if r.Done? then Done(done + r.value, r.rest) else r
  }

  lemma {:induction false} ChainNothing<T>(r: Parsed<seq<T>>)
    ensures Chain([], r) == r
  {
    if r.Done? {
      assert [] + r.value == r.value;
    }
  }

  lemma {:induction false} ChainBefore<T>(done: seq<T>, x: T, r: Parsed<seq<T>>)
    ensures Chain(done, Before(x, r)) == Chain(done + [x], r)
  {
    if r.Done? {
      assert done + ([x] + r.value) == done + [x] + r.value;
    }
  }

  lemma {:induction false} ReadCharRest(t: string)
    requires t != "" && ReadChar(t).Done?
    ensures ReadChar(t).rest == t[|t| - |ReadChar(t).rest|..]
  {
    hide HexNumber;
    if t[0] == '\\' {
      var u := t[1..];
      assert u[1..] == t[2..];
      assert |u| >= 5 ==> u[1..][4..] == t[6..];
    }
  }

  lemma {:induction false} BodyStep(t: string)
    requires t != "" && t[0] != '"'
    ensures StringBody(t) == (match ReadChar(t) case Fail(e) => Fail(e) case Done(c, u) => Before(c, StringBody(u)))
  {
    hide ReadChar;
  }

  method ReadString(s: string) returns (r: Parsed<string>)
    ensures r == ParseString(s)
  {
    hide ReadChar, StringBody;
    if !Starts(s, '"') {
      return Fail(ExpectedQuote);
    }
    var result: string := "";
    var i: nat := 1;
    ChainNothing(StringBody(s[1..]));
    while i < |s|
      invariant 1 <= i <= |s|
      invariant StringBody(s[1..]) == Chain(result, StringBody(s[i..]))
    {
      if s[i] == '"' {
        BodyEnd(s[i..]);
        assert result + "" == result;
        return Done(result, s[i + 1..]);
      }
      var c := ReadChar(s[i..]);
      BodyStep(s[i..]);
      if c.Fail? {
        return Fail(c.error);
      }
      ReadCharRest(s[i..]);
      ChainBefore(result, c.value, StringBody(c.rest));
      result := result + [c.value];
      i := |s| - |c.rest|;
      assert c.rest == s[i..];
    }
    assert s[i..] == "";
    BodyOfNothing();
    return Fail(Unterminated);
  }

  lemma {:induction false} BodyEnd(t: string)
    requires t != "" && t[0] == '"'
    ensures StringBody(t) == Done("", t[1..])
  {
  }

  lemma {:induction false} BodyOfNothing()
    ensures StringBody("") == Fail(Unterminated)
  {
  }

  method ReadValue(s: string) returns (r: Parsed<Json>)
    ensures r == ParseValue(s)
    decreases |s|, 1
  {
    hide Skip, ParseString, ParseBool, ParseNull, ParseNumber, ParseArray, ParseObject;
    var t := Skip(s);
    if t == "" {
      return Fail(UnexpectedEnd);
    }
    if t[0] == '"' {
      var str := ReadString(t);
      return if str.Fail? then Fail(str.error) else Done(String(str.value), str.rest);
    } else if t[0] == '{' {
      r := ReadObject(t);
    } else if t[0] == '[' {
      r := ReadArray(t);
    } else if t[0] == 't' || t[0] == 'f' {
      r := ParseBool(t);
    } else if t[0] == 'n' {
      r := ParseNull(t);
    } else if t[0] == '-' || Decimal.IsDigit(t[0]) {
      r := ParseNumber(t);
    } else {
      r := Fail(UnexpectedChar(t[0]));
    }
  }

  lemma {:induction false} ItemsUnfold(u: string)
    ensures ParseItems(u) ==
      match ParseValue(u)
      case Fail(e) => Fail(e)
      case Done(v, rest) =>
        var x := Skip(rest);
        if Starts(x, ']') then Done([v], x[1..])
        else if Starts(x, ',') then Before(v, ParseItems(Skip(x[1..])))
        else Fail(ExpectedCommaOrBracket)
  {
    hide ParseValue, Skip;
  }

  lemma {:induction false} EntriesUnfold(u: string)
    ensures ParseEntries(u) ==
      match ParseEntry(u)
      case Fail(e) => Fail(e)
      case Done(e, rest) =>
        var x := Skip(rest);
        if Starts(x, '}') then Done([e], x[1..])
        else if Starts(x, ',') then Before(e, ParseEntries(Skip(x[1..])))
        else Fail(ExpectedCommaOrBrace)
  {
    hide ParseEntry, Skip;
  }

  method ReadArray(t: string) returns (r: Parsed<Json>)
    requires Starts(t, '[')
    ensures r == ParseArray(t)
    decreases |t|, 0
  {
    hide ParseValue, Skip, ParseItems;
    var rest := Skip(t[1..]);
    if Starts(rest, ']') {
      return Done(Array([]), rest[1..]);
    }
    var items: seq<Json> := [];
    ghost var u := rest;
    ChainNothing(ParseItems(u));
    while true
      invariant |rest| < |t|
      invariant ParseItems(u) == Chain(items, ParseItems(rest))
      decreases |rest|
    {
      var v := ReadValue(rest);
      ItemsUnfold(rest);
      if v.Fail? {
        return Fail(v.error);
      }
      var x := Skip(v.rest);
      if Starts(x, ']') {
        return Done(Array(items + [v.value]), x[1..]);
      }
      if !Starts(x, ',') {
        return Fail(ExpectedCommaOrBracket);
      }
      rest := Skip(x[1..]);
      ChainBefore(items, v.value, ParseItems(rest));
      items := items + [v.value];
    }
  }

  /** A key, a colon and a value. */
  method ReadEntry(u: string) returns (r: Parsed<Entry>)
    ensures r == ParseEntry(u)
    decreases |u|, 2
  {
    hide ParseValue, Skip, ParseString;
    if !Starts(u, '"') {
      return Fail(ExpectedKey);
    }
    var key := ReadString(u);
    if key.Fail? {
      return Fail(key.error);
    }
    var x := Skip(key.rest);
    if !Starts(x, ':') {
      return Fail(ExpectedColon);
    }
    var v := ReadValue(Skip(x[1..]));
    return if v.Fail? then Fail(v.error) else Done(Entry(key.value, v.value), v.rest);
  }

  method ReadObject(t: string) returns (r: Parsed<Json>)
    requires Starts(t, '{')
    ensures r == ParseObject(t)
    decreases |t|, 0
  {
    hide ParseEntry, Skip, ParseEntries;
    var rest := Skip(t[1..]);
    if Starts(rest, '}') {
      return Done(Object([]), rest[1..]);
    }
    var entries: seq<Entry> := [];
    ghost var u := rest;
    ChainNothing(ParseEntries(u));
    while true
      invariant |rest| < |t|
      invariant ParseEntries(u) == Chain(entries, ParseEntries(rest))
      decreases |rest|
    {
      var e := ReadEntry(rest);
      EntriesUnfold(rest);
      if e.Fail? {
        return Fail(e.error);
      }
      var x := Skip(e.rest);
      if Starts(x, '}') {
        return Done(Object(entries + [e.value]), x[1..]);
      }
      if !Starts(x, ',') {
        return Fail(ExpectedCommaOrBrace);
      }
      rest := Skip(x[1..]);
      ChainBefore(entries, e.value, ParseEntries(rest));
      entries := entries + [e.value];
    }
  }

  // ----- writing -----

  /** The string being built. */
  class Buffer {
    var text: string

    constructor ()
      ensures text == ""
    {
      text := "";
    }

    method Push(s: string)
      modifies this
      ensures text == old(text) + s
    {
      text := text + s;
    }
  }

  lemma {:induction false} EscapeSnoc(s: string, c: char)
    ensures EscapeAll(s + [c]) == EscapeAll(s) + Escape(c)
  {
    hide Escape;
    if s == "" {
      assert s + [c] == [c];
      assert [c][1..] == "";
      assert EscapeAll([c]) == Escape(c) + EscapeAll("");
    } else {
      assert (s + [c])[1..] == s[1..] + [c];
      EscapeSnoc(s[1..], c);
    }
  }

  method WriteString(s: string, buf: Buffer)
    modifies buf
    ensures buf.text == old(buf.text) + StringText(s)
  {
    hide Escape;
    buf.Push("\"");
    assert s[..0] == "";
    for i := 0 to |s|
      invariant buf.text == old(buf.text) + "\"" + EscapeAll(s[..i])
    {
      EscapeSnoc(s[..i], s[i]);
      assert s[..i] + [s[i]] == s[..i + 1];
      buf.Push(Escape(s[i]));
    }
    assert s[..|s|] == s;
    buf.Push("\"");
    assert buf.text == old(buf.text) + ("\"" + EscapeAll(s) + "\"");
  }

  function Comma(first: bool): string {
    if first then "" else ","
  }

  lemma {:induction false} ItemsSnoc(fmt: Formatter, items: seq<Json>, v: Json)
    ensures ItemsText(fmt, items + [v]) == ItemsText(fmt, items) + Comma(items == []) + Text(fmt, v)
    decreases |items|
  {
    hide Text;
    if items == [] {
      assert items + [v] == [v];
    } else {
      assert (items + [v])[1..] == items[1..] + [v];
      ItemsSnoc(fmt, items[1..], v);
    }
  }

  lemma {:induction false} EntriesSnoc(fmt: Formatter, entries: seq<Entry>, e: Entry)
    ensures EntriesText(fmt, entries + [e]) == EntriesText(fmt, entries) + Comma(entries == []) + EntryText(fmt, e)
    decreases |entries|
  {
    hide EntryText;
    if entries == [] {
      assert entries + [e] == [e];
    } else {
      assert (entries + [e])[1..] == entries[1..] + [e];
      EntriesSnoc(fmt, entries[1..], e);
    }
  }

  method WriteValue(fmt: Formatter, v: Json, buf: Buffer)
    modifies buf
    ensures buf.text == old(buf.text) + Text(fmt, v)
    decreases v, 1
  {
    match v {
      case Null => buf.Push("null");
      case Bool(b) => buf.Push(if b then "true" else "false");
      case Number(n) => buf.Push(NumberText(fmt, n));
      case String(s) => WriteString(s, buf);
      case Array(items) => WriteArray(fmt, items, buf);
      case Object(entries) => WriteObject(fmt, entries, buf);
    }
  }

  method WriteArray(fmt: Formatter, items: seq<Json>, buf: Buffer)
    modifies buf
    ensures buf.text == old(buf.text) + ("[" + ItemsText(fmt, items) + "]")
    decreases items, 0
  {
    hide Text;
    buf.Push("[");
    assert items[..0] == [];
    for i := 0 to |items|
      invariant buf.text == old(buf.text) + "[" + ItemsText(fmt, items[..i])
    {
      hide ItemsText;
      ghost var soFar := buf.text;
      ItemsSnoc(fmt, items[..i], items[i]);
      assert items[..i] + [items[i]] == items[..i + 1];
      if i > 0 {
        buf.Push(",");
      }
      WriteValue(fmt, items[i], buf);
      assert buf.text == soFar + Comma(i == 0) + Text(fmt, items[i]);
    }
    assert items[..|items|] == items;
    buf.Push("]");
  }

  method WriteEntry(fmt: Formatter, e: Entry, buf: Buffer)
    modifies buf
    ensures buf.text == old(buf.text) + EntryText(fmt, e)
    decreases e, 2
  {
    hide Text, StringText;
    WriteString(e.key, buf);
    buf.Push(":");
    WriteValue(fmt, e.value, buf);
  }

  method WriteObject(fmt: Formatter, entries: seq<Entry>, buf: Buffer)
    modifies buf
    ensures buf.text == old(buf.text) + ("{" + EntriesText(fmt, entries) + "}")
    decreases entries, 0
  {
    hide Text, EntryText;
    buf.Push("{");
    assert entries[..0] == [];
    for i := 0 to |entries|
      invariant buf.text == old(buf.text) + "{" + EntriesText(fmt, entries[..i])
    {
      hide EntriesText;
      ghost var soFar := buf.text;
      EntriesSnoc(fmt, entries[..i], entries[i]);
      assert entries[..i] + [entries[i]] == entries[..i + 1];
      if i > 0 {
        buf.Push(",");
      }
      WriteEntry(fmt, entries[i], buf);
      assert buf.text == soFar + Comma(i == 0) + EntryText(fmt, entries[i]);
    }
    assert entries[..|entries|] == entries;
    buf.Push("}");
  }
}
