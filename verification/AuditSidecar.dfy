/** The JSON sidecar an audit record carries, written by its own loop and read back by the JSON reader. */
module AuditSidecar {
  import opened Results
  import opened JsonSpec
  import JsonRoundTrip
  import JsonMachine

  datatype Extra = Extra(key: string, value: string)

  function AsEntries(extra: seq<Extra>): (es: seq<Entry>)
    ensures |es| == |extra|
  {
    if extra == [] then [] else [Entry(extra[0].key, String(extra[0].value))] + AsEntries(extra[1..])
  }

  /** The lowest four hexadecimal digits, in lower case. */
  function HexWord(n: nat): string {
    [HexDigit(n / 4096 % 16), HexDigit(n / 256 % 16), HexDigit(n / 16 % 16), HexDigit(n % 16)]
  }

  /** The sidecar's own escaping of one character. */
  function EscapedChar(c: char): string {
    match c
    case '\\' => "\\\\"
    case '"' => "\\\""
    case '\n' => "\\n"
    case '\r' => "\\r"
    case '\t' => "\\t"
    case _ => if c as int < 0x20 then "\\u" + HexWord(c as int) else [c]
  }

  /** The sidecar and the JSON writer escape alike. */
  lemma {:induction false} EscapesAlike(c: char)
    ensures EscapedChar(c) == Escape(c)
  {
    var n := c as int;
    if n < 0x20 {
      assert n / 4096 % 16 == 0 && n / 256 % 16 == 0 && n / 16 % 16 == n / 16;
      assert HexDigit(0) == '0';
      hide HexDigit;
      assert "\\u" + HexWord(n) == "\\u00" + [HexDigit(n / 16), HexDigit(n % 16)];
    }
  }

  method EscapeJson(s: string) returns (out: string)
    ensures out == EscapeAll(s)
  {
    hide Escape, EscapedChar;
    out := "";
    assert s[..0] == "";
    for i := 0 to |s|
      invariant out == EscapeAll(s[..i])
    {
      JsonMachine.EscapeSnoc(s[..i], s[i]);
      assert s[..i] + [s[i]] == s[..i + 1];
      EscapesAlike(s[i]);
      out := out + EscapedChar(s[i]);
    }
    assert s[..|s|] == s;
  }

  lemma {:induction false} AsEntriesSnoc(extra: seq<Extra>, x: Extra)
    ensures AsEntries(extra + [x]) == AsEntries(extra) + [Entry(x.key, String(x.value))]
  {
    if extra == [] {
      assert extra + [x] == [x];
      assert [x][1..] == [];
    } else {
      assert (extra + [x])[1..] == extra[1..] + [x];
      AsEntriesSnoc(extra[1..], x);
    }
  }

  lemma {:induction false} PairText(fmt: Formatter, x: Extra)
    ensures EntryText(fmt, Entry(x.key, String(x.value)))
         == "\"" + EscapeAll(x.key) + "\":\"" + EscapeAll(x.value) + "\""
  {
    hide EscapeAll;
  }

  method AppendPair(s: string, x: Extra, ghost fmt: Formatter) returns (t: string)
    ensures t == s + EntryText(fmt, Entry(x.key, String(x.value)))
  {
    hide EscapeAll, EntryText;
    var k := EscapeJson(x.key);
    var v := EscapeJson(x.value);
    PairText(fmt, x);
    t := s + "\"" + k + "\":\"" + v + "\"";
  }

  lemma {:induction false} PrefixStep(fmt: Formatter, extra: seq<Extra>, i: nat)
    requires i < |extra|
    ensures EntriesText(fmt, AsEntries(extra[..i + 1]))
         == EntriesText(fmt, AsEntries(extra[..i])) + JsonMachine.Comma(i == 0)
            + EntryText(fmt, Entry(extra[i].key, String(extra[i].value)))
  {
    hide EntriesText, AsEntries, EntryText;
    AsEntriesSnoc(extra[..i], extra[i]);
    assert extra[..i] + [extra[i]] == extra[..i + 1];
    JsonMachine.EntriesSnoc(fmt, AsEntries(extra[..i]), Entry(extra[i].key, String(extra[i].value)));
  }

  /** The sidecar is the text of an object whose entries are the pairs, in order, whatever the formatter. */
  method ExtraToJson(extra: seq<Extra>, ghost fmt: Formatter) returns (s: string)
    ensures s == Text(fmt, Object(AsEntries(extra)))
  {
    s := "{";
    assert AsEntries(extra[..0]) == [];
    assert extra[..|extra|] == extra;
    for i := 0 to |extra|
      invariant s == "{" + EntriesText(fmt, AsEntries(extra[..i]))
    {
      hide *;
      PrefixStep(fmt, extra, i);
      var separator := JsonMachine.Comma(i == 0);
      s := s + separator;
      s := AppendPair(s, extra[i], fmt);
    }
    s := s + "}";
  }

  lemma {:induction false} AsEntriesWhole(extra: seq<Extra>)
    ensures forall i :: 0 <= i < |extra| ==> AsEntries(extra)[i] == Entry(extra[i].key, String(extra[i].value))
  {
    if extra != [] {
      AsEntriesWhole(extra[1..]);
    }
  }

  /** Reading the sidecar gives back exactly the pairs that were put in, in order, for any keys and values. */
  lemma {:induction false} SidecarReadsBack(fmt: Formatter, extra: seq<Extra>)
    ensures Parse(Text(fmt, Object(AsEntries(extra)))) == Ok(Object(AsEntries(extra)))
    ensures forall i :: 0 <= i < |extra| ==> AsEntries(extra)[i] == Entry(extra[i].key, String(extra[i].value))
  {
    AsEntriesWhole(extra);
    var v := Object(AsEntries(extra));
    hide Parse, Text, AsEntries;
    assert JsonRoundTrip.WholeNumbers(v);
    JsonRoundTrip.WholeRoundTrip(fmt, v);
  }
}
