/** Reading back what was written: the writer's text is one of the grammar's ways to write the value. */
module JsonRoundTrip {
  import opened Results
  import opened JsonSpec
  import opened Binary64
  import opened JsonNumeral
  import opened JsonGrammar
  import opened JsonLanguage
  import Decimal

  // ----- strings -----

  lemma {:induction false} HexReads(d: nat)
    requires d < 16
    ensures IsHex(HexDigit(d)) && HexValue(HexDigit(d)) == d
  {
  }

  lemma {:induction false} HexOfByte(hi: nat, lo: nat)
    requires hi < 16 && lo < 16
    ensures HexNumber('0', '0', HexDigit(hi), HexDigit(lo)) == Some(16 * hi + lo)
  {
    HexReads(hi);
    HexReads(lo);
    assert HexValue('0') == 0;
    hide HexDigit, HexValue;
  }

  /** The escaped form of a character is a spelling of it. */
  lemma {:induction false} EscapeSpells(c: char)
    ensures Spelled(Escape(c)) == Some(c)
  {
    HexOfByte(c as int / 16 % 16, c as int % 16);
    hide HexNumber, HexDigit, CodeOf;
    if |Escape(c)| == 6 {
      CodeIs(Escape(c)[2..]);
    }
  }

  /** The escaped form, character by character: a short escape for five of them, four lower-case hexadecimal digits for
      the other controls, and anything else as it is. */
  lemma {:induction false} EscapeForm(c: char)
    ensures Escape('"') == ['\\', '"'] && Escape('\\') == ['\\', '\\']
    ensures Escape('\n') == ['\\', 'n'] && Escape('\r') == ['\\', 'r'] && Escape('\t') == ['\\', 't']
    ensures c as int < 0x20 && c != '\n' && c != '\r' && c != '\t' ==> Escape(c) == "\\u" + HexText(c as int, 4, false)
    ensures c as int >= 0x20 && c != '"' && c != '\\' ==> Escape(c) == [c]
  {
    var n := c as int;
    if n < 0x20 && c != '\n' && c != '\r' && c != '\t' {
      assert n / 16 / 16 == 0 && n / 16 % 16 == n / 16;
      HexDigitIs(n / 16);
      HexDigitIs(n % 16);
      HexDigitIs(0);
      hide HexDigit;
      assert HexText(n, 4, false) == HexText(n / 16, 3, false) + [LOWER_DIGITS[n % 16]];
      assert HexText(n / 16, 3, false) == HexText(0, 2, false) + [LOWER_DIGITS[n / 16]];
      assert HexText(0, 2, false) == HexText(0, 1, false) + [LOWER_DIGITS[0]];
      assert HexText(0, 1, false) == HexText(0, 0, false) + [LOWER_DIGITS[0]];
    }
  }

  lemma {:induction false} HexDigitIs(d: nat)
    requires d < 16
    ensures HexDigit(d) == LOWER_DIGITS[d]
  {
  }

  /** Every character comes back from its escaped form, and no escaped form starts with a quote. */
  lemma {:induction false} EscapeReads(c: char, rest: string)
    ensures ReadChar(Escape(c) + rest) == Done(c, rest)
    ensures (Escape(c) + rest)[0] != '"'
  {
    hide Escape, ReadChar, Spelled;
    EscapeSpells(c);
    SpelledReads(Escape(c), rest);
  }

  function Spelling(s: string): seq<string> {
    if s == "" then [] else [Escape(s[0])] + Spelling(s[1..])
  }

  lemma {:induction false} SpellingIs(s: string)
    ensures WellSpelled(Spelling(s)) && Chars(Spelling(s)) == s && Concat(Spelling(s)) == EscapeAll(s)
  {
    hide Escape, Spelled;
    if s != "" {
      EscapeSpells(s[0]);
      SpellingIs(s[1..]);
      assert Spelling(s)[1..] == Spelling(s[1..]);
      assert [s[0]] + s[1..] == s;
    }
  }

  lemma {:induction false} StringReads(s: string, rest: string)
    ensures ParseString(StringText(s) + rest) == Done(s, rest)
  {
    hide ParseString, Concat, EscapeAll;
    SpellingIs(s);
    QuotedParses(Spelling(s), rest);
  }

  // ----- numbers -----

  /** The text for `n` is a numeral of value `n`. */
  ghost predicate FaithfulNumber(fmt: Formatter, n: Float) {
    Denotes(NumberText(fmt, n), n)
  }

  lemma {:induction false} IntegerNumeral(minus: bool, d: string)
    requires Digits(d)
    ensures var n := Numeral(minus, d, None, None);
            && GoodNumeral(n) && RenderNumeral(n) == (if minus then "-" else "") + d
            && Exact(n) == if minus then -(Decimal.Value(d) as real) else Decimal.Value(d) as real
  {
    assert d + "" == d;
    assert Decimal.Pow10(0) == 1;
    hide Decimal.Value, Decimal.Pow10;
  }

  /** Whole numbers on the integer path are always written faithfully, whatever the formatter does elsewhere. */
  lemma {:induction false} WholeIsFaithful(fmt: Formatter, n: Float)
    requires IsWhole(n) && IsBinary64(n.value)
    ensures FaithfulNumber(fmt, n)
  {
    hide Decimal.Text, Decimal.Value, GoodNumeral, RenderNumeral, Exact, NumberText, Decimal.AllDigits, Round,
      IsBinary64;
    var i := n.value.Floor;
    var magnitude: nat := if i < 0 then -i else i;
    Decimal.TextValue(magnitude);
    IntegerNumeral(i < 0, Decimal.Text(magnitude));
    WholeText(fmt, n, magnitude);
    RoundExact(n.value);
    assert Spells(Numeral(i < 0, Decimal.Text(magnitude), None, None), NumberText(fmt, n), n);
  }

  lemma {:induction false} WholeText(fmt: Formatter, n: Float, magnitude: nat)
    requires IsWhole(n) && magnitude == if n.value.Floor < 0 then -n.value.Floor else n.value.Floor
    ensures NumberText(fmt, n) == (if n.value.Floor < 0 then "-" else "") + Decimal.Text(magnitude)
    ensures n.value == if n.value.Floor < 0 then -(magnitude as real) else magnitude as real
  {
    hide Decimal.Text;
    assert "" + Decimal.Text(magnitude) == Decimal.Text(magnitude);
  }

  /** A number is printed as an integer, with a minus sign if it is negative, exactly when it is whole and below 2^63 in
      size; any other goes to the formatter. */
  lemma {:induction false} NumberTextIs(fmt: Formatter, n: Float, i: int)
    ensures n == Finite(i as real) && -0x8000_0000_0000_0000 < i < 0x8000_0000_0000_0000 ==>
              NumberText(fmt, n) == (if i < 0 then "-" + Decimal.Text(-i) else Decimal.Text(i))
    ensures n == Finite(i as real) && !(-0x8000_0000_0000_0000 < i < 0x8000_0000_0000_0000) ==>
            NumberText(fmt, n) == fmt(n)
    ensures (n.Finite? ==> n.value != n.value.Floor as real) ==> NumberText(fmt, n) == fmt(n)
  {
    hide Decimal.Text;
    assert n == Finite(i as real) ==> n.value.Floor == i;
  }

  // ----- values -----

  ghost predicate Faithful(fmt: Formatter, v: Json)
    decreases v
  {
    match v
    case Number(n) => FaithfulNumber(fmt, n)
    case Array(items) => forall i :: 0 <= i < |items| ==> Faithful(fmt, items[i])
    case Object(entries) => forall i :: 0 <= i < |entries| ==> Faithful(fmt, entries[i].value)
    case _ => true
  }

  /** All the numbers are floats on the integer path. */
  ghost predicate WholeNumbers(v: Json)
    decreases v
  {
    match v
    case Number(n) => IsWhole(n) && IsBinary64(n.value)
    case Array(items) => forall i :: 0 <= i < |items| ==> WholeNumbers(items[i])
    case Object(entries) => forall i :: 0 <= i < |entries| ==> WholeNumbers(entries[i].value)
    case _ => true
  }

  lemma {:induction false} WholeNumbersAreFaithful(fmt: Formatter, v: Json)
    requires WholeNumbers(v)
    ensures Faithful(fmt, v)
    decreases v
  {
    hide FaithfulNumber, IsWhole, IsBinary64;
    match v
    case Number(n) => WholeIsFaithful(fmt, n);
    case Array(items) =>
      forall i | 0 <= i < |items| ensures Faithful(fmt, items[i]) {
        WholeNumbersAreFaithful(fmt, items[i]);
      }
    case Object(entries) =>
      forall i | 0 <= i < |entries| ensures Faithful(fmt, entries[i].value) {
        WholeNumbersAreFaithful(fmt, entries[i].value);
      }
    case _ =>
  }

  /** The document the writer writes: no white space, and its own spelling of every character. */
  ghost function Written(fmt: Formatter, v: Json): Doc
    requires Faithful(fmt, v)
    decreases v, 1
  {
    match v
    case Null => DNull
    case Bool(b) => DBool(b)
    case Number(n) => DNumber(WrittenNumber(fmt, n))
    case String(s) => DString(Spelling(s))
    case Array(items) => DArray("", WrittenItems(fmt, items))
    case Object(entries) => DObject("", WrittenMembers(fmt, entries))
  }

  ghost function WrittenNumber(fmt: Formatter, n: Float): (m: Numeral)
    requires FaithfulNumber(fmt, n)
    ensures Spells(m, NumberText(fmt, n), n)
  {
    var m :| Spells(m, NumberText(fmt, n), n);
    m
  }

  ghost function WrittenItems(fmt: Formatter, items: seq<Json>): (docs: seq<Item>)
    requires forall i :: 0 <= i < |items| ==> Faithful(fmt, items[i])
    ensures |docs| == |items|
    decreases items, 0
  {
    if items == [] then [] else [Item("", Written(fmt, items[0]), "")] + WrittenItems(fmt, items[1..])
  }

  ghost function WrittenMembers(fmt: Formatter, entries: seq<Entry>): (docs: seq<Member>)
    requires forall i :: 0 <= i < |entries| ==> Faithful(fmt, entries[i].value)
    ensures |docs| == |entries|
    decreases entries, 0
  {
    if entries == [] then []
    else
      [Member("", Spelling(entries[0].key), "", "", Written(fmt, entries[0].value), "")]
      + WrittenMembers(fmt, entries[1..])
  }

  /** The writer's text is a document of the grammar that means the value. */
  lemma {:induction false} TextIsWritten(fmt: Formatter, v: Json)
    requires Faithful(fmt, v)
    ensures var d := Written(fmt, v); Good(d) && Meaning(d) == v && Render(d) == Text(fmt, v)
    decreases v, 1
  {
    hide Written, Good, Meaning, Render, Text, GoodItem, GoodMember, ItemsText, EntriesText, RenderItems, RenderMembers,
      MeaningItems, MeaningMembers, WrittenItems, WrittenMembers, FaithfulNumber;
    match v
    case Array(items) =>
      ItemsAreWritten(fmt, items);
      ArrayIsWritten(fmt, items);
    case Object(entries) =>
      EntriesAreWritten(fmt, entries);
      ObjectIsWritten(fmt, entries);
    case _ => LeafIsWritten(fmt, v);
  }

  lemma {:induction false} LeafIsWritten(fmt: Formatter, v: Json)
    requires Faithful(fmt, v) && !v.Array? && !v.Object?
    ensures var d := Written(fmt, v); Good(d) && Meaning(d) == v && Render(d) == Text(fmt, v)
  {
    hide Spelling, EscapeAll, Concat, Chars, WellSpelled, WrittenNumber, NumberText, GoodNumeral, RenderNumeral,
      NumeralValue, FaithfulNumber;
    if v.String? {
      SpellingIs(v.s);
    }
  }

  lemma {:induction false} ArrayIsWritten(fmt: Formatter, items: seq<Json>)
    requires Faithful(fmt, Array(items)) && forall i :: 0 <= i < |items| ==> Faithful(fmt, items[i])
    requires var docs := WrittenItems(fmt, items);
             GoodItems(docs) && MeaningItems(docs) == items && RenderItems(docs) == ItemsText(fmt, items)
    ensures var d := Written(fmt, Array(items));
            Good(d) && Meaning(d) == Array(items) && Render(d) == Text(fmt, Array(items))
  {
    assert ItemsText(fmt, []) == "";
    hide ItemsText, RenderItems, WrittenItems, GoodItem, MeaningItems, Faithful;
  }

  lemma {:induction false} ObjectIsWritten(fmt: Formatter, entries: seq<Entry>)
    requires Faithful(fmt, Object(entries)) && forall i :: 0 <= i < |entries| ==> Faithful(fmt, entries[i].value)
    requires var docs := WrittenMembers(fmt, entries);
             GoodMembers(docs) && MeaningMembers(docs) == entries && RenderMembers(docs) == EntriesText(fmt, entries)
    ensures var d := Written(fmt, Object(entries));
            Good(d) && Meaning(d) == Object(entries) && Render(d) == Text(fmt, Object(entries))
  {
    assert EntriesText(fmt, []) == "";
    hide EntriesText, RenderMembers, WrittenMembers, GoodMember, MeaningMembers, Faithful;
  }

  lemma {:induction false} ItemsAreWritten(fmt: Formatter, items: seq<Json>)
    requires forall i :: 0 <= i < |items| ==> Faithful(fmt, items[i])
    ensures var docs := WrittenItems(fmt, items);
            GoodItems(docs) && MeaningItems(docs) == items && RenderItems(docs) == ItemsText(fmt, items)
    decreases items, 0
  {
    if items != [] {
      TextIsWritten(fmt, items[0]);
      ItemsAreWritten(fmt, items[1..]);
      hide Written, Render, Good, Meaning, Text, Faithful;
      var docs := WrittenItems(fmt, items);
      assert docs[1..] == WrittenItems(fmt, items[1..]);
      assert GoodItem(docs[0]);
      assert RenderItem(docs[0]) == Text(fmt, items[0]);
      assert [items[0]] + items[1..] == items;
    }
  }

  lemma {:induction false} MemberIsWritten(fmt: Formatter, e: Entry, d: Doc)
    requires Render(d) == Text(fmt, e.value)
    ensures RenderMember(Member("", Spelling(e.key), "", "", d, "")) == EntryText(fmt, e)
  {
    hide Render, Text, Concat, EscapeAll, Spelling;
    SpellingIs(e.key);
  }

  lemma {:induction false} EntriesAreWritten(fmt: Formatter, entries: seq<Entry>)
    requires forall i :: 0 <= i < |entries| ==> Faithful(fmt, entries[i].value)
    ensures var docs := WrittenMembers(fmt, entries);
            GoodMembers(docs) && MeaningMembers(docs) == entries && RenderMembers(docs) == EntriesText(fmt, entries)
    decreases entries, 0
  {
    if entries != [] {
      var e := entries[0];
      TextIsWritten(fmt, e.value);
      EntriesAreWritten(fmt, entries[1..]);
      hide Written, Render, Good, Meaning, Text, Spelling, WellSpelled, Chars, RenderMember, EntryText;
      var docs := WrittenMembers(fmt, entries);
      SpellingIs(e.key);
      MemberIsWritten(fmt, e, Written(fmt, e.value));
      assert docs[1..] == WrittenMembers(fmt, entries[1..]);
      assert GoodMember(docs[0]);
      assert [e] + entries[1..] == entries;
    }
  }

  /** Reading the text of `v` followed by anything that cannot extend a number gives back `v` and that rest. */
  lemma {:induction false} TextReads(fmt: Formatter, v: Json, rest: string)
    requires Faithful(fmt, v)
    requires Stops(rest)
    ensures ParseValue(Text(fmt, v) + rest) == Done(v, rest)
  {
    hide *;
    TextIsWritten(fmt, v);
    DocReads(Written(fmt, v), rest);
  }

  /** Parsing inverts serializing, with or without white space around the document, for every value whose numbers
      the formatter writes faithfully. */
  lemma {:induction false} ParseSerialize(fmt: Formatter, v: Json, before: string, after: string)
    requires Faithful(fmt, v)
    requires AllSpace(before) && AllSpace(after)
    ensures Parse(before + Text(fmt, v) + after) == Ok(v)
  {
    hide *;
    TextIsWritten(fmt, v);
    DocumentParses(before, Written(fmt, v), after);
  }

  /** The same for every value whose numbers are whole and inside the 64-bit range, with no condition on the
      formatter; so two different such values never have the same text. */
  lemma {:induction false} WholeRoundTrip(fmt: Formatter, v: Json)
    requires WholeNumbers(v)
    ensures Parse(Text(fmt, v)) == Ok(v)
  {
    WholeNumbersAreFaithful(fmt, v);
    ParseSerialize(fmt, v, "", "");
    assert "" + Text(fmt, v) + "" == Text(fmt, v);
  }

  lemma {:induction false} TextInjective(fmt: Formatter, v: Json, w: Json)
    requires WholeNumbers(v) && WholeNumbers(w)
    ensures Text(fmt, v) == Text(fmt, w) <==> v == w
  {
    WholeRoundTrip(fmt, v);
    WholeRoundTrip(fmt, w);
  }
}
