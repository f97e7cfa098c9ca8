/** Exactly which values come back from their text: those without infinities and without NaN. */
module JsonReturns {
  import opened Results
  import opened Binary64
  import opened JsonSpec
  import opened JsonNumeral
  import opened JsonLanguage
  import opened JsonRoundTrip
  import Decimal

  /** Finite numbers are printed as a numeral that is nearest to them, the others by name. */
  ghost predicate Prints(fmt: Formatter) {
    && fmt(Infinite(false)) == "inf" && fmt(Infinite(true)) == "-inf" && fmt(NaN) == "NaN"
    && forall x :: IsBinary64(x) ==> Denotes(fmt(Finite(x)), Finite(x))
  }

  /** Every finite number in the value is a value of the format. */
  ghost predicate Floats(v: Json)
    decreases v
  {
    match v
    case Number(n) => n.Finite? ==> IsBinary64(n.value)
    case Array(items) => forall i :: 0 <= i < |items| ==> Floats(items[i])
    case Object(entries) => forall i :: 0 <= i < |entries| ==> Floats(entries[i].value)
    case _ => true
  }

  predicate AllFinite(v: Json)
    decreases v
  {
    match v
    case Number(n) => n.Finite?
    case Array(items) => forall i :: 0 <= i < |items| ==> AllFinite(items[i])
    case Object(entries) => forall i :: 0 <= i < |entries| ==> AllFinite(entries[i].value)
    case _ => true
  }

  lemma {:induction false} FiniteNumber(fmt: Formatter, n: Float)
    requires Prints(fmt) && n.Finite? && IsBinary64(n.value)
    ensures FaithfulNumber(fmt, n)
  {
    hide IsBinary64, Denotes;
    if IsWhole(n) {
      WholeIsFaithful(fmt, n);
    } else {
      assert Denotes(fmt(Finite(n.value)), Finite(n.value));
    }
  }

  lemma {:induction false} FiniteIsFaithful(fmt: Formatter, v: Json)
    requires Prints(fmt) && Floats(v) && AllFinite(v)
    ensures Faithful(fmt, v)
    decreases v
  {
    hide FaithfulNumber, IsBinary64, Prints;
    match v
    case Number(n) => FiniteNumber(fmt, n);
    case Array(items) =>
      forall i | 0 <= i < |items| ensures Faithful(fmt, items[i]) {
        FiniteIsFaithful(fmt, items[i]);
      }
    case Object(entries) =>
      forall i | 0 <= i < |entries| ensures Faithful(fmt, entries[i].value) {
        FiniteIsFaithful(fmt, entries[i].value);
      }
    case _ =>
  }

  // ----- the ends of a text -----

  /** Text whose first and last characters are no white space and which does not close a bracket or brace. */
  predicate Trimmed(s: string) {
    s != "" && !IsSpace(s[0]) && s[0] != ']' && s[0] != '}' && !IsSpace(s[|s| - 1])
  }

  lemma {:induction false} NumberTrimmed(fmt: Formatter, n: Float)
    requires Prints(fmt) && (n.Finite? ==> IsBinary64(n.value))
    ensures Trimmed(NumberText(fmt, n))
  {
    hide IsBinary64, Denotes;
    if n.Finite? {
      FiniteNumber(fmt, n);
      DenotedTrimmed(NumberText(fmt, n), n);
    }
  }

  lemma {:induction false} DenotedTrimmed(s: string, x: Float)
    requires Denotes(s, x)
    ensures Trimmed(s)
  {
    hide GoodNumeral, RenderNumeral, NumeralValue;
    var n :| Spells(n, s, x);
    NumeralOpens(n);
    NumeralCloses(n);
  }

  lemma {:induction false} TextTrimmed(fmt: Formatter, v: Json)
    requires Prints(fmt) && Floats(v)
    ensures Trimmed(Text(fmt, v))
  {
    hide ItemsText, EntriesText, NumberText, IsBinary64, Prints, EscapeAll;
    if v.Number? {
      NumberTrimmed(fmt, v.n);
    }
  }

  lemma {:induction false} SkipTrimmed(s: string, rest: string)
    requires Trimmed(s)
    ensures Skip(s + rest) == s + rest && (s + rest)[0] == s[0]
  {
  }

  // ----- what is not finite is not read -----

  lemma {:induction false} NumberUnreadable(fmt: Formatter, n: Float, rest: string)
    requires Prints(fmt) && !n.Finite?
    ensures ParseValue(NumberText(fmt, n) + rest).Fail?
  {
    var s := NumberText(fmt, n) + rest;
    assert Skip(s) == s;
    assert s[0] == 'i' || s[0] == 'N' || (s[0] == '-' && s[1] == 'i');
    hide Prints;
    if s[0] == '-' {
      assert IntegerEnd(s, 1).Err?;
      assert ParseNumber(s).Fail?;
    }
  }

  lemma {:induction false} FirstFails(u: string)
    requires ParseValue(u).Fail?
    ensures ParseItems(u).Fail?
  {
    hide ParseValue;
  }

  lemma {:induction false} LaterFails(u: string, v: Json, x: string)
    requires ParseValue(u) == Done(v, x) && Skip(x) == x && Starts(x, ',') && ParseItems(Skip(x[1..])).Fail?
    ensures ParseItems(u).Fail?
  {
    hide ParseValue, Skip;
  }

  lemma {:induction false} ArrayFails(t: string)
    requires Starts(t, '[') && Skip(t[1..]) == t[1..] && !Starts(t[1..], ']') && ParseItems(t[1..]).Fail?
    ensures ParseValue(t).Fail?
  {
    SkipNothing(t);
    hide Skip, ParseItems, ParseObject;
  }

  lemma {:induction false} EntryFails(u: string, key: string, x: string)
    requires Starts(u, '"') && ParseString(u) == Done(key, x) && Skip(x) == x && Starts(x, ':')
    requires ParseValue(Skip(x[1..])).Fail?
    ensures ParseEntry(u).Fail?
  {
    hide Skip, ParseValue, ParseString;
  }

  lemma {:induction false} FirstEntryFails(u: string)
    requires ParseEntry(u).Fail?
    ensures ParseEntries(u).Fail?
  {
    hide ParseEntry;
  }

  lemma {:induction false} LaterEntryFails(u: string, e: Entry, x: string)
    requires ParseEntry(u) == Done(e, x) && Skip(x) == x && Starts(x, ',') && ParseEntries(Skip(x[1..])).Fail?
    ensures ParseEntries(u).Fail?
  {
    hide ParseEntry, Skip;
  }

  lemma {:induction false} ObjectFails(t: string)
    requires Starts(t, '{') && Skip(t[1..]) == t[1..] && !Starts(t[1..], '}') && ParseEntries(t[1..]).Fail?
    ensures ParseValue(t).Fail?
  {
    SkipNothing(t);
    hide Skip, ParseEntries, ParseArray;
  }

  /** What follows the first of some items or entries. */
  lemma {:induction false} AfterFirst(x: string, next: string)
    requires x == "," + next && next != "" && !IsSpace(next[0])
    ensures Stops(x) && Skip(x) == x && Starts(x, ',') && x[1..] == next && Skip(x[1..]) == next
  {
  }

  /** The text of a value with a number that is not finite cannot be read, whatever follows it. */
  lemma {:induction false} Unreadable(fmt: Formatter, v: Json, rest: string)
    requires Prints(fmt) && Floats(v) && !AllFinite(v)
    ensures ParseValue(Text(fmt, v) + rest).Fail?
    decreases v, 1
  {
    hide ParseValue, ParseItems, ParseEntries, Skip, ItemsText, EntriesText, NumberText, Prints, IsBinary64;
    var t := Text(fmt, v) + rest;
    match v
    case Number(n) => NumberUnreadable(fmt, n, rest);
    case Array(items) =>
      ItemsUnreadable(fmt, items, rest);
      assert t[1..] == ItemsText(fmt, items) + "]" + rest;
      ArrayFails(t);
    case Object(entries) =>
      EntriesUnreadable(fmt, entries, rest);
      assert t[1..] == EntriesText(fmt, entries) + "}" + rest;
      ObjectFails(t);
    case _ =>
  }

  lemma {:induction false} ItemsShape(fmt: Formatter, items: seq<Json>, rest: string)
    requires items != []
    ensures ItemsText(fmt, items) + "]" + rest == Text(fmt, items[0]) +
      if |items| == 1 then "]" + rest else "," + (ItemsText(fmt, items[1..]) + "]" + rest)
  {
    hide Text;
  }

  lemma {:induction false} EntriesShape(fmt: Formatter, entries: seq<Entry>, rest: string)
    requires entries != []
    ensures EntriesText(fmt, entries) + "}" + rest == EntryText(fmt, entries[0]) +
      if |entries| == 1 then "}" + rest else "," + (EntriesText(fmt, entries[1..]) + "}" + rest)
  {
    hide EntryText;
  }

  lemma {:induction false} ItemsUnreadable(fmt: Formatter, items: seq<Json>, rest: string)
    requires Prints(fmt) && forall i :: 0 <= i < |items| ==> Floats(items[i])
    requires exists i :: 0 <= i < |items| && !AllFinite(items[i])
    ensures var u := ItemsText(fmt, items) + "]" + rest;
            ParseItems(u).Fail? && Skip(u) == u && !Starts(u, ']')
    decreases items, 0
  {
    hide ParseValue, ParseItems, Skip, Text, ItemsText, Prints, Floats, AllFinite, Faithful, Stops;
    var u := ItemsText(fmt, items) + "]" + rest;
    var x := if |items| == 1 then "]" + rest else "," + (ItemsText(fmt, items[1..]) + "]" + rest);
    ItemsShape(fmt, items, rest);
    TextTrimmed(fmt, items[0]);
    SkipTrimmed(Text(fmt, items[0]), x);
    if !AllFinite(items[0]) {
      Unreadable(fmt, items[0], x);
      FirstFails(u);
    } else {
      var i :| 0 <= i < |items| && !AllFinite(items[i]);
      assert items[1..][i - 1] == items[i];
      ItemsUnreadable(fmt, items[1..], rest);
      var next := ItemsText(fmt, items[1..]) + "]" + rest;
      NextStarts(fmt, items[1..], rest);
      AfterFirst(x, next);
      FiniteIsFaithful(fmt, items[0]);
      TextReads(fmt, items[0], x);
      LaterFails(u, items[0], x);
    }
  }

  lemma {:induction false} NextStarts(fmt: Formatter, items: seq<Json>, rest: string)
    requires items != [] && Prints(fmt) && Floats(items[0])
    ensures var u := ItemsText(fmt, items) + "]" + rest; u != "" && !IsSpace(u[0])
  {
    hide Text, Prints, Floats, ItemsText;
    ItemsShape(fmt, items, rest);
    TextTrimmed(fmt, items[0]);
  }

  lemma {:induction false} EntryShape(fmt: Formatter, e: Entry, rest: string)
    ensures EntryText(fmt, e) + rest == StringText(e.key) + (":" + (Text(fmt, e.value) + rest))
    ensures Starts(EntryText(fmt, e) + rest, '"')
  {
    assert StringText(e.key)[0] == '"';
    hide StringText, Text;
  }

  /** The key and the colon of an entry. */
  lemma {:induction false} KeyRead(fmt: Formatter, e: Entry, rest: string)
    requires Prints(fmt) && Floats(e.value)
    ensures var (u, x) := (EntryText(fmt, e) + rest, ":" + (Text(fmt, e.value) + rest));
            && Starts(u, '"') && ParseString(u) == Done(e.key, x) && Skip(x) == x && Starts(x, ':')
            && Skip(x[1..]) == Text(fmt, e.value) + rest
  {
    hide ParseString, StringText, Text, Prints, Floats, Trimmed, EntryText;
    var x := ":" + (Text(fmt, e.value) + rest);
    EntryShape(fmt, e, rest);
    StringReads(e.key, x);
    TextTrimmed(fmt, e.value);
    SkipTrimmed(Text(fmt, e.value), rest);
    assert x[1..] == Text(fmt, e.value) + rest;
    SkipNothing(x);
  }

  lemma {:induction false} EntriesUnreadable(fmt: Formatter, entries: seq<Entry>, rest: string)
    requires Prints(fmt) && forall i :: 0 <= i < |entries| ==> Floats(entries[i].value)
    requires exists i :: 0 <= i < |entries| && !AllFinite(entries[i].value)
    ensures var u := EntriesText(fmt, entries) + "}" + rest;
            ParseEntries(u).Fail? && Skip(u) == u && Starts(u, '"')
    decreases entries, 0
  {
    hide ParseValue, ParseEntry, ParseEntries, ParseString, Skip, Text, EntryText, EntriesText, Prints, Floats,
      AllFinite,
      Faithful, Stops;
    var u := EntriesText(fmt, entries) + "}" + rest;
    var next := if |entries| == 1 then "" else EntriesText(fmt, entries[1..]) + "}" + rest;
    var x := if |entries| == 1 then "}" + rest else "," + next;
    var e := entries[0];
    EntriesShape(fmt, entries, rest);
    KeyRead(fmt, e, x);
    SkipNothing(u);
    var after := ":" + (Text(fmt, e.value) + x);
    if !AllFinite(e.value) {
      Unreadable(fmt, e.value, x);
      EntryFails(u, e.key, after);
      FirstEntryFails(u);
    } else {
      var i :| 0 <= i < |entries| && !AllFinite(entries[i].value);
      assert entries[1..][i - 1] == entries[i];
      EntriesUnreadable(fmt, entries[1..], rest);
      QuoteNoSpace(next);
      AfterFirst(x, next);
      FiniteIsFaithful(fmt, e.value);
      TextReads(fmt, e.value, x);
      EntryNext(u, e.key, after, after, e.value, x);
      LaterEntryFails(u, e, x);
    }
  }

  lemma {:induction false} QuoteNoSpace(u: string)
    requires Starts(u, '"')
    ensures u != "" && !IsSpace(u[0])
  {
  }

  // ----- whole documents -----

  lemma {:induction false} TrimTrimmed(s: string)
    requires Trimmed(s)
    ensures Trim(s) == s
  {
  }

  /** Every value of floats comes back from its text exactly when all its numbers are finite; otherwise its text is
      not accepted at all. */
  lemma {:induction false} ReturnsIff(fmt: Formatter, v: Json)
    requires Prints(fmt) && Floats(v)
    ensures Parse(Text(fmt, v)) == Ok(v) <==> AllFinite(v)
    ensures !AllFinite(v) ==> Parse(Text(fmt, v)).Err?
  {
    hide Prints, Floats, AllFinite, Text, ParseValue, Faithful, Trim;
    var t := Text(fmt, v);
    if AllFinite(v) {
      FiniteIsFaithful(fmt, v);
      ParseSerialize(fmt, v, "", "");
      assert "" + t + "" == t;
    } else {
      Unreadable(fmt, v, "");
      TextTrimmed(fmt, v);
      TrimTrimmed(t);
      assert t + "" == t;
    }
  }

  // ----- such printing is possible -----

  function FiveTo(n: nat): (p: nat)
    ensures p >= 1
  {
    if n == 0 then 1 else 5 * FiveTo(n - 1)
  }

  lemma {:induction false} TenIsTwoFives(n: nat)
    ensures Decimal.Pow10(n) == Whole(n) * FiveTo(n)
  {
    if n > 0 {
      TenIsTwoFives(n - 1);
      var w, f := Whole(n - 1), FiveTo(n - 1);
      assert 10 * (w * f) == (2 * w) * (5 * f);
    }
  }

  /** A significand with a negative exponent, as a decimal fraction. */
  lemma {:induction false} DownScaled(k: nat, n: nat)
    ensures (k * FiveTo(n)) as real / Decimal.Pow10(n) as real == Times(k, TwoTo(0 - n))
  {
    TenIsTwoFives(n);
    TwoToMultiple(0 - n, n);
    assert 0 - n + n == 0 && TwoTo(0) == 1.0;
    var (w, f, t) := (Whole(n), FiveTo(n), TwoTo(0 - n));
    assert Times(w, t) == 1.0;
    hide TwoTo, Whole, FiveTo, Decimal.Pow10;
    Cancel(k as real, w as real, f as real, t);
    assert (k * f) as real == k as real * f as real && (w * f) as real == w as real * f as real;
  }

  lemma {:induction false} Cancel(k: real, w: real, f: real, t: real)
    requires w >= 1.0 && f >= 1.0 && w * t == 1.0
    ensures w * f > 0.0 && (k * f) / (w * f) == k * t
  {
    assert w * f > 0.0;
    assert (k * t) * (w * f) == (k * f) * (w * t);
  }

  lemma {:induction false} UpScaled(k: nat, n: nat)
    ensures (k * Whole(n)) as real == Times(k, TwoTo(n))
  {
    TwoToMultiple(0, n);
    assert TwoTo(0) == 1.0;
    hide TwoTo, Whole;
    assert 0 + n == n;
    assert (k * Whole(n)) as real == k as real * Whole(n) as real;
  }

  /** The exact decimal numeral of a float. */
  function NumeralFor(k: int, j: int): Numeral {
    var m: nat := if k < 0 then -k else k;
    if j >= 0 then Numeral(k < 0, Decimal.Text(m * Whole(j)), None, None)
    else Numeral(k < 0, Decimal.Text(m * FiveTo(-j)), None, Some(Exponent('e', "-", Decimal.Text(-j))))
  }

  lemma {:induction false} PlainNumeral(minus: bool, n: nat)
    ensures var m := Numeral(minus, Decimal.Text(n), None, None);
            GoodNumeral(m) && Exact(m) == if minus then -(n as real) else n as real
  {
    hide Decimal.Text, Decimal.Value;
    Decimal.TextValue(n);
    IntegerNumeral(minus, Decimal.Text(n));
  }

  lemma {:induction false} ShiftedNumeral(minus: bool, n: nat, e: nat)
    ensures var m := Numeral(minus, Decimal.Text(n), None, Some(Exponent('e', "-", Decimal.Text(e))));
            var x := n as real / Decimal.Pow10(e) as real;
            GoodNumeral(m) && Exact(m) == if minus then -x else x
  {
    Decimal.TextValue(n);
    Decimal.TextValue(e);
    assert Decimal.Pow10(0) == 1;
    var d := Decimal.Text(n);
    assert d + "" == d;
    hide Decimal.Text, Decimal.Value, Decimal.Pow10;
  }

  lemma {:induction false} NumeralForIs(k: int, j: int)
    ensures GoodNumeral(NumeralFor(k, j)) && Exact(NumeralFor(k, j)) == Times(k, TwoTo(j))
  {
    hide TwoTo, Times, Whole, FiveTo, Decimal.Text, Decimal.Pow10, GoodNumeral, Exact;
    var m: nat := if k < 0 then -k else k;
    TimesSigns(m, TwoTo(j));
    if j >= 0 {
      PlainNumeral(k < 0, m * Whole(j));
      UpScaled(m, j);
    } else {
      ShiftedNumeral(k < 0, m * FiveTo(-j), -j);
      DownScaled(m, -j);
    }
  }

  /** Every float has a numeral that stands for it. */
  lemma {:induction false} EveryFloatHasANumeral(x: real) returns (s: string)
    requires IsBinary64(x)
    ensures Denotes(s, Finite(x))
  {
    hide TwoTo, Times, Exact, GoodNumeral, RenderNumeral, NumeralFor, Round;
    var k, j :| Scaled(x, k, j);
    NumeralForIs(k, j);
    RoundExact(x);
    s := RenderNumeral(NumeralFor(k, j));
    assert Spells(NumeralFor(k, j), s, Finite(x));
  }

  /** There is a way to print that meets the demand. */
  lemma {:induction false} PrintingIsPossible()
    ensures exists fmt :: Prints(fmt)
  {
    hide Denotes, IsBinary64;
    var fmt: Formatter := (f: Float) =>
      if f == Infinite(false) then "inf"
      else if f == Infinite(true) then "-inf"
      else if f == NaN then "NaN"
      else if exists s :: Denotes(s, f) then (var s :| Denotes(s, f); s)
      else "";
    forall x | IsBinary64(x) ensures Denotes(fmt(Finite(x)), Finite(x)) {
      var s := EveryFloatHasANumeral(x);
    }
    assert Prints(fmt);
  }
}
