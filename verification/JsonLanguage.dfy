/** The JSON reader accepts exactly the texts of the grammar, with exactly their meanings. */
module JsonLanguage {
  import opened Results
  import opened JsonSpec
  import opened JsonNumeral
  import opened JsonGrammar
  import Decimal

  // ----- white space -----

  /** A character a value can start with. */
  predicate Opens(c: char) {
    c == '"' || c == '{' || c == '[' || c == 't' || c == 'f' || c == 'n' || c == '-' || Decimal.IsDigit(c)
  }

  lemma {:induction false} SkipNothing(s: string)
    requires s != "" && (Opens(s[0]) || s[0] == ',' || s[0] == ':' || s[0] == ']' || s[0] == '}')
    ensures Skip(s) == s
  {
  }

  lemma {:induction false} SkipSpace(ws: string, s: string)
    requires AllSpace(ws) && s != "" && !IsSpace(s[0])
    ensures Skip(ws + s) == s
  {
    if ws == "" {
      assert ws + s == s;
    } else {
      assert (ws + s)[1..] == ws[1..] + s;
      SkipSpace(ws[1..], s);
    }
  }

  lemma {:induction false} SkipEndSpace(s: string, ws: string)
    requires AllSpace(ws) && s != "" && !IsSpace(s[|s| - 1])
    ensures SkipEnd(s + ws) == s
  {
    if ws == "" {
      assert s + ws == s;
    } else {
      var k := |ws| - 1;
      assert (s + ws)[..|s| + k] == s + ws[..k];
      assert (s + ws)[|s| + k] == ws[k];
      SkipEndSpace(s, ws[..k]);
    }
  }

  lemma {:induction false} SkipSplit(s: string) returns (ws: string)
    ensures AllSpace(ws) && s == ws + Skip(s)
  {
    if s != "" && IsSpace(s[0]) {
      var more := SkipSplit(s[1..]);
      ws := [s[0]] + more;
    } else {
      ws := "";
    }
  }

  lemma {:induction false} SkipEndSplit(s: string) returns (ws: string)
    ensures AllSpace(ws) && s == SkipEnd(s) + ws
  {
    if s != "" && IsSpace(s[|s| - 1]) {
      var k := |s| - 1;
      var more := SkipEndSplit(s[..k]);
      ws := more + [s[k]];
      assert s == s[..k] + [s[k]];
    } else {
      ws := "";
    }
  }

  lemma {:induction false} SpaceConcat(a: string, b: string)
    requires AllSpace(a) && AllSpace(b)
    ensures AllSpace(a + b)
  {
  }

  lemma {:induction false} SkipIdempotent(s: string)
    ensures Skip(Skip(s)) == Skip(s)
  {
  }

  lemma {:induction false} ValueSkips(s: string)
    ensures ParseValue(Skip(s)) == ParseValue(s)
  {
    SkipIdempotent(s);
    hide Skip, ParseArray, ParseObject, ParseBool, ParseNull, ParseNumber, ParseString;
  }

  lemma {:induction false} SpaceStops(ws: string, rest: string)
    requires AllSpace(ws) && Stops(rest)
    ensures Stops(ws + rest)
  {
    if ws == "" {
      assert ws + rest == rest;
    } else {
      assert IsSpace(ws[0]);
    }
  }

  /** A character that closes or separates. */
  predicate Mark(c: char) {
    c == ',' || c == ']' || c == '}' || c == ':'
  }

  lemma {:induction false} SkipToMark(ws: string, x: string)
    requires AllSpace(ws) && x != "" && Mark(x[0])
    ensures Skip(ws + x) == x && Stops(x) && Stops(ws + x)
  {
    SkipSpace(ws, x);
    SpaceStops(ws, x);
  }

  lemma {:induction false} NumeralOpens(n: Numeral)
    requires GoodNumeral(n)
    ensures RenderNumeral(n) != "" && (RenderNumeral(n)[0] == '-' || Decimal.IsDigit(RenderNumeral(n)[0]))
  {
    hide FractionText, ExponentText;
  }

  lemma {:induction false} NumeralCloses(n: Numeral)
    requires GoodNumeral(n)
    ensures RenderNumeral(n) != "" && Decimal.IsDigit(RenderNumeral(n)[|RenderNumeral(n)| - 1])
  {
  }

  lemma {:induction false} RenderOpens(d: Doc)
    requires Good(d)
    ensures Render(d) != "" && Opens(Render(d)[0])
  {
    hide RenderItems, RenderMembers, Concat, RenderNumeral, GoodItem, GoodMember;
    if d.DNumber? {
      NumeralOpens(d.numeral);
    }
  }

  lemma {:induction false} SkipToDoc(ws: string, d: Doc, rest: string)
    requires AllSpace(ws) && Good(d)
    ensures Skip(ws + (Render(d) + rest)) == Render(d) + rest
  {
    RenderOpens(d);
    hide Render, Good;
    SkipSpace(ws, Render(d) + rest);
  }

  // ----- every rendering is read as its meaning -----

  lemma {:induction false} LeafDocReads(d: Doc, rest: string)
    requires Good(d) && !d.DArray? && !d.DObject? && Stops(rest)
    ensures ParseValue(Render(d) + rest) == Done(Meaning(d), rest)
  {
    var s := Render(d) + rest;
    RenderOpens(d);
    SkipNothing(s);
    match d
    case DNull => assert s[4..] == rest;
    case DBool(b) => assert if b then s[4..] == rest else s[5..] == rest;
    case DNumber(numeral) => NumeralDocReads(numeral, rest);
    case DString(chars) => QuotedParses(chars, rest);
  }

  lemma {:induction false} NumeralDocReads(n: Numeral, rest: string)
    requires GoodNumeral(n) && Stops(rest)
    ensures ParseValue(RenderNumeral(n) + rest) == Done(Number(NumeralValue(n)), rest)
  {
    hide ParseNumber, GoodNumeral, RenderNumeral, NumeralValue, Skip;
    NumeralOpens(n);
    SkipNothing(RenderNumeral(n) + rest);
    NumeralReads(n, rest);
  }

  lemma {:induction false} ItemsNext(u: string, v: Json, r: string, x: string, more: seq<Json>, rest: string)
    requires ParseValue(u) == Done(v, r) && Skip(r) == x
    requires if more == [] then x == "]" + rest else Starts(x, ',') && ParseItems(Skip(x[1..])) == Done(more, rest)
    ensures ParseItems(u) == Done([v] + more, rest)
  {
    hide Skip, ParseValue;
    assert more == [] ==> ("]" + rest)[1..] == rest && [v] + more == [v];
  }

  lemma {:induction false} EntryNext(u: string, key: string, r: string, x: string, v: Json, rest: string)
    requires Starts(u, '"') && ParseString(u) == Done(key, r) && Skip(r) == x && Starts(x, ':')
    requires ParseValue(Skip(x[1..])) == Done(v, rest)
    ensures ParseEntry(u) == Done(Entry(key, v), rest)
  {
    hide Skip, ParseValue, ParseString;
  }

  lemma {:induction false} EntriesNext(u: string, e: Entry, r: string, x: string, more: seq<Entry>, rest: string)
    requires ParseEntry(u) == Done(e, r) && Skip(r) == x
    requires if more == [] then x == "}" + rest else Starts(x, ',') && ParseEntries(Skip(x[1..])) == Done(more, rest)
    ensures ParseEntries(u) == Done([e] + more, rest)
  {
    hide Skip, ParseEntry;
    assert more == [] ==> ("}" + rest)[1..] == rest && [e] + more == [e];
  }

  lemma {:induction false} ArrayNext(t: string, u: string, items: seq<Json>, rest: string)
    requires Starts(t, '[') && Skip(t[1..]) == u
    requires if items == [] then u == "]" + rest else !Starts(u, ']') && ParseItems(u) == Done(items, rest)
    ensures ParseValue(t) == Done(Array(items), rest)
  {
    SkipNothing(t);
    hide Skip, ParseItems, ParseObject;
    assert items == [] ==> ("]" + rest)[1..] == rest;
  }

  lemma {:induction false} ObjectNext(t: string, u: string, entries: seq<Entry>, rest: string)
    requires Starts(t, '{') && Skip(t[1..]) == u
    requires if entries == [] then u == "}" + rest else !Starts(u, '}') && ParseEntries(u) == Done(entries, rest)
    ensures ParseValue(t) == Done(Object(entries), rest)
  {
    SkipNothing(t);
    hide Skip, ParseEntries, ParseArray;
    assert entries == [] ==> ("}" + rest)[1..] == rest;
  }

  lemma {:induction false} DocReads(d: Doc, rest: string)
    requires Good(d) && Stops(rest)
    ensures ParseValue(Render(d) + rest) == Done(Meaning(d), rest)
    decreases d, 1
  {
    match d
    case DArray(gap, items) =>
      hide ParseValue;
      if items != [] {
        ItemsRead(items, rest);
      }
      ArrayDocReads(gap, items, rest);
    case DObject(gap, members) =>
      hide ParseValue;
      if members != [] {
        MembersRead(members, rest);
      }
      ObjectDocReads(gap, members, rest);
    case _ => LeafDocReads(d, rest);
  }

  predicate GoodItems(items: seq<Item>) {
    forall i :: 0 <= i < |items| ==> GoodItem(items[i])
  }

  predicate GoodMembers(members: seq<Member>) {
    forall i :: 0 <= i < |members| ==> GoodMember(members[i])
  }

  /** What follows an item. */
  function AfterItem(items: seq<Item>, rest: string): string
    requires items != []
  {
    if |items| == 1 then "]" + rest else "," + (RenderItems(items[1..]) + "]" + rest)
  }

  lemma {:induction false} ItemsSplit(items: seq<Item>, rest: string)
    requires items != []
    ensures RenderItems(items) + "]" + rest
         == items[0].before + (Render(items[0].doc) + (items[0].after + AfterItem(items, rest)))
  {
    hide Render;
    var i := items[0];
    assert RenderItems(items) + "]" + rest == RenderItem(i) + AfterItem(items, rest);
  }

  /** The first document of a list of items, without the white space before it. */
  lemma {:induction false} ItemsSkip(items: seq<Item>, rest: string)
    requires items != [] && GoodItems(items)
    ensures var u := Render(items[0].doc) + (items[0].after + AfterItem(items, rest));
      Skip(RenderItems(items) + "]" + rest) == u && Opens(u[0])
  {
    assert GoodItem(items[0]);
    hide Render, RenderItems, Good, Skip, Opens, AfterItem;
    ItemsSplit(items, rest);
    SkipToDoc(items[0].before, items[0].doc, items[0].after + AfterItem(items, rest));
    RenderOpens(items[0].doc);
  }

  lemma {:induction false} ItemsRead(items: seq<Item>, rest: string)
    requires items != [] && GoodItems(items)
    ensures ParseItems(Skip(RenderItems(items) + "]" + rest)) == Done(MeaningItems(items), rest)
    decreases items, 0
  {
    var i := items[0];
    var tail := AfterItem(items, rest);
    assert GoodItem(i);
    assert |items| == 1 ==> MeaningItems(items[1..]) == [];
    hide Render, RenderItems, Skip, Opens, ParseValue, ParseItems, Stops, Good, Meaning;
    ItemsSkip(items, rest);
    SkipToMark(i.after, tail);
    DocReads(i.doc, i.after + tail);
    if |items| > 1 {
      assert tail[1..] == RenderItems(items[1..]) + "]" + rest;
      assert GoodItems(items[1..]);
      ItemsRead(items[1..], rest);
      assert |MeaningItems(items[1..])| > 0;
    }
    ItemsNext(Render(i.doc) + (i.after + tail), Meaning(i.doc), i.after + tail, tail, MeaningItems(items[1..]), rest);
  }

  lemma {:induction false} ArrayDocReads(gap: string, items: seq<Item>, rest: string)
    requires AllSpace(gap) && GoodItems(items)
    requires items != [] ==> ParseItems(Skip(RenderItems(items) + "]" + rest)) == Done(MeaningItems(items), rest)
    ensures Good(DArray(gap, items))
            && ParseValue(Render(DArray(gap, items)) + rest) == Done(Array(MeaningItems(items)), rest)
  {
    var t := Render(DArray(gap, items)) + rest;
    hide Skip, Opens, ParseValue, ParseItems, GoodItem;
    if items == [] {
      assert t[1..] == gap + ("]" + rest);
      SkipToMark(gap, "]" + rest);
      ArrayNext(t, "]" + rest, [], rest);
    } else {
      assert t[1..] == RenderItems(items) + "]" + rest;
      ItemsSkip(items, rest);
      hide RenderItems, Render;
      OpensNoMark(Skip(t[1..]));
      ArrayNext(t, Skip(t[1..]), MeaningItems(items), rest);
    }
  }

  lemma {:induction false} OpensNoMark(u: string)
    requires u != "" && Opens(u[0])
    ensures !Starts(u, ']') && !Starts(u, '}')
  {
  }

  /** What follows a member. */
  function AfterMember(members: seq<Member>, rest: string): string
    requires members != []
  {
    if |members| == 1 then "}" + rest else "," + (RenderMembers(members[1..]) + "}" + rest)
  }

  lemma {:induction false} MemberText(m: Member, tail: string)
    ensures RenderMember(m) + tail
         == m.before + (Quoted(m.key) + (m.afterKey + (":" + (m.beforeValue + (Render(m.doc) + (m.after + tail))))))
  {
    hide Render, Quoted;
  }

  lemma {:induction false} MembersSplit(members: seq<Member>, rest: string)
    requires members != []
    ensures var m := members[0];
      RenderMembers(members) + "}" + rest
      == var value := Render(m.doc) + (m.after + AfterMember(members, rest));
         m.before + (Quoted(m.key) + (m.afterKey + (":" + (m.beforeValue + value))))
  {
    hide Render, Quoted;
    var m := members[0];
    var tail := AfterMember(members, rest);
    assert RenderMembers(members) + "}" + rest == RenderMember(m) + tail;
    MemberText(m, tail);
  }

  lemma {:induction false} MembersSkip(members: seq<Member>, rest: string, u: string)
    requires members != [] && GoodMembers(members)
    requires RenderMembers(members) + "}" + rest == members[0].before + (Quoted(members[0].key) + u)
    ensures Skip(RenderMembers(members) + "}" + rest) == Quoted(members[0].key) + u
    ensures Starts(Quoted(members[0].key) + u, '"')
  {
    assert GoodMember(members[0]);
    hide RenderMembers, Concat, Skip, Good;
    SkipSpace(members[0].before, Quoted(members[0].key) + u);
  }

  lemma {:induction false} MemberReads(m: Member, tail: string)
    requires GoodMember(m) && tail != "" && Mark(tail[0])
    requires ParseValue(Render(m.doc) + (m.after + tail)) == Done(Meaning(m.doc), m.after + tail)
    ensures var u := m.afterKey + (":" + (m.beforeValue + (Render(m.doc) + (m.after + tail))));
      ParseEntry(Quoted(m.key) + u) == Done(Entry(Chars(m.key), Meaning(m.doc)), m.after + tail)
  {
    hide Render, Quoted, Chars, Skip, ParseValue, ParseString, ParseEntry, Good, Meaning, Stops;
    var value := Render(m.doc) + (m.after + tail);
    var x := ":" + (m.beforeValue + value);
    var u := m.afterKey + x;
    QuotedParses(m.key, u);
    QuotedStarts(m.key, u);
    SkipToMark(m.afterKey, x);
    assert x[1..] == m.beforeValue + value;
    SkipToDoc(m.beforeValue, m.doc, m.after + tail);
    EntryNext(Quoted(m.key) + u, Chars(m.key), u, x, Meaning(m.doc), m.after + tail);
  }

  lemma {:induction false} QuotedStarts(chars: seq<string>, u: string)
    ensures Starts(Quoted(chars) + u, '"')
  {
  }

  lemma {:induction false} MembersRead(members: seq<Member>, rest: string)
    requires members != [] && GoodMembers(members)
    ensures ParseEntries(Skip(RenderMembers(members) + "}" + rest)) == Done(MeaningMembers(members), rest)
    decreases members, 0
  {
    var m := members[0];
    var tail := AfterMember(members, rest);
    assert GoodMember(m);
    assert |members| == 1 ==> MeaningMembers(members[1..]) == [];
    hide Render, RenderMembers, Quoted, Skip, ParseValue, ParseEntry, ParseEntries, Stops, Good, Meaning, Chars;
    var u := m.afterKey + (":" + (m.beforeValue + (Render(m.doc) + (m.after + tail))));
    MembersSplit(members, rest);
    MembersSkip(members, rest, u);
    SkipToMark(m.after, tail);
    DocReads(m.doc, m.after + tail);
    MemberReads(m, tail);
    if |members| > 1 {
      assert tail[1..] == RenderMembers(members[1..]) + "}" + rest;
      assert GoodMembers(members[1..]);
      MembersRead(members[1..], rest);
      assert |MeaningMembers(members[1..])| > 0;
    }
    EntriesNext(Quoted(m.key) + u, Entry(Chars(m.key), Meaning(m.doc)), m.after + tail, tail,
      MeaningMembers(members[1..]), rest);
  }

  lemma {:induction false} ObjectDocReads(gap: string, members: seq<Member>, rest: string)
    requires AllSpace(gap) && GoodMembers(members)
    requires members != [] ==>
             ParseEntries(Skip(RenderMembers(members) + "}" + rest)) == Done(MeaningMembers(members), rest)
    ensures Good(DObject(gap, members))
            && ParseValue(Render(DObject(gap, members)) + rest) == Done(Object(MeaningMembers(members)), rest)
  {
    var t := Render(DObject(gap, members)) + rest;
    hide Skip, ParseValue, ParseEntries, GoodMember;
    if members == [] {
      assert t[1..] == gap + ("}" + rest);
      SkipToMark(gap, "}" + rest);
      ObjectNext(t, "}" + rest, [], rest);
    } else {
      assert t[1..] == RenderMembers(members) + "}" + rest;
      MembersSplit(members, rest);
      hide RenderMembers, Render, Quoted;
      var m := members[0];
      var u := m.afterKey + (":" + (m.beforeValue + (Render(m.doc) + (m.after + AfterMember(members, rest)))));
      MembersSkip(members, rest, u);
      ObjectNext(t, Quoted(m.key) + u, MeaningMembers(members), rest);
    }
  }

  // ----- everything that is read is a rendering -----

  lemma {:induction false} LeafIsDoc(t: string) returns (d: Doc)
    requires t != "" && Skip(t) == t && t[0] != '[' && t[0] != '{' && ParseValue(t).Done?
    ensures Good(d) && Meaning(d) == ParseValue(t).value && t == Render(d) + ParseValue(t).rest
  {
    if t[0] == '"' {
      var chars := ParsedIsQuoted(t);
      hide ParseString, Quoted, WellSpelled, Chars;
      d := DString(chars);
    } else if t[0] == 't' || t[0] == 'f' {
      d := DBool(ParseBool(t).value.b);
      assert "true" <= t ==> t == "true" + t[4..];
      assert "false" <= t ==> t == "false" + t[5..];
    } else if t[0] == 'n' {
      d := DNull;
      assert t == "null" + t[4..];
    } else {
      d := NumberIsDoc(t);
    }
  }

  lemma {:induction false} NumberIsDoc(t: string) returns (d: Doc)
    requires ParseNumber(t).Done?
    ensures Good(d) && Meaning(d) == ParseNumber(t).value && t == Render(d) + ParseNumber(t).rest
  {
    assert NumberEnd(t).Ok?;
    hide NumberEnd, NumberValue, GoodNumeral, NumeralValue, RenderNumeral, NumeralOf, ParseNumber;
    ReadIsNumeral(t);
    d := DNumber(NumeralOf(t));
  }

  /** Whatever is read is white space, a rendering of the value, and the rest. */
  lemma {:induction false} ReadIsDoc(t: string) returns (ws: string, d: Doc)
    requires ParseValue(t).Done?
    ensures AllSpace(ws) && Good(d) && Meaning(d) == ParseValue(t).value && t == ws + Render(d) + ParseValue(t).rest
    decreases |t|, 1
  {
    var u := Skip(t);
    ws := SkipSplit(t);
    SkipIdempotent(t);
    ValueSkips(t);
    ReadStarts(t);
    if u[0] == '[' {
      d := ArrayIsDoc(u);
    } else if u[0] == '{' {
      d := ObjectIsDoc(u);
    } else {
      hide ParseValue;
      d := LeafIsDoc(u);
    }
  }

  lemma {:induction false} ReadStarts(t: string)
    requires ParseValue(t).Done?
    ensures var u := Skip(t);
      && u != "" && |u| <= |t|
      && (u[0] == '[' ==> ParseValue(t) == ParseArray(u))
      && (u[0] == '{' ==> ParseValue(t) == ParseObject(u))
  {
    hide ParseArray, ParseObject, ParseBool, ParseNull, ParseNumber, ParseString;
  }

  lemma {:induction false} ArrayText(gap: string, items: seq<Item>, rest: string)
    ensures Render(DArray(gap, items)) + rest == "[" + ((if items == [] then gap else RenderItems(items)) + "]" + rest)
  {
    hide RenderItems;
  }

  lemma {:induction false} ObjectText(gap: string, members: seq<Member>, rest: string)
    ensures Render(DObject(gap, members)) + rest
         == "{" + ((if members == [] then gap else RenderMembers(members)) + "}" + rest)
  {
    hide RenderMembers;
  }

  lemma {:induction false} ArrayIsDoc(t: string) returns (d: Doc)
    requires Starts(t, '[') && ParseArray(t).Done?
    ensures Good(d) && Meaning(d) == ParseArray(t).value && t == Render(d) + ParseArray(t).rest
    decreases |t|, 0
  {
    hide Skip, ParseItems, GoodItem, Render, RenderItems;
    var u := Skip(t[1..]);
    var gap := SkipSplit(t[1..]);
    assert t == "[" + t[1..];
    if Starts(u, ']') {
      d := DArray(gap, []);
      assert u == "]" + u[1..];
      ArrayText(gap, [], u[1..]);
      assert t[1..] == gap + "]" + u[1..];
    } else {
      var items := ItemsAreDocs(gap, u);
      d := DArray("", items);
      ArrayText("", items, ParseItems(u).rest);
    }
  }

  lemma {:induction false} ItemIsDoc(lead: string, u: string) returns (i: Item, x: string)
    requires AllSpace(lead) && ParseValue(u).Done?
    ensures GoodItem(i) && Meaning(i.doc) == ParseValue(u).value
    ensures x == Skip(ParseValue(u).rest) && lead + u == RenderItem(i) + x
    decreases |u|, 2
  {
    hide Skip, ParseValue, Good, Meaning, Render;
    var ws, d := ReadIsDoc(u);
    x := Skip(ParseValue(u).rest);
    var after := SkipSplit(ParseValue(u).rest);
    SpaceConcat(lead, ws);
    i := Item(lead + ws, d, after);
    assert u == ws + Render(d) + (after + x);
  }

  lemma {:induction false} ItemsAreDocs(lead: string, u: string) returns (items: seq<Item>)
    requires AllSpace(lead) && ParseItems(u).Done?
    ensures items != [] && GoodItems(items) && MeaningItems(items) == ParseItems(u).value
    ensures lead + u == RenderItems(items) + "]" + ParseItems(u).rest
    decreases |u|, 3
  {
    hide Skip, ParseValue, GoodItem, Meaning, RenderItem;
    var item, x := ItemIsDoc(lead, u);
    if Starts(x, ']') {
      items := [item];
      assert x == "]" + x[1..];
      assert items[1..] == [];
    } else {
      var gap := SkipSplit(x[1..]);
      var more := ItemsAreDocs(gap, Skip(x[1..]));
      items := [item] + more;
      assert items[1..] == more;
      assert x == "," + (gap + Skip(x[1..]));
      assert RenderItems(items) == RenderItem(item) + "," + RenderItems(more);
      assert lead + u == RenderItem(item) + ("," + (RenderItems(more) + "]" + ParseItems(u).rest));
    }
  }

  lemma {:induction false} ObjectIsDoc(t: string) returns (d: Doc)
    requires Starts(t, '{') && ParseObject(t).Done?
    ensures Good(d) && Meaning(d) == ParseObject(t).value && t == Render(d) + ParseObject(t).rest
    decreases |t|, 0
  {
    hide Skip, ParseEntries, GoodMember, Render, RenderMembers;
    var u := Skip(t[1..]);
    var gap := SkipSplit(t[1..]);
    assert t == "{" + t[1..];
    if Starts(u, '}') {
      d := DObject(gap, []);
      assert u == "}" + u[1..];
      ObjectText(gap, [], u[1..]);
      assert t[1..] == gap + "}" + u[1..];
    } else {
      var members := MembersAreDocs(gap, u);
      d := DObject("", members);
      ObjectText("", members, ParseEntries(u).rest);
    }
  }

  lemma {:induction false} MemberIsDoc(lead: string, u: string) returns (m: Member, x: string)
    requires AllSpace(lead) && ParseEntry(u).Done?
    ensures GoodMember(m) && Entry(Chars(m.key), Meaning(m.doc)) == ParseEntry(u).value
    ensures x == Skip(ParseEntry(u).rest) && lead + u == RenderMember(m) + x
    decreases |u|, 2
  {
    hide Skip, ParseValue, Good, Meaning, Render, ParseString, Quoted, Chars, WellSpelled;
    var key := ParsedIsQuoted(u);
    var k := ParseString(u);
    var y := Skip(k.rest);
    var afterKey := SkipSplit(k.rest);
    var z := Skip(y[1..]);
    var gap := SkipSplit(y[1..]);
    var ws, d := ReadIsDoc(z);
    var v := ParseValue(z);
    x := Skip(v.rest);
    var after := SkipSplit(v.rest);
    SpaceConcat(gap, ws);
    m := Member(lead, key, afterKey, gap + ws, d, after);
    hide RenderMember, ParseEntry;
    MemberText(m, x);
    assert y == ":" + y[1..];
    assert y[1..] == gap + ws + (Render(d) + (after + x));
  }

  lemma {:induction false} MembersAreDocs(lead: string, u: string) returns (members: seq<Member>)
    requires AllSpace(lead) && ParseEntries(u).Done?
    ensures members != [] && GoodMembers(members) && MeaningMembers(members) == ParseEntries(u).value
    ensures lead + u == RenderMembers(members) + "}" + ParseEntries(u).rest
    decreases |u|, 3
  {
    hide Skip, ParseEntry, GoodMember, Meaning, RenderMember, Chars;
    var m, x := MemberIsDoc(lead, u);
    if Starts(x, '}') {
      members := [m];
      assert x == "}" + x[1..];
      assert members[1..] == [];
    } else {
      var gap := SkipSplit(x[1..]);
      var more := MembersAreDocs(gap, Skip(x[1..]));
      members := [m] + more;
      assert members[1..] == more;
      assert x == "," + (gap + Skip(x[1..]));
      assert RenderMembers(members) == RenderMember(m) + "," + RenderMembers(more);
      assert lead + u == RenderMember(m) + ("," + (RenderMembers(more) + "}" + ParseEntries(u).rest));
    }
  }

  // ----- whole texts -----

  /** A text that renders a document of this meaning, with white space around it. */
  ghost predicate Writes(s: string, v: Json) {
    exists before, d, after :: IsDocument(s, before, d, after) && Meaning(d) == v
  }

  predicate IsDocument(s: string, before: string, d: Doc, after: string) {
    AllSpace(before) && AllSpace(after) && Good(d) && s == before + Render(d) + after
  }

  lemma {:induction false} RenderCloses(d: Doc)
    requires Good(d)
    ensures Render(d) != "" && !IsSpace(Render(d)[|Render(d)| - 1])
  {
    hide RenderItems, RenderMembers, Concat, RenderNumeral, GoodItem, GoodMember;
    if d.DNumber? {
      NumeralCloses(d.numeral);
    }
  }

  lemma {:induction false} DocumentParses(before: string, d: Doc, after: string)
    requires AllSpace(before) && AllSpace(after) && Good(d)
    ensures Parse(before + Render(d) + after) == Ok(Meaning(d))
  {
    var t := Render(d);
    RenderOpens(d);
    RenderCloses(d);
    DocReads(d, "");
    hide Render, Good, Meaning, ParseValue;
    assert before + t + after == before + (t + after);
    SkipSpace(before, t + after);
    SkipEndSpace(t, after);
    assert t + "" == t;
  }

  lemma {:induction false} TrimmedAway(s: string)
    requires Trim(s) == ""
    ensures AllSpace(s)
  {
    var before := SkipSplit(s);
    var after := SkipEndSplit(Skip(s));
    hide Skip, SkipEnd;
    assert s == before + ("" + after);
    SpaceConcat(before, after);
  }

  lemma {:induction false} TrimSplit(s: string) returns (before: string, after: string)
    ensures AllSpace(before) && AllSpace(after) && s == before + (Trim(s) + after)
  {
    hide Skip, SkipEnd;
    before := SkipSplit(s);
    after := SkipEndSplit(Skip(s));
  }

  lemma {:induction false} ParsedWhole(s: string)
    requires Parse(s).Ok?
    ensures var r := ParseValue(Trim(s)); r.Done? && r.value == Parse(s).value && Trim(r.rest) == ""
  {
    hide ParseValue, Trim;
  }

  lemma {:induction false} ParsedIsDocument(s: string) returns (before: string, d: Doc, after: string)
    requires Parse(s).Ok?
    ensures IsDocument(s, before, d, after) && Meaning(d) == Parse(s).value
  {
    hide Trim, ParseValue, Render, Good, Meaning, Parse;
    ParsedWhole(s);
    var lead, tail := TrimSplit(s);
    var t := Trim(s);
    var ws;
    ws, d := ReadIsDoc(t);
    var rest := ParseValue(t).rest;
    TrimmedAway(rest);
    SpaceConcat(lead, ws);
    SpaceConcat(rest, tail);
    before, after := lead + ws, rest + tail;
    assert s == lead + (ws + Render(d) + rest + tail);
  }

  /** The reader accepts a text as a value exactly when the grammar writes that value so: every layout, spelling and
      number literal is read back, and nothing else is accepted. */
  lemma {:induction false} AcceptsExactly(s: string, v: Json)
    ensures Parse(s) == Ok(v) <==> Writes(s, v)
  {
    hide Parse, Meaning, Render, Good;
    if Parse(s) == Ok(v) {
      var before, d, after := ParsedIsDocument(s);
    }
    if Writes(s, v) {
      var before, d, after :| IsDocument(s, before, d, after) && Meaning(d) == v;
      DocumentParses(before, d, after);
    }
  }
}
