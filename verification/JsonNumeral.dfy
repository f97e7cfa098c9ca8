/** Number literals as a grammar: a tree that is written out and valued on its own, and the proof that the reader takes
    exactly these texts, at exactly these values. */
module JsonNumeral {
  import opened Results
  import opened JsonSpec
  import opened Binary64
  import Decimal

  datatype Exponent = Exponent(mark: char, sign: string, digits: string)

  datatype Numeral = Numeral(minus: bool, whole: string, fraction: Option<string>, exponent: Option<Exponent>)

  predicate Digits(s: string) {
    s != "" && Decimal.AllDigits(s)
  }

  /** Digits, any number of them, leading zeros included; a fraction and an exponent, if there, have digits. */
  predicate GoodNumeral(n: Numeral) {
    && Digits(n.whole)
    && (n.fraction.Some? ==> Digits(n.fraction.value))
    && (n.exponent.Some? ==> GoodExponent(n.exponent.value))
  }

  predicate GoodExponent(e: Exponent) {
    (e.mark == 'e' || e.mark == 'E') && (e.sign == "" || e.sign == "+" || e.sign == "-") && Digits(e.digits)
  }

  function MinusText(n: Numeral): string {
    if n.minus then "-" else ""
  }

  function FractionText(f: Option<string>): string {
    if f.Some? then "." + f.value else ""
  }

  function ExponentText(e: Option<Exponent>): string {
    if e.Some? then [e.value.mark] + e.value.sign + e.value.digits else ""
  }

  function RenderNumeral(n: Numeral): string {
    MinusText(n) + n.whole + FractionText(n.fraction) + ExponentText(n.exponent)
  }

  /** The digits after the point. */
  function Places(n: Numeral): string {
    if n.fraction.Some? then n.fraction.value else ""
  }

  /** All the digits as one number, with the point moved: left past the fraction, then by the exponent. */
  function Exact(n: Numeral): real
    requires GoodNumeral(n)
  {
    var places := Places(n);
    var magnitude := Decimal.Value(n.whole + places) as real / Decimal.Pow10(|places|) as real;
    var scaled := Shifted(magnitude, n.exponent);
    if n.minus then -scaled else scaled
  }

  /** The number a numeral stands for: its exact value, rounded. */
  function NumeralValue(n: Numeral): Float
    requires GoodNumeral(n)
  {
    Round(Exact(n))
  }

  function Shifted(x: real, e: Option<Exponent>): real
    requires e.Some? ==> GoodExponent(e.value)
  {
    if e.None? then x
    else
      var factor := Decimal.Pow10(Decimal.Value(e.value.digits)) as real;
      if e.value.sign == "-" then x / factor else x * factor
  }

  /** Text that cannot continue a number. */
  predicate Stops(rest: string) {
    rest == "" || !(Decimal.IsDigit(rest[0]) || rest[0] == '.' || rest[0] == 'e' || rest[0] == 'E')
  }

  // ----- a numeral is read as its value -----

  lemma {:induction false} DigitsEndAt(s: string, pos: nat, q: nat)
    requires pos <= q <= |s| && Decimal.AllDigits(s[pos..q]) && !DigitAt(s, q)
    ensures DigitsEnd(s, pos) == q
    decreases q - pos
  {
    if pos < q {
      assert s[pos] == s[pos..q][0];
      assert s[pos + 1..q] == s[pos..q][1..];
      DigitsEndAt(s, pos + 1, q);
    }
  }

  lemma {:induction false} DigitsInside(s: string, before: string, d: string, after: string)
    requires s == before + d + after && Digits(d) && (after == "" || !Decimal.IsDigit(after[0]))
    ensures var (p, q) := (|before|, |before| + |d|);
            s[p..q] == d && s[q..] == after && DigitAt(s, p) && DigitsEnd(s, p) == q
              && DigitRun(s, p, q) == Decimal.Value(d)
  {
    var p, q := |before|, |before| + |d|;
    assert s[p..q] == d;
    assert s[q..] == after;
    assert s[p] == d[0];
    assert q < |s| ==> s[q] == after[0];
    DigitsEndAt(s, p, q);
  }

  /** A numeral after its sign. */
  function Unsigned(n: Numeral, rest: string): string {
    n.whole + (FractionText(n.fraction) + (ExponentText(n.exponent) + rest))
  }

  lemma {:induction false} RenderSplit(n: Numeral, rest: string)
    ensures RenderNumeral(n) + rest == MinusText(n) + Unsigned(n, rest)
    ensures |RenderNumeral(n)| == |MinusText(n)| + |n.whole| + |FractionText(n.fraction)| + |ExponentText(n.exponent)|
  {
    hide MinusText, FractionText, ExponentText;
  }

  lemma {:induction false} SignRead(n: Numeral, rest: string)
    requires GoodNumeral(n)
    ensures var s := MinusText(n) + Unsigned(n, rest);
            Starts(s, '-') == n.minus && MinusEnd(s) == |MinusText(n)|
  {
    hide FractionText, ExponentText;
    var s := MinusText(n) + Unsigned(n, rest);
    assert !n.minus ==> s[0] == n.whole[0];
  }

  /** What may follow the whole digits does not start with a digit. */
  lemma {:induction false} TailStarts(n: Numeral, rest: string)
    requires GoodNumeral(n) && Stops(rest)
    ensures var e := ExponentText(n.exponent) + rest;
            var f := FractionText(n.fraction) + e;
            && (e == "" || (!Decimal.IsDigit(e[0]) && e[0] != '.'))
            && (f == "" || !Decimal.IsDigit(f[0]))
            && (n.fraction.None? ==> f == e)
            && (n.exponent.None? ==> e == rest)
  {
  }

  lemma {:induction false} WholeRead(n: Numeral, rest: string)
    requires GoodNumeral(n) && Stops(rest)
    ensures var s := MinusText(n) + Unsigned(n, rest);
            var (m, a) := (|MinusText(n)|, |MinusText(n)| + |n.whole|);
            && IntegerEnd(s, m) == Ok(a) && DigitRun(s, m, a) == Decimal.Value(n.whole)
            && s[a..] == FractionText(n.fraction) + (ExponentText(n.exponent) + rest)
  {
    hide MinusText, FractionText, ExponentText, DigitsEnd, DigitRun, Decimal.Value, Digits;
    TailStarts(n, rest);
    var s := MinusText(n) + Unsigned(n, rest);
    var after := FractionText(n.fraction) + (ExponentText(n.exponent) + rest);
    assert s == MinusText(n) + n.whole + after;
    DigitsInside(s, MinusText(n), n.whole, after);
  }

  lemma {:induction false} FractionRead(s: string, a: nat, n: Numeral, rest: string)
    requires GoodNumeral(n) && Stops(rest)
    requires a <= |s| && s[a..] == FractionText(n.fraction) + (ExponentText(n.exponent) + rest)
    ensures var b := a + |FractionText(n.fraction)|;
            && b <= |s| && FractionEnd(s, a) == Ok(b) && s[b..] == ExponentText(n.exponent) + rest
            && (n.fraction.None? <==> b == a)
            && (n.fraction.Some? ==>
                  b == a + 1 + |n.fraction.value| && DigitRun(s, a + 1, b) == Decimal.Value(n.fraction.value))
  {
    hide ExponentText, FractionEnd, DigitRun, Decimal.Value, Digits, GoodExponent, Stops;
    TailStarts(n, rest);
    var e := ExponentText(n.exponent) + rest;
    if n.fraction.Some? {
      FractionSome(s, a, n.fraction.value, e);
    } else {
      assert s[a..] == e;
      assert a < |s| ==> s[a] == e[0];
      NoFraction(s, a);
    }
  }

  lemma {:induction false} NoFraction(s: string, a: nat)
    requires a <= |s| && !CharAt(s, a, '.')
    ensures FractionEnd(s, a) == Ok(a)
  {
  }

  lemma {:induction false} FractionSome(s: string, a: nat, f: string, e: string)
    requires a <= |s| && s[a..] == "." + f + e && Digits(f) && (e == "" || !Decimal.IsDigit(e[0]))
    ensures var b := a + 1 + |f|;
            b <= |s| && FractionEnd(s, a) == Ok(b) && s[b..] == e && DigitRun(s, a + 1, b) == Decimal.Value(f)
  {
    var lead := s[..a] + ".";
    assert s == s[..a] + s[a..];
    assert s == lead + f + e;
    assert s[a] == '.';
    hide DigitsEnd, DigitRun, Decimal.Value, Digits;
    DigitsInside(s, lead, f, e);
  }

  lemma {:induction false} ExponentSign(s: string, b: nat, x: Exponent, rest: string)
    requires GoodExponent(x) && b <= |s| && s[b..] == [x.mark] + x.sign + (x.digits + rest)
    ensures b + 1 + |x.sign| <= |s| && s[b] == x.mark && SignEnd(s, b + 1) == b + 1 + |x.sign|
    ensures CharAt(s, b + 1, '-') == (x.sign == "-")
    ensures s == (s[..b] + ([x.mark] + x.sign)) + x.digits + rest
  {
    assert s == s[..b] + s[b..];
    assert s[b] == s[b..][0] && s[b + 1] == s[b..][1];
  }

  lemma {:induction false} ExponentRead(s: string, b: nat, e: Option<Exponent>, rest: string)
    requires (e.Some? ==> GoodExponent(e.value)) && Stops(rest)
    requires b <= |s| && s[b..] == ExponentText(e) + rest
    ensures var end := b + |ExponentText(e)|;
            && end <= |s| && ExponentEnd(s, b) == Ok(end) && s[end..] == rest
            && (e.None? <==> end == b)
            && (e.Some? ==> && SignEnd(s, b + 1) == end - |e.value.digits|
                            && CharAt(s, b + 1, '-') == (e.value.sign == "-")
                            && DigitRun(s, SignEnd(s, b + 1), end) == Decimal.Value(e.value.digits))
  {
    hide ExponentEnd, DigitRun, Decimal.Value, SignEnd, GoodExponent;
    if e.Some? {
      var x := e.value;
      assert [x.mark] + x.sign + x.digits + rest == [x.mark] + x.sign + (x.digits + rest);
      ExponentSome(s, b, x, rest);
    } else {
      assert s[b..] == rest;
      assert b < |s| ==> s[b] == rest[0];
      NoExponent(s, b);
    }
  }

  lemma {:induction false} NoExponent(s: string, b: nat)
    requires b <= |s| && !CharAt(s, b, 'e') && !CharAt(s, b, 'E')
    ensures ExponentEnd(s, b) == Ok(b)
  {
  }

  lemma {:induction false} ExponentSome(s: string, b: nat, x: Exponent, rest: string)
    requires GoodExponent(x) && Stops(rest)
    requires b <= |s| && s[b..] == [x.mark] + x.sign + (x.digits + rest)
    ensures var q := b + 1 + |x.sign|;
            var end := q + |x.digits|;
            && end <= |s| && ExponentEnd(s, b) == Ok(end) && s[end..] == rest && SignEnd(s, b + 1) == q
            && CharAt(s, b + 1, '-') == (x.sign == "-")
            && DigitRun(s, q, end) == Decimal.Value(x.digits)
  {
    ExponentSign(s, b, x, rest);
    var lead := s[..b] + ([x.mark] + x.sign);
    assert |lead| == b + 1 + |x.sign|;
    hide DigitsEnd, DigitRun, Decimal.Value, SignEnd, Digits;
    DigitsInside(s, lead, x.digits, rest);
  }

  // ----- values -----

  lemma {:induction false} TenTimes(v: nat, p: nat)
    ensures v * (10 * p) == 10 * (v * p)
  {
  }

  lemma {:induction false} ValueConcat(a: string, b: string)
    requires Decimal.AllDigits(a) && Decimal.AllDigits(b)
    ensures Decimal.AllDigits(a + b)
    ensures Decimal.Value(a + b) == Decimal.Value(a) * Decimal.Pow10(|b|) + Decimal.Value(b)
  {
    if b == "" {
      assert a + b == a;
      assert Decimal.Pow10(0) == 1;
    } else {
      var k := |b| - 1;
      assert (a + b)[..|a + b| - 1] == a + b[..k];
      ValueConcat(a, b[..k]);
      TenTimes(Decimal.Value(a), Decimal.Pow10(k));
    }
  }

  lemma {:induction false} SplitMagnitude(w: nat, f: nat, p: nat)
    requires p > 0
    ensures (w * p + f) as real / p as real == w as real + f as real / p as real
  {
    assert (w * p + f) as real == w as real * p as real + f as real;
  }

  lemma {:induction false} MagnitudeIs(n: Numeral)
    requires GoodNumeral(n)
    ensures var places := Places(n);
            Decimal.AllDigits(n.whole + places) && Decimal.AllDigits(places)
            && Decimal.Value(n.whole + places) as real / Decimal.Pow10(|places|) as real
            == Decimal.Value(n.whole) as real + Decimal.Value(places) as real / Decimal.Pow10(|places|) as real
  {
    hide Decimal.Value, Decimal.Pow10;
    var places := Places(n);
    ValueConcat(n.whole, places);
    SplitMagnitude(Decimal.Value(n.whole), Decimal.Value(places), Decimal.Pow10(|places|));
  }

  lemma {:induction false} ShiftedIs(x: real, e: Option<Exponent>, down: bool, exponent: nat)
    requires e.None? ==> !down && exponent == 0
    requires e.Some? ==>
               GoodExponent(e.value) && down == (e.value.sign == "-") && exponent == Decimal.Value(e.value.digits)
    ensures Shifted(x, e) == if down then x / Decimal.Pow10(exponent) as real else x * Decimal.Pow10(exponent) as real
  {
    assert Decimal.Pow10(0) == 1;
    hide Decimal.Value, Decimal.Pow10, Decimal.AllDigits;
  }

  lemma {:induction false} AssembleIs(n: Numeral, down: bool, exponent: nat)
    requires GoodNumeral(n)
    requires n.exponent.None? ==> !down && exponent == 0
    requires n.exponent.Some? ==>
               down == (n.exponent.value.sign == "-") && exponent == Decimal.Value(n.exponent.value.digits)
    ensures var places := Places(n);
            Decimal.AllDigits(places)
            && Assemble(n.minus, Decimal.Value(n.whole), Decimal.Value(places), |places|, down, exponent) == Exact(n)
  {
    hide Decimal.Value, Decimal.Pow10, Decimal.AllDigits, Shifted, GoodExponent;
    MagnitudeIs(n);
    var places := Places(n);
    ShiftedIs(Decimal.Value(n.whole + places) as real / Decimal.Pow10(|places|) as real, n.exponent, down, exponent);
  }

  /** Where the parts of a numeral end. */
  lemma {:induction false} NumeralEnds(n: Numeral, rest: string)
    requires GoodNumeral(n) && Stops(rest)
    ensures var s := RenderNumeral(n) + rest;
            var m := |MinusText(n)|;
            var a := m + |n.whole|;
            var b := a + |FractionText(n.fraction)|;
            var end := b + |ExponentText(n.exponent)|;
            && Starts(s, '-') == n.minus && MinusEnd(s) == m
            && IntegerEnd(s, m) == Ok(a) && FractionEnd(s, a) == Ok(b) && ExponentEnd(s, b) == Ok(end)
            && end == |RenderNumeral(n)| && s[end..] == rest
            && DigitRun(s, m, a) == Decimal.Value(n.whole)
            && (if n.fraction.None? then b == a
                else b == a + 1 + |n.fraction.value| && DigitRun(s, a + 1, b) == Decimal.Value(n.fraction.value))
            && (if n.exponent.None? then end == b
                else && end > b && SignEnd(s, b + 1) <= end
                     && CharAt(s, b + 1, '-') == (n.exponent.value.sign == "-")
                     && DigitRun(s, SignEnd(s, b + 1), end) == Decimal.Value(n.exponent.value.digits))
  {
    hide GoodExponent, Digits, MinusText, FractionText, ExponentText, RenderNumeral, Stops, Starts, MinusEnd,
      IntegerEnd, FractionEnd, ExponentEnd, DigitRun, Decimal.Value, SignEnd, CharAt;
    RenderSplit(n, rest);
    SignRead(n, rest);
    WholeRead(n, rest);
    var s := RenderNumeral(n) + rest;
    var a := |MinusText(n)| + |n.whole|;
    FractionRead(s, a, n, rest);
    ExponentRead(s, a + |FractionText(n.fraction)|, n.exponent, rest);
  }

  /** A numeral followed by text that cannot extend it is read as its value, with that rest. */
  lemma {:induction false} NumeralReads(n: Numeral, rest: string)
    requires GoodNumeral(n) && Stops(rest)
    ensures NumberEnd(RenderNumeral(n) + rest) == Ok(|RenderNumeral(n)|)
    ensures ParseNumber(RenderNumeral(n) + rest) == Done(Number(NumeralValue(n)), rest)
  {
    hide RenderNumeral, MinusText, FractionText, ExponentText, Starts, MinusEnd, IntegerEnd, FractionEnd, ExponentEnd,
      DigitRun, SignEnd, CharAt, Assemble, Exact, Round, Stops;
    NumeralEnds(n, rest);
    assert Decimal.Value("") == 0;
    hide Decimal.Value;
    AssembleIs(n, n.exponent.Some? && n.exponent.value.sign == "-",
               if n.exponent.Some? then Decimal.Value(n.exponent.value.digits) else 0);
  }

  // ----- whatever is read is a numeral -----

  /** The numeral at the front of a text. */
  function NumeralOf(s: string): Numeral
    requires NumberEnd(s).Ok?
  {
    var m := MinusEnd(s);
    var a := IntegerEnd(s, m).value;
    var b := FractionEnd(s, a).value;
    var end := ExponentEnd(s, b).value;
    Numeral(Starts(s, '-'), s[m..a], FractionOf(s, a, b), ExponentOf(s, b, end))
  }

  function FractionOf(s: string, a: nat, b: nat): Option<string>
    requires a <= b <= |s|
  {
    if b == a then None else Some(s[a + 1..b])
  }

  function ExponentOf(s: string, b: nat, end: nat): Option<Exponent>
    requires b <= end <= |s|
  {
    var q := SignEnd(s, b + 1);
    if end <= b then None else if end < q then None else Some(Exponent(s[b], s[b + 1..q], s[q..end]))
  }

  lemma {:induction false} DigitsFound(s: string, pos: nat)
    requires DigitAt(s, pos)
    ensures pos < DigitsEnd(s, pos) && Digits(s[pos..DigitsEnd(s, pos)])
  {
  }

  lemma {:induction false} ExponentInside(s: string, b: nat)
    requires b <= |s| && ExponentEnd(s, b).Ok? && ExponentEnd(s, b).value > b
    ensures var (q, end) := (SignEnd(s, b + 1), ExponentEnd(s, b).value);
            b + 1 <= q < end && GoodExponent(Exponent(s[b], s[b + 1..q], s[q..end]))
  {
    hide DigitsEnd, Digits;
    var q := SignEnd(s, b + 1);
    assert q > b + 1 ==> s[b + 1..q] == [s[b + 1]];
    DigitsFound(s, q);
  }

  lemma {:induction false} FractionInside(s: string, a: nat)
    requires a <= |s| && FractionEnd(s, a).Ok? && FractionEnd(s, a).value > a
    ensures s[a] == '.' && Digits(s[a + 1..FractionEnd(s, a).value])
  {
    hide DigitsEnd, Digits;
    DigitsFound(s, a + 1);
  }

  lemma {:induction false} WholeInside(t: string)
    requires IntegerEnd(t, MinusEnd(t)).Ok?
    ensures Digits(t[MinusEnd(t)..IntegerEnd(t, MinusEnd(t)).value])
  {
    hide DigitsEnd, Digits;
    DigitsFound(t, MinusEnd(t));
  }

  lemma {:induction false} NumeralGood(t: string)
    requires NumberEnd(t).Ok?
    ensures GoodNumeral(NumeralOf(t))
  {
    hide Digits, GoodExponent, MinusEnd, IntegerEnd, FractionEnd, ExponentEnd, SignEnd;
    WholeInside(t);
    var a := IntegerEnd(t, MinusEnd(t)).value;
    var b := FractionEnd(t, a).value;
    if b > a {
      FractionInside(t, a);
    }
    if ExponentEnd(t, b).value > b {
      ExponentInside(t, b);
    }
  }

  /** What is taken for a number is a numeral, and it is taken at that numeral's value. */
  lemma {:induction false} ReadIsNumeral(t: string)
    requires NumberEnd(t).Ok?
    ensures var n := NumeralOf(t);
            && GoodNumeral(n) && t == RenderNumeral(n) + t[NumberEnd(t).value..]
            && ParseNumber(t) == Done(Number(NumeralValue(n)), t[NumberEnd(t).value..])
  {
    NumeralGood(t);
    NumeralText(t);
    NumeralWorth(t);
    hide *;
    assert ParseNumber(t) == Done(Number(NumberValue(t)), t[NumberEnd(t).value..]);
  }

  lemma {:induction false} FractionParts(t: string, a: nat)
    requires a <= |t| && FractionEnd(t, a).Ok?
    ensures t[a..FractionEnd(t, a).value] == FractionText(FractionOf(t, a, FractionEnd(t, a).value))
  {
    hide FractionEnd;
    if FractionEnd(t, a).value > a {
      FractionInside(t, a);
    }
  }

  lemma {:induction false} ExponentParts(t: string, b: nat)
    requires b <= |t| && ExponentEnd(t, b).Ok?
    ensures t[b..ExponentEnd(t, b).value] == ExponentText(ExponentOf(t, b, ExponentEnd(t, b).value))
  {
    hide ExponentEnd, GoodExponent, SignEnd;
    var end := ExponentEnd(t, b).value;
    if end > b {
      ExponentInside(t, b);
      var q := SignEnd(t, b + 1);
      assert t[b..end] == [t[b]] + t[b + 1..q] + t[q..end];
    }
  }

  lemma {:induction false} NumeralText(t: string)
    requires NumberEnd(t).Ok?
    ensures t == RenderNumeral(NumeralOf(t)) + t[NumberEnd(t).value..]
  {
    hide IntegerEnd, FractionEnd, ExponentEnd, FractionOf, ExponentOf, FractionText, ExponentText, RenderNumeral;
    var m := MinusEnd(t);
    var a := IntegerEnd(t, m).value;
    var b := FractionEnd(t, a).value;
    FractionParts(t, a);
    ExponentParts(t, b);
    PartsJoin(t, m, a, b, ExponentEnd(t, b).value, NumeralOf(t));
  }

  lemma {:induction false} WorthParts(t: string)
    requires NumberEnd(t).Ok? && GoodNumeral(NumeralOf(t))
    ensures var n := NumeralOf(t);
            var down := n.exponent.Some? && n.exponent.value.sign == "-";
            var exponent := if n.exponent.Some? then Decimal.Value(n.exponent.value.digits) else 0;
            ExactValue(t)
            == Assemble(n.minus, Decimal.Value(n.whole), Decimal.Value(Places(n)), |Places(n)|, down, exponent)
  {
    hide IntegerEnd, FractionEnd, Assemble;
    var a := IntegerEnd(t, MinusEnd(t)).value;
    var b := FractionEnd(t, a).value;
    assert Decimal.Value("") == 0;
    hide Decimal.Value;
    if ExponentEnd(t, b).value > b {
      ExponentInside(t, b);
    }
  }

  lemma {:induction false} NumeralWorth(t: string)
    requires NumberEnd(t).Ok? && GoodNumeral(NumeralOf(t))
    ensures NumberValue(t) == NumeralValue(NumeralOf(t))
  {
    hide IntegerEnd, FractionEnd, ExponentEnd, Assemble, Exact, Decimal.Value, SignEnd, Round;
    var n := NumeralOf(t);
    WorthParts(t);
    AssembleIs(n, n.exponent.Some? && n.exponent.value.sign == "-",
               if n.exponent.Some? then Decimal.Value(n.exponent.value.digits) else 0);
  }

  /** A text is a complete literal of a value exactly when it is a numeral of that value. */
  lemma {:induction false} LiteralIff(s: string, x: Float)
    ensures ParseNumber(s) == Done(Number(x), "") <==> Denotes(s, x)
  {
    hide NumberEnd, NumeralOf, NumeralValue, RenderNumeral, GoodNumeral;
    if ParseNumber(s) == Done(Number(x), "") {
      ReadIsNumeral(s);
      assert Spells(NumeralOf(s), s, x);
    }
    if Denotes(s, x) {
      var n :| Spells(n, s, x);
      NumeralReads(n, "");
      assert RenderNumeral(n) + "" == s;
    }
  }

  predicate Spells(n: Numeral, s: string, x: Float) {
    GoodNumeral(n) && RenderNumeral(n) == s && NumeralValue(n) == x
  }

  /** The text is a numeral of this value. */
  ghost predicate Denotes(s: string, x: Float) {
    exists n :: Spells(n, s, x)
  }

  lemma {:induction false} PartsJoin(t: string, m: nat, a: nat, b: nat, end: nat, n: Numeral)
    requires m <= a <= b <= end <= |t|
    requires t[..m] == MinusText(n) && t[m..a] == n.whole
    requires t[a..b] == FractionText(n.fraction) && t[b..end] == ExponentText(n.exponent)
    ensures t == RenderNumeral(n) + t[end..]
  {
    hide MinusText, FractionText, ExponentText;
    assert t[..a] == t[..m] + t[m..a];
    assert t[..b] == t[..a] + t[a..b];
    assert t[..end] == t[..b] + t[b..end];
    assert t == t[..end] + t[end..];
  }
}
