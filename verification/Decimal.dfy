/** Unsigned decimal text. */
module Decimal {
  import opened Results

  predicate IsDigit(c: char) {
    '0' <= c <= '9'
  }

  predicate AllDigits(s: string) {
    forall i :: 0 <= i < |s| ==> IsDigit(s[i])
  }

  function DigitValue(c: char): (d: nat)
    requires IsDigit(c)
    ensures d < 10
  {
    c as int - '0' as int
  }

  function DigitChar(d: nat): (c: char)
    requires d < 10
    ensures IsDigit(c) && DigitValue(c) == d
  {
    ('0' as int + d) as char
  }

  /** The number a digit string writes, most significant digit first; the empty string writes zero. */
  function Value(s: string): nat
    requires AllDigits(s)
  {
    if s == "" then 0 else 10 * Value(s[..|s| - 1]) + DigitValue(s[|s| - 1])
  }

  /** The shortest digit string for `n`. */
  function Text(n: nat): (s: string)
    ensures s != "" && AllDigits(s)
  {
    if n < 10 then [DigitChar(n)] else Text(n / 10) + [DigitChar(n % 10)]
  }

  lemma {:induction false} TextValue(n: nat)
    ensures Value(Text(n)) == n
  {
    var s := Text(n);
    if n < 10 {
      assert s[..|s| - 1] == "";
    } else {
      TextValue(n / 10);
      assert s[..|s| - 1] == Text(n / 10);
    }
  }

  /** No needless leading zero. */
  predicate Canonical(s: string) {
    s == "0" || (s != "" && s[0] != '0')
  }

  lemma {:induction false} TextCanonical(n: nat)
    ensures Canonical(Text(n)) && (n > 0 ==> Text(n)[0] != '0')
  {
    if n >= 10 {
      TextCanonical(n / 10);
    }
  }

  lemma {:induction false} ValuePositive(s: string)
    requires AllDigits(s) && s != "" && s[0] != '0'
    ensures Value(s) > 0
  {
    if |s| == 1 {
      assert s[..0] == "";
    } else {
      ValuePositive(s[..|s| - 1]);
    }
  }

  /** Digits come back unchanged from the number they write exactly when they are canonical. */
  lemma {:induction false} ValueTextIff(s: string)
    requires AllDigits(s) && s != ""
    ensures Text(Value(s)) == s <==> Canonical(s)
  {
    TextCanonical(Value(s));
    if Canonical(s) {
      CanonicalReturns(s);
    }
  }

  lemma {:induction false} CanonicalReturns(s: string)
    requires AllDigits(s) && Canonical(s)
    ensures Text(Value(s)) == s
  {
    var init := s[..|s| - 1];
    assert s == init + [s[|s| - 1]];
    if init == "" {
      assert Value(s) == DigitValue(s[0]);
    } else {
      ValuePositive(init);
      CanonicalReturns(init);
      assert Value(s) / 10 == Value(init);
    }
  }

  // ----- bounded reading -----

  /** The number a non-empty digit string writes, if it is at most `max`. */
  function Within(s: string, max: nat): (r: Option<nat>)
    ensures r.Some? ==> r.value <= max
  {
    if s != "" && AllDigits(s) && Value(s) <= max then Some(Value(s)) else None
  }

  lemma {:induction false} ValueGrows(s: string, k: nat)
    requires AllDigits(s) && k <= |s|
    ensures AllDigits(s[..k]) && Value(s[..k]) <= Value(s)
    decreases |s| - k
  {
    if k < |s| {
      ValueGrows(s, k + 1);
      assert s[..k + 1][..k] == s[..k];
    } else {
      assert s[..k] == s;
    }
  }

  method ParseUnsigned(s: string, max: nat) returns (r: Option<nat>)
    ensures r == Within(s, max)
  {
    if s == "" {
      return None;
    }
    var acc := 0;
    assert s[..0] == "";
    for i := 0 to |s|
      invariant AllDigits(s[..i]) && acc == Value(s[..i]) && acc <= max
    {
      if !IsDigit(s[i]) {
        return None;
      }
      assert s[..i + 1][..i] == s[..i];
      if AllDigits(s) {
        ValueGrows(s, i + 1);
      }
      if acc * 10 > max {
        return None;
      }
      if acc * 10 + DigitValue(s[i]) > max {
        return None;
      }
      acc := acc * 10 + DigitValue(s[i]);
    }
    assert s[..|s|] == s;
    return Some(acc);
  }

  // ----- writing through a fixed buffer -----

  function Pow10(n: nat): (p: nat)
    ensures p > 0
  {
    if n == 0 then 1 else 10 * Pow10(n - 1)
  }

  /** The digits of `n`, none for zero. */
  function Digits(n: nat): string {
    if n == 0 then "" else Text(n)
  }

  lemma {:induction false} DigitsPositive(n: nat)
    ensures Digits(n) == if n == 0 then "" else Text(n)
  {
  }

  lemma {:induction false} TextZero()
    ensures Text(0) == "0"
  {
  }

  lemma {:induction false} LastDigit(m: nat, tail: string)
    requires m > 0
    ensures Digits(m) + tail == Digits(m / 10) + ([DigitChar(m % 10)] + tail)
  {
    assert Digits(m) == Digits(m / 10) + [DigitChar(m % 10)];
  }

  lemma {:induction false} RoomLeft(m: nat, i: nat)
    requires 0 < m < Pow10(i)
    ensures i > 0 && m / 10 < Pow10(i - 1)
  {
  }

  /** Fill the buffer from its end; numbers below 10^width never run out of room. */
  method PushDecimal(out: string, n: nat, width: nat) returns (r: string)
    requires n < Pow10(width)
    ensures r == out + Text(n)
  {
    hide Text, Pow10, Digits, DigitChar, IsDigit, AllDigits;
    if n == 0 {
      TextZero();
      return out + "0";
    }
    DigitsPositive(n);
    DigitsPositive(0);
    var buf := new char[width];
    var i: nat := width;
    var m: nat := n;
    ghost var tail: string := "";
    while m > 0
      invariant i <= buf.Length && tail == buf[i..]
      invariant m < Pow10(i)
      invariant Digits(m) + tail == Text(n)
      decreases m
    {
      RoomLeft(m, i);
      LastDigit(m, tail);
      i := i - 1;
      buf[i] := DigitChar(m % 10);
      tail := [buf[i]] + tail;
      m := m / 10;
    }
    return out + buf[i..];
  }

  lemma {:induction false} Widths()
    ensures Pow10(10) > 0xFFFF_FFFF && Pow10(20) > 0xFFFF_FFFF_FFFF_FFFF
  {
    assert Pow10(2) == 100;
    assert Pow10(4) == 10_000;
    assert Pow10(6) == 1_000_000;
    assert Pow10(8) == 100_000_000;
    assert Pow10(10) == 10_000_000_000;
    assert Pow10(12) == 1_000_000_000_000;
    assert Pow10(14) == 100_000_000_000_000;
    assert Pow10(16) == 10_000_000_000_000_000;
    assert Pow10(18) == 1_000_000_000_000_000_000;
    assert Pow10(20) == 100_000_000_000_000_000_000;
  }
}
