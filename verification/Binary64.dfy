/** 64-bit floating-point numbers: the finite values of the format, and rounding to the nearest of them, ties to the
    even significand. Zeros of either sign are one number, as they are to the comparison of the source language. */
module Binary64 {
  const TWO_52: int := 0x10_0000_0000_0000
  const TWO_53: int := 0x20_0000_0000_0000
  const MIN_EXP: int := -1074
  const MAX_EXP: int := 971

  datatype Float = Finite(value: real) | Infinite(minus: bool) | NaN

  function TwoTo(e: int): (p: real)
    ensures p > 0.0
    decreases if e < 0 then -e else e
  {
    if e == 0 then 1.0 else if e > 0 then 2.0 * TwoTo(e - 1) else TwoTo(e + 1) / 2.0
  }

  function Times(k: int, t: real): real {
    k as real * t
  }

  /** `x` is the significand `k` scaled by two to the `j`. */
  predicate Scaled(x: real, k: int, j: int) {
    -TWO_53 < k < TWO_53 && MIN_EXP <= j <= MAX_EXP && x == Times(k, TwoTo(j))
  }

  /** A finite value of the format. */
  ghost predicate IsBinary64(x: real) {
    exists k, j :: Scaled(x, k, j)
  }

  // ----- rounding -----

  /** The smallest exponent from `e` on at which the significand has at most 53 bits, or one past the largest. */
  function ExponentFrom(a: real, e: int): (r: int)
    requires MIN_EXP <= e <= MAX_EXP + 1
    ensures e <= r <= MAX_EXP + 1
    ensures r <= MAX_EXP ==> a < Times(TWO_53, TwoTo(r))
    ensures forall i :: e <= i < r ==> a >= Times(TWO_53, TwoTo(i))
    decreases MAX_EXP - e
  {
    if e > MAX_EXP || a < Times(TWO_53, TwoTo(e)) then e else ExponentFrom(a, e + 1)
  }

  /** The nearest integer, the even one of two. */
  function ToEven(q: real): (n: nat)
    requires q >= 0.0
  {
    var n := q.Floor;
    var d := q - n as real;
    if d < 0.5 || (d == 0.5 && n % 2 == 0) then n else n + 1
  }

  function Ratio(a: real, t: real): (q: real)
    requires a >= 0.0 && t > 0.0
    ensures q >= 0.0
  {
    a / t
  }

  function RoundMagnitude(a: real): (r: Float)
    requires a >= 0.0
  {
    var e := ExponentFrom(a, MIN_EXP);
    if e > MAX_EXP then Infinite(false)
    else
      var m := ToEven(Ratio(a, TwoTo(e)));
      if m >= TWO_53 && e == MAX_EXP then Infinite(false) else Finite(Times(m, TwoTo(e)))
  }

  function Negate(f: Float): Float {
    match f
    case Finite(v) => Finite(-v)
    case Infinite(minus) => Infinite(!minus)
    case NaN => NaN
  }

  function Round(x: real): Float {
    if x < 0.0 then Negate(RoundMagnitude(-x)) else RoundMagnitude(x)
  }

  // ----- products -----

  lemma {:induction false} TimesTimes(a: int, b: int, t: real)
    ensures Times(a, Times(b, t)) == Times(a * b, t)
  {
    var x, y := a as real, b as real;
    assert (a * b) as real == x * y;
    assert x * (y * t) == (x * y) * t;
  }

  lemma {:induction false} TimesMonotone(a: int, b: int, t: real)
    requires t > 0.0
    ensures a <= b <==> Times(a, t) <= Times(b, t)
  {
    if a < b {
      StrictScale(a as real, b as real, t);
    } else if b < a {
      StrictScale(b as real, a as real, t);
    }
  }

  lemma {:induction false} StrictScale(x: real, y: real, t: real)
    requires x < y && t > 0.0
    ensures x * t < y * t
  {
    var d := y - x;
    StrictProduct(d, t);
    assert d * t == y * t - x * t;
  }

  lemma {:induction false} StrictProduct(x: real, t: real)
    requires x > 0.0 && t > 0.0
    ensures x * t > 0.0
  {
  }

  lemma {:induction false} TimesSigns(k: int, t: real)
    ensures Times(-k, t) == -Times(k, t) && Times(0, t) == 0.0 && Times(1, t) == t && Times(2, t) == 2.0 * t
  {
    var x := k as real;
    assert (-k) as real == -x;
    assert (-x) * t == -(x * t);
  }

  /** Dividing and multiplying back. */
  lemma {:induction false} RatioTimes(a: real, k: int, t: real)
    requires a >= 0.0 && t > 0.0
    ensures Ratio(a, t) < k as real <==> a < Times(k, t)
    ensures Ratio(a, t) == k as real <==> a == Times(k, t)
  {
    var q := Ratio(a, t);
    var y := k as real;
    assert q * t == a;
    if q < y {
      StrictScale(q, y, t);
    } else if y < q {
      StrictScale(y, q, t);
    }
  }

  // ----- powers of two -----

  lemma {:induction false} TwoToNext(e: int)
    ensures TwoTo(e + 1) == Times(2, TwoTo(e))
  {
  }

  function Whole(n: nat): (w: nat)
    ensures w >= 1
  {
    if n == 0 then 1 else 2 * Whole(n - 1)
  }

  /** Larger powers are multiples of smaller ones. */
  lemma {:induction false} TwoToMultiple(e: int, n: nat)
    ensures TwoTo(e + n) == Times(Whole(n), TwoTo(e))
  {
    hide TwoTo, Times;
    TimesSigns(0, TwoTo(e));
    if n > 0 {
      TwoToMultiple(e, n - 1);
      TwoToNext(e + (n - 1));
      TimesTimes(2, Whole(n - 1), TwoTo(e));
    }
  }

  // ----- the result is a value of the format -----

  lemma {:induction false} ToEvenBounds(q: real, n: nat)
    requires 0.0 <= q < n as real
    ensures ToEven(q) <= n
  {
  }

  /** The significand before and after rounding. */
  lemma {:induction false} Significand(a: real)
    requires a >= 0.0
    ensures var e := ExponentFrom(a, MIN_EXP);
            e <= MAX_EXP ==> Ratio(a, TwoTo(e)) < TWO_53 as real && 0 <= ToEven(Ratio(a, TwoTo(e))) <= TWO_53
  {
    hide TwoTo, Times, ToEven, Ratio;
    var e := ExponentFrom(a, MIN_EXP);
    if e <= MAX_EXP {
      RatioTimes(a, TWO_53, TwoTo(e));
      ToEvenBounds(Ratio(a, TwoTo(e)), TWO_53);
    }
  }

  lemma {:induction false} CarriedOut(e: int)
    ensures Times(TWO_53, TwoTo(e)) == Times(TWO_52, TwoTo(e + 1))
  {
    hide TwoTo, Times;
    TwoToNext(e);
    TimesTimes(TWO_52, 2, TwoTo(e));
  }

  lemma {:induction false} MagnitudeRounds(a: real)
    requires a >= 0.0
    ensures !RoundMagnitude(a).NaN?
    ensures RoundMagnitude(a).Finite? ==> IsBinary64(RoundMagnitude(a).value) && RoundMagnitude(a).value >= 0.0
  {
    hide TwoTo, Times, ToEven, Ratio, ExponentFrom;
    var e := ExponentFrom(a, MIN_EXP);
    if e <= MAX_EXP {
      Significand(a);
      var m := ToEven(Ratio(a, TwoTo(e)));
      TimesMonotone(0, m, TwoTo(e));
      TimesSigns(0, TwoTo(e));
      CarriedOut(e);
      if m < TWO_53 {
        assert Scaled(Times(m, TwoTo(e)), m, e);
      } else if e < MAX_EXP {
        assert Scaled(Times(m, TwoTo(e)), TWO_52, e + 1);
      }
    }
  }

  lemma {:induction false} NegativeBinary64(x: real)
    requires IsBinary64(x)
    ensures IsBinary64(-x)
  {
    hide TwoTo, Times;
    var k, j :| Scaled(x, k, j);
    TimesSigns(k, TwoTo(j));
    assert Scaled(-x, -k, j);
  }

  /** What rounding gives is a value of the format or an infinity. */
  lemma {:induction false} RoundIsBinary64(x: real)
    ensures !Round(x).NaN? && (Round(x).Finite? ==> IsBinary64(Round(x).value))
  {
    hide RoundMagnitude, IsBinary64;
    MagnitudeRounds(if x < 0.0 then -x else x);
    if x < 0.0 && RoundMagnitude(-x).Finite? {
      NegativeBinary64(RoundMagnitude(-x).value);
    }
  }

  // ----- values of the format stay as they are -----

  lemma {:induction false} ToEvenWhole(n: nat)
    ensures ToEven(n as real) == n
  {
  }

  lemma {:induction false} ExponentAtMost(a: real, k: nat, j: int)
    requires Scaled(a, k, j)
    ensures ExponentFrom(a, MIN_EXP) <= j && a >= 0.0
  {
    hide TwoTo, Times, ExponentFrom;
    TimesMonotone(TWO_53, k, TwoTo(j));
    TimesMonotone(0, k, TwoTo(j));
    TimesSigns(0, TwoTo(j));
  }

  /** At a smaller exponent the significand is still whole. */
  lemma {:induction false} WholeAt(k: int, j: int, e: int) returns (n: int)
    requires e <= j
    ensures Times(k, TwoTo(j)) == Times(n, TwoTo(e)) && (k >= 0 ==> n >= 0)
  {
    TwoToMultiple(e, j - e);
    hide TwoTo, Times, Whole;
    assert e + (j - e) == j;
    n := k * Whole(j - e);
    TimesTimes(k, Whole(j - e), TwoTo(e));
  }

  lemma {:induction false} MagnitudeExact(a: real, k: nat, j: int)
    requires Scaled(a, k, j)
    ensures a >= 0.0 && RoundMagnitude(a) == Finite(a)
  {
    hide TwoTo, Times, ToEven, Ratio, ExponentFrom;
    ExponentAtMost(a, k, j);
    var e := ExponentFrom(a, MIN_EXP);
    var n := WholeAt(k, j, e);
    RatioTimes(a, n, TwoTo(e));
    ToEvenWhole(n);
    Significand(a);
  }

  /** Rounding changes no value of the format. */
  lemma {:induction false} RoundExact(x: real)
    requires IsBinary64(x)
    ensures Round(x) == Finite(x)
  {
    hide TwoTo, Times, RoundMagnitude;
    var k, j :| Scaled(x, k, j);
    TimesSigns(k, TwoTo(j));
    TimesMonotone(0, k, TwoTo(j));
    if x < 0.0 {
      assert Scaled(-x, -k, j);
      MagnitudeExact(-x, -k, j);
    } else {
      MagnitudeExact(x, k, j);
    }
  }

  // ----- nothing is nearer -----

  function Distance(x: real, y: real): (d: real)
    ensures d >= 0.0
  {
    if x < y then y - x else x - y
  }

  /** No integer is nearer. */
  lemma {:induction false} ToEvenNearest(q: real, n: int)
    requires q >= 0.0
    ensures Distance(q, ToEven(q) as real) <= Distance(q, n as real)
  {
    if n <= q.Floor {
      assert n as real <= q.Floor as real;
    } else {
      assert n as real >= (q.Floor + 1) as real;
    }
  }

  /** Distances scale. */
  lemma {:induction false} DistanceScales(q: real, m: int, n: int, t: real)
    requires t > 0.0 && Distance(q, m as real) <= Distance(q, n as real)
    ensures Distance(q * t, Times(m, t)) <= Distance(q * t, Times(n, t))
  {
    hide Distance, Times;
    var c, d := Distance(q, m as real), Distance(q, n as real);
    DistanceOfTimes(q, m, t);
    DistanceOfTimes(q, n, t);
    if c < d {
      StrictScale(c, d, t);
    }
  }

  lemma {:induction false} DistanceTimes(x: real, y: real, t: real)
    requires t > 0.0
    ensures Distance(x * t, y * t) == Distance(x, y) * t
  {
    if x < y {
      StrictScale(x, y, t);
      assert (y - x) * t == y * t - x * t;
    } else {
      if y < x {
        StrictScale(y, x, t);
      }
      assert (x - y) * t == x * t - y * t;
    }
  }

  lemma {:induction false} DistanceOfTimes(q: real, m: int, t: real)
    requires t > 0.0
    ensures Distance(q * t, Times(m, t)) == Distance(q, m as real) * t
  {
    var y := m as real;
    DistanceTimes(q, y, t);
    assert Times(m, t) == y * t;
  }

  /** Among the multiples of one power of two the rounded value is the nearest. */
  lemma {:induction false} NearestMultiple(a: real, e: int, n: int)
    requires a >= 0.0
    ensures Distance(a, Times(ToEven(Ratio(a, TwoTo(e))), TwoTo(e))) <= Distance(a, Times(n, TwoTo(e)))
  {
    hide TwoTo, ToEven, Times, Distance;
    var t := TwoTo(e);
    var q := Ratio(a, t);
    assert q * t == a;
    ToEvenNearest(q, n);
    DistanceScales(q, ToEven(q), n, t);
  }

  /** A value with a smaller exponent than the one chosen lies below the smallest significand of 53 bits there. */
  lemma {:induction false} FinerIsBelow(a: real, w: real, k: int, j: int)
    requires a >= 0.0 && Scaled(w, k, j) && j < ExponentFrom(a, MIN_EXP)
    ensures var e := ExponentFrom(a, MIN_EXP);
            w <= Times(TWO_52, TwoTo(e)) <= a
  {
    hide TwoTo, Times, ExponentFrom;
    var e := ExponentFrom(a, MIN_EXP);
    CarriedOut(e - 1);
    assert a >= Times(TWO_53, TwoTo(e - 1));
    TwoToMultiple(j, e - 1 - j);
    assert j + (e - 1 - j) == e - 1;
    TimesTimes(TWO_53, Whole(e - 1 - j), TwoTo(j));
    MoreBits(k, Whole(e - 1 - j));
    TimesMonotone(k, TWO_53 * Whole(e - 1 - j), TwoTo(j));
  }

  lemma {:induction false} MoreBits(k: int, w: nat)
    requires k < TWO_53 && w >= 1
    ensures k <= TWO_53 * w
  {
  }

  lemma {:induction false} MagnitudeNearest(a: real, w: real)
    requires a >= 0.0 && RoundMagnitude(a).Finite? && IsBinary64(w)
    ensures Distance(a, RoundMagnitude(a).value) <= Distance(a, w)
  {
    hide TwoTo, Times, ToEven, Ratio, ExponentFrom;
    var e := ExponentFrom(a, MIN_EXP);
    var k, j :| Scaled(w, k, j);
    if e <= j {
      var n := WholeAt(k, j, e);
      NearestMultiple(a, e, n);
    } else {
      FinerIsBelow(a, w, k, j);
      NearestMultiple(a, e, TWO_52);
    }
  }

  /** No value of the format is nearer than the one rounding gives. */
  lemma {:induction false} RoundIsNearest(x: real, w: real)
    requires Round(x).Finite? && IsBinary64(w)
    ensures Distance(x, Round(x).value) <= Distance(x, w)
  {
    hide RoundMagnitude, IsBinary64;
    if x < 0.0 {
      NegativeBinary64(w);
      MagnitudeNearest(-x, -w);
    } else {
      MagnitudeNearest(x, w);
    }
  }

  // ----- ties -----

  /** An even and an odd multiple of one power of two. */
  predicate EvenAndOdd(v: real, w: real, m: int, n: int, e: int) {
    v == Times(m, TwoTo(e)) && w == Times(n, TwoTo(e)) && m % 2 == 0 && n % 2 == 1
  }

  lemma {:induction false} ToEvenTie(q: real, n: int)
    requires q >= 0.0 && n != ToEven(q) && Distance(q, n as real) == Distance(q, ToEven(q) as real)
    ensures ToEven(q) % 2 == 0 && n % 2 == 1
  {
    var f := q.Floor;
    assert n < f ==> n as real <= (f - 1) as real;
    assert n > f + 1 ==> n as real >= (f + 2) as real;
  }

  lemma {:induction false} DistanceUnscales(q: real, m: int, n: int, t: real)
    requires t > 0.0 && Distance(q * t, Times(m, t)) == Distance(q * t, Times(n, t))
    ensures Distance(q, m as real) == Distance(q, n as real)
  {
    hide Distance, Times;
    var c, d := Distance(q, m as real), Distance(q, n as real);
    DistanceOfTimes(q, m, t);
    DistanceOfTimes(q, n, t);
    if c < d {
      StrictScale(c, d, t);
    } else if d < c {
      StrictScale(d, c, t);
    }
  }

  lemma {:induction false} TieOfMultiples(a: real, e: int, n: int)
    requires a >= 0.0
    requires var m := ToEven(Ratio(a, TwoTo(e)));
             m != n && Distance(a, Times(m, TwoTo(e))) == Distance(a, Times(n, TwoTo(e)))
    ensures ToEven(Ratio(a, TwoTo(e))) % 2 == 0 && n % 2 == 1
  {
    hide TwoTo, ToEven, Times, Distance;
    var t := TwoTo(e);
    var q := Ratio(a, t);
    assert q * t == a;
    DistanceUnscales(q, ToEven(q), n, t);
    ToEvenTie(q, n);
  }

  lemma {:induction false} MagnitudeTies(a: real, w: real) returns (m: int, n: int, e: int)
    requires a >= 0.0 && RoundMagnitude(a).Finite? && IsBinary64(w) && w != RoundMagnitude(a).value
    requires Distance(a, w) == Distance(a, RoundMagnitude(a).value)
    ensures EvenAndOdd(RoundMagnitude(a).value, w, m, n, e)
  {
    hide TwoTo, Times, ToEven, Ratio, ExponentFrom;
    e := ExponentFrom(a, MIN_EXP);
    m := ToEven(Ratio(a, TwoTo(e)));
    var k, j :| Scaled(w, k, j);
    if e <= j {
      n := WholeAt(k, j, e);
    } else {
      FinerIsBelow(a, w, k, j);
      NearestMultiple(a, e, TWO_52);
      n := TWO_52;
      assert w == Times(n, TwoTo(e));
    }
    TieOfMultiples(a, e, n);
  }

  /** Of two values of the format that are equally near, rounding gives the even one. */
  lemma {:induction false} RoundTiesToEven(x: real, w: real)
    requires Round(x).Finite? && IsBinary64(w) && w != Round(x).value
    requires Distance(x, w) == Distance(x, Round(x).value)
    ensures exists m, n, e :: EvenAndOdd(Round(x).value, w, m, n, e)
  {
    hide RoundMagnitude, IsBinary64, TwoTo, Times;
    if x < 0.0 {
      NegativeBinary64(w);
      var m, n, e := MagnitudeTies(-x, -w);
      TimesSigns(m, TwoTo(e));
      TimesSigns(n, TwoTo(e));
      assert EvenAndOdd(Round(x).value, w, -m, -n, e);
    } else {
      var m, n, e := MagnitudeTies(x, w);
    }
  }

  /** Rounding overflows exactly from halfway past the largest value of the format on. */
  lemma {:induction false} RoundOverflowsIff(x: real)
    ensures var half := Times(2 * TWO_53 - 1, TwoTo(MAX_EXP - 1));
            && (Round(x).Infinite? <==> x >= half || -x >= half)
            && (Round(x).Infinite? ==> Round(x).minus == (x < 0.0))
  {
    hide RoundMagnitude, Times, TwoTo;
    MagnitudeOverflowsIff(if x < 0.0 then -x else x);
    TimesMonotone(1, 2 * TWO_53 - 1, TwoTo(MAX_EXP - 1));
    TimesSigns(0, TwoTo(MAX_EXP - 1));
  }

  lemma {:induction false} MagnitudeOverflowsIff(a: real)
    requires a >= 0.0
    ensures RoundMagnitude(a).Infinite? <==> a >= Times(2 * TWO_53 - 1, TwoTo(MAX_EXP - 1))
    ensures RoundMagnitude(a).Infinite? ==> !RoundMagnitude(a).minus
  {
    hide TwoTo, Times, ToEven, Ratio, ExponentFrom;
    var e, t := ExponentFrom(a, MIN_EXP), TwoTo(MAX_EXP - 1);
    TwoToNext(MAX_EXP - 1);
    TimesTimes(TWO_53, 2, t);
    TimesMonotone(2 * TWO_53 - 1, 2 * TWO_53, t);
    if e > MAX_EXP {
      assert a >= Times(TWO_53, TwoTo(MAX_EXP));
    } else if e < MAX_EXP {
      BelowLast(a, e);
    } else {
      Significand(a);
      HalfRatio(a, t);
      ToEvenTop(Ratio(a, TwoTo(MAX_EXP)));
    }
  }

  lemma {:induction false} BelowLast(a: real, e: int)
    requires e < MAX_EXP && a < Times(TWO_53, TwoTo(e))
    ensures a < Times(2 * TWO_53 - 1, TwoTo(MAX_EXP - 1))
  {
    hide TwoTo, Times;
    TwoToMultiple(e, MAX_EXP - 1 - e);
    assert e + (MAX_EXP - 1 - e) == MAX_EXP - 1;
    var w := Whole(MAX_EXP - 1 - e);
    TimesTimes(2 * TWO_53 - 1, w, TwoTo(e));
    MoreBits(TWO_53 - 1, w);
    TimesMonotone(TWO_53, (2 * TWO_53 - 1) * w, TwoTo(e));
  }

  /** Halfway below 53 bits. */
  lemma {:induction false} HalfRatio(a: real, t: real)
    requires a >= 0.0 && t > 0.0 && TwoTo(MAX_EXP) == Times(2, t)
    ensures Ratio(a, TwoTo(MAX_EXP)) >= TWO_53 as real - 0.5 <==> a >= Times(2 * TWO_53 - 1, t)
  {
    hide TwoTo, Times;
    RatioTimes(a, 2 * TWO_53 - 1, t);
    TimesSigns(0, t);
    RatioHalves(a, t);
  }

  lemma {:induction false} RatioHalves(a: real, t: real)
    requires a >= 0.0 && t > 0.0
    ensures Ratio(a, 2.0 * t) * 2.0 == Ratio(a, t)
  {
  }

  lemma {:induction false} ToEvenTop(q: real)
    requires 0.0 <= q < TWO_53 as real
    ensures ToEven(q) >= TWO_53 <==> q >= TWO_53 as real - 0.5
  {
  }
}
