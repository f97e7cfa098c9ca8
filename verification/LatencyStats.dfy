/** Latency statistics over a list of samples. */
module LatencyStats {
  import opened Arithmetic
  import opened Bytes
  import opened Results

  // ----- integer square root -----

  predicate IsFloorSqrt(n: nat, r: nat) {
    r * r <= n < (r + 1) * (r + 1)
  }

  /** One Newton step never goes below a number whose square still fits. */
  lemma {:induction false} NewtonStaysAbove(n: nat, x: nat, s: nat)
    requires x >= 1 && s * s <= n
    ensures (x + n / x) / 2 >= s
  {
    var q := n / x;
    Quotient(n, x);
    if x + q <= 2 * s - 1 {
      var d := s - x;
      assert (q + 1) * x <= (2 * s - x) * x by {
        MulAtMost(q + 1, 2 * s - x, x);
      }
      assert (2 * s - x) * x == s * s - d * d;
      SquareNonNegative(d);
    }
  }

  lemma {:induction false} SquareNonNegative(d: int)
    ensures d * d >= 0
  {
  }

  lemma {:induction false} NewtonStops(n: nat, x: nat)
    requires x >= 1 && (x + n / x) / 2 >= x
    ensures x * x <= n
  {
    Quotient(n, x);
    MulAtMost(x, n / x, x);
  }

  /** The sum in a step fits 64 bits while the guess is at least the root and at most half of `n` or so. */
  lemma {:induction false} StepFits(n: u64, x: nat)
    requires 1 <= x <= n / 2 + 1 && n < (x + 1) * (x + 1)
    ensures x + n / x <= U64_MAX
  {
    var q := n / x;
    Quotient(n, x);
    if x < 0x2_0000_0000 {
      RootQuotient(n, x, q);
    } else {
      LargeQuotient(n, x, q);
    }
  }

  lemma {:induction false} RootQuotient(n: nat, x: nat, q: nat)
    requires 1 <= x && n < (x + 1) * (x + 1) && q * x <= n
    ensures q <= x + 2
  {
    assert (x + 3) * x == x * x + 3 * x;
    assert (x + 1) * (x + 1) == x * x + 2 * x + 1;
    if q >= x + 3 {
      MulAtMost(x + 3, q, x);
    }
  }

  lemma {:induction false} LargeQuotient(n: u64, x: nat, q: nat)
    requires x >= 0x2_0000_0000 && q * x <= n
    ensures q < 0x8000_0000
  {
    if q >= 0x8000_0000 {
      MulAtMost(0x8000_0000, q, x);
    }
  }

  function Newton(n: nat, x: nat): nat
    requires x > 0
  {
    (x + n / x) / 2
  }

  ghost function Root(n: nat, r: nat): nat
    requires r * r <= n
    ensures IsFloorSqrt(n, Root(n, r))
    decreases n - r
  {
    if n < (r + 1) * (r + 1) then r
    else
      assert (r + 1) * (r + 1) == r * r + 2 * r + 1;
      Root(n, r + 1)
  }

  /** Newton's method; every sum it forms fits 64 bits. */
  method Isqrt(n: u64) returns (x: u64)
    ensures IsFloorSqrt(n, x)
  {
    hide IsFloorSqrt, Newton;
    if n == 0 {
      RootOfZero();
      return 0;
    }
    ghost var s := Root(n, 0);
    x := n;
    var y: nat := (n + 1) / 2;
    FirstGuess(n);
    Above(n, n, s);
    while y < x
      invariant 1 <= x && s <= x && s <= y && y == Newton(n, x)
      invariant y < x ==> 1 <= y <= n / 2 + 1
      decreases x
    {
      x := y;
      Above(n, x, s);
      Fits(n, x, s);
      y := Newton(n, x);
      NewtonPositive(n, x);
    }
    Exact(n, x, s);
  }

  lemma {:induction false} RootOfZero()
    ensures IsFloorSqrt(0, 0)
  {
  }

  lemma {:induction false} FirstGuess(n: nat)
    requires n > 0
    ensures Newton(n, n) == (n + 1) / 2
  {
    assert n / n == 1;
  }

  lemma {:induction false} NewtonPositive(n: nat, x: nat)
    requires 1 <= x <= n
    ensures Newton(n, x) >= 1
  {
    NewtonStaysAbove(n, x, 1);
  }

  lemma {:induction false} Above(n: nat, x: nat, s: nat)
    requires x >= 1 && IsFloorSqrt(n, s)
    ensures Newton(n, x) >= s
  {
    NewtonStaysAbove(n, x, s);
  }

  lemma {:induction false} Fits(n: u64, x: nat, s: nat)
    requires 1 <= x <= n / 2 + 1 && s <= x && IsFloorSqrt(n, s)
    ensures x + n / x <= U64_MAX
  {
    MulAtMost(s + 1, x + 1, s + 1);
    MulAtMost(s + 1, x + 1, x + 1);
    StepFits(n, x);
  }

  lemma {:induction false} Exact(n: nat, x: nat, s: nat)
    requires x >= 1 && s <= x && IsFloorSqrt(n, s) && Newton(n, x) >= x
    ensures IsFloorSqrt(n, x)
  {
    NewtonStops(n, x);
    MulAtMost(s + 1, x + 1, s + 1);
    MulAtMost(s + 1, x + 1, x + 1);
  }

  // ----- sorted samples -----

  predicate Sorted(s: seq<u64>) {
    forall i, j :: 0 <= i < j < |s| ==> s[i] <= s[j]
  }

  function Insert(x: u64, s: seq<u64>): seq<u64> {
    if s == [] || x <= s[0] then [x] + s else [s[0]] + Insert(x, s[1..])
  }

  function Sort(s: seq<u64>): seq<u64> {
    if s == [] then [] else Insert(s[0], Sort(s[1..]))
  }

  lemma {:induction false} SortedCons(h: u64, t: seq<u64>)
    requires Sorted(t) && (t != [] ==> h <= t[0])
    ensures Sorted([h] + t)
  {
    var s := [h] + t;
    forall i, j | 0 <= i < j < |s| ensures s[i] <= s[j] {
      assert i == 0 ==> t[0] <= t[j - 1];
    }
  }

  lemma {:induction false} InsertSorts(x: u64, s: seq<u64>)
    requires Sorted(s)
    ensures Sorted(Insert(x, s)) && multiset(Insert(x, s)) == multiset{x} + multiset(s)
    ensures Insert(x, s) != [] && Insert(x, s)[0] == if s == [] || x <= s[0] then x else s[0]
  {
    if s == [] || x <= s[0] {
      hide Sorted;
      SortedCons(x, s);
    } else {
      assert Sorted(s[1..]) && (|s| > 1 ==> s[0] <= s[1]);
      hide Sorted;
      InsertSorts(x, s[1..]);
      SortedCons(s[0], Insert(x, s[1..]));
      assert s == [s[0]] + s[1..];
    }
  }

  lemma {:induction false} SortSorts(s: seq<u64>)
    ensures Sorted(Sort(s)) && multiset(Sort(s)) == multiset(s) && |Sort(s)| == |s|
  {
    if s != [] {
      SortSorts(s[1..]);
      InsertSorts(s[0], Sort(s[1..]));
      assert s == [s[0]] + s[1..];
      assert |multiset(Sort(s))| == |multiset(s)|;
    }
  }

  lemma {:induction false} SmallestFirst(a: seq<u64>, b: seq<u64>)
    requires Sorted(a) && multiset(a) == multiset(b) && a != [] && b != []
    ensures a[0] <= b[0]
  {
    assert b[0] in multiset(a);
    var j :| 0 <= j < |a| && a[j] == b[0];
  }

  lemma {:induction false} DropFirst(a: seq<u64>)
    requires a != []
    ensures multiset(a[1..]) == multiset(a) - multiset{a[0]}
  {
    assert a == [a[0]] + a[1..];
  }

  /** There is only one sorted order. */
  lemma {:induction false} SortedIsUnique(a: seq<u64>, b: seq<u64>)
    requires Sorted(a) && Sorted(b) && multiset(a) == multiset(b)
    ensures a == b
  {
    assert |multiset(a)| == |a| && |multiset(b)| == |b|;
    if a != [] {
      SmallestFirst(a, b);
      SmallestFirst(b, a);
      DropFirst(a);
      DropFirst(b);
      assert Sorted(a[1..]) && Sorted(b[1..]);
      hide Sorted;
      SortedIsUnique(a[1..], b[1..]);
      assert a == [a[0]] + a[1..] && b == [b[0]] + b[1..];
    }
  }

  function Sum(s: seq<u64>): nat {
    if s == [] then 0 else s[0] + Sum(s[1..])
  }

  lemma {:induction false} InsertSum(x: u64, s: seq<u64>)
    ensures Sum(Insert(x, s)) == x + Sum(s)
  {
    if s == [] || x <= s[0] {
      assert ([x] + s)[1..] == s;
    } else {
      InsertSum(x, s[1..]);
      assert Insert(x, s)[1..] == Insert(x, s[1..]);
    }
  }

  lemma {:induction false} SortSum(s: seq<u64>)
    ensures Sum(Sort(s)) == Sum(s)
  {
    if s != [] {
      SortSum(s[1..]);
      InsertSum(s[0], Sort(s[1..]));
    }
  }

  function AbsDiff(a: nat, b: nat): nat {
    if a <= b then b - a else a - b
  }

  // ----- percentiles -----

  /** In tenths of a percent: whole percents up to a hundred are scaled, larger numbers are tenths already. */
  function Tenths(pct: nat): nat {
    if pct > 100 then pct else pct * 10
  }

  function Rank(count: nat, pct: nat): (i: nat)
    requires count > 0
    ensures i < count
  {
    var i := count * Tenths(pct) / 1000;
    if i < count then i else count - 1
  }

  function Percentile(sorted: seq<u64>, pct: nat): u64 {
    if sorted == [] then 0
    else if |sorted| == 1 then sorted[0]
    else sorted[Rank(|sorted|, pct)]
  }

  datatype Stats = Stats(count: nat, min: nat, max: nat, mean: nat, p50: nat, p99: nat, p999: nat, total: nat)

  function Mean(total: nat, count: nat): nat
    requires count > 0
  {
    total / count
  }

  lemma {:induction false} MeanIs(total: nat, count: nat)
    requires count > 0
    ensures Mean(total, count) * count <= total < (Mean(total, count) + 1) * count
  {
    Quotient(total, count);
  }

  /** The statistics of a non-empty list; the total wraps at 64 bits. */
  function FromSamples(samples: seq<u64>): Option<Stats> {
    if samples == [] then None
    else
      SortSorts(samples);
      var sorted := Sort(samples);
      var total := Sum(sorted) % TWO_64;
      Some(Stats(|sorted|, sorted[0], sorted[|sorted| - 1], Mean(total, |sorted|), Percentile(sorted, 50),
                 Percentile(sorted, 99), Percentile(sorted, 999), total))
  }

  function Jitter(s: Stats): nat {
    var below, above := AbsDiff(s.mean, s.min), AbsDiff(s.max, s.mean);
    if below >= above then below else above
  }

  lemma {:induction false} RankOrder(count: nat, p: nat, q: nat)
    requires count > 0 && Tenths(p) <= Tenths(q)
    ensures Rank(count, p) <= Rank(count, q)
  {
    var a, b := count * Tenths(p), count * Tenths(q);
    MulAtMost(Tenths(p), Tenths(q), count);
    assert a <= b;
    assert a / 1000 <= b / 1000;
  }

  /** The order of the samples does not matter. */
  lemma {:induction false} OrderDoesNotMatter(a: seq<u64>, b: seq<u64>)
    requires multiset(a) == multiset(b)
    ensures FromSamples(a) == FromSamples(b)
  {
    SortSorts(a);
    SortSorts(b);
    SortedIsUnique(Sort(a), Sort(b));
    assert |multiset(a)| == |a| && |multiset(b)| == |b|;
  }

  lemma {:induction false} SortedBounds(samples: seq<u64>, sorted: seq<u64>, i: nat)
    requires Sorted(sorted) && multiset(sorted) == multiset(samples) && i < |samples|
    ensures sorted != [] && sorted[0] <= samples[i] <= sorted[|sorted| - 1]
  {
    assert samples[i] in multiset(sorted);
    var j :| 0 <= j < |sorted| && sorted[j] == samples[i];
  }

  lemma {:induction false} PercentileOrder(sorted: seq<u64>)
    requires Sorted(sorted) && sorted != []
    ensures sorted[0] <= Percentile(sorted, 50) <= Percentile(sorted, 99) <= Percentile(sorted, 999)
    ensures Percentile(sorted, 999) <= sorted[|sorted| - 1]
    ensures Percentile(sorted, 50) in sorted && Percentile(sorted, 99) in sorted && Percentile(sorted, 999) in sorted
  {
    RankOrder(|sorted|, 50, 99);
    RankOrder(|sorted|, 99, 999);
    hide Rank;
  }

  lemma {:induction false} SameMembers(samples: seq<u64>, sorted: seq<u64>, x: u64)
    requires multiset(sorted) == multiset(samples) && x in sorted
    ensures x in samples
  {
    assert x in multiset(sorted);
  }

  /** Minimum, percentiles and maximum are samples, in order, and every sample is between the extremes. */
  lemma {:induction false} PercentilesInOrder(samples: seq<u64>)
    requires samples != []
    ensures var s := FromSamples(samples).value;
      && s.min <= s.p50 <= s.p99 <= s.p999 <= s.max
      && s.min in samples && s.p50 in samples && s.p99 in samples && s.p999 in samples && s.max in samples
      && forall i :: 0 <= i < |samples| ==> s.min <= samples[i] <= s.max
  {
    hide Sort, Sum, Percentile, Mean, Sorted;
    SortSorts(samples);
    var sorted := Sort(samples);
    PercentileOrder(sorted);
    SameMembers(samples, sorted, sorted[0]);
    SameMembers(samples, sorted, Percentile(sorted, 50));
    SameMembers(samples, sorted, Percentile(sorted, 99));
    SameMembers(samples, sorted, Percentile(sorted, 999));
    SameMembers(samples, sorted, sorted[|sorted| - 1]);
    forall i | 0 <= i < |samples| ensures sorted[0] <= samples[i] <= sorted[|sorted| - 1] {
      SortedBounds(samples, sorted, i);
    }
  }

  /** No sample is further from the mean than the jitter, even if the total wrapped. */
  lemma {:induction false} JitterBounds(samples: seq<u64>, i: nat)
    requires i < |samples|
    ensures var s := FromSamples(samples).value; AbsDiff(samples[i], s.mean) <= Jitter(s)
  {
    PercentilesInOrder(samples);
    hide FromSamples;
  }

  function CountAtMost(s: seq<u64>, p: u64): nat {
    if s == [] then 0 else (if s[0] <= p then 1 else 0) + CountAtMost(s[1..], p)
  }

  lemma {:induction false} CountPrefix(s: seq<u64>, k: nat)
    requires Sorted(s) && k < |s|
    ensures CountAtMost(s, s[k]) >= k + 1
    decreases |s|
  {
    if k > 0 {
      assert s[1..][k - 1] == s[k];
      CountPrefix(s[1..], k - 1);
    }
  }

  function CountAtLeast(s: seq<u64>, p: u64): nat {
    if s == [] then 0 else (if s[0] >= p then 1 else 0) + CountAtLeast(s[1..], p)
  }

  lemma {:induction false} CountSuffix(s: seq<u64>, k: nat)
    requires Sorted(s) && k < |s|
    ensures CountAtLeast(s, s[k]) >= |s| - k
    decreases |s|
  {
    if k > 0 {
      assert s[1..][k - 1] == s[k];
      CountSuffix(s[1..], k - 1);
    } else if |s| > 1 {
      CountSuffix(s[1..], 0);
      CountFewer(s[1..], s[0], s[1]);
    }
  }

  lemma {:induction false} CountFewer(s: seq<u64>, p: u64, q: u64)
    requires p <= q
    ensures CountAtLeast(s, p) >= CountAtLeast(s, q)
  {
    if s != [] {
      CountFewer(s[1..], p, q);
    }
  }

  /** At least the stated share of a sorted list is at or below a percentile, and at least the rest at or above it. */
  lemma {:induction false} SortedShare(sorted: seq<u64>, pct: nat)
    requires Sorted(sorted) && sorted != [] && Tenths(pct) <= 1000
    ensures CountAtMost(sorted, Percentile(sorted, pct)) * 1000 >= |sorted| * Tenths(pct)
    ensures CountAtLeast(sorted, Percentile(sorted, pct)) * 1000 >= |sorted| * (1000 - Tenths(pct))
  {
    var n, t := |sorted|, Tenths(pct);
    var k := if n == 1 then 0 else Rank(n, pct);
    CountPrefix(sorted, k);
    CountSuffix(sorted, k);
    MulAtMost(t, 1000, n);
    hide CountAtMost, CountAtLeast, Sorted, Tenths;
    assert n * (1000 - t) == 1000 * n - n * t;
  }

  lemma {:induction false} CountInsert(x: u64, s: seq<u64>, p: u64)
    ensures CountAtMost(Insert(x, s), p) == (if x <= p then 1 else 0) + CountAtMost(s, p)
    ensures CountAtLeast(Insert(x, s), p) == (if x >= p then 1 else 0) + CountAtLeast(s, p)
  {
    if s == [] || x <= s[0] {
      assert ([x] + s)[1..] == s;
    } else {
      CountInsert(x, s[1..], p);
      assert Insert(x, s)[1..] == Insert(x, s[1..]);
    }
  }

  lemma {:induction false} CountSort(s: seq<u64>, p: u64)
    ensures CountAtMost(Sort(s), p) == CountAtMost(s, p) && CountAtLeast(Sort(s), p) == CountAtLeast(s, p)
  {
    if s != [] {
      CountSort(s[1..], p);
      CountInsert(s[0], Sort(s[1..]), p);
    }
  }

  /** A value with at least so many tenths of a percent of the samples at or below it, and the rest at or above. */
  predicate Splits(samples: seq<u64>, p: nat, tenths: nat)
    requires p < TWO_64 && tenths <= 1000
  {
    && CountAtMost(samples, p) * 1000 >= |samples| * tenths
    && CountAtLeast(samples, p) * 1000 >= |samples| * (1000 - tenths)
  }

  lemma {:induction false} ShareOf(samples: seq<u64>, pct: nat)
    requires samples != [] && Tenths(pct) <= 1000
    ensures Splits(samples, Percentile(Sort(samples), pct), Tenths(pct))
  {
    hide Sort, Sorted, Percentile, Tenths, CountAtMost, CountAtLeast;
    SortSorts(samples);
    SortedShare(Sort(samples), pct);
    CountSort(samples, Percentile(Sort(samples), pct));
  }

  /** The three percentiles of a list of samples, in any order, split it at 50, 99 and 99.9 percent. */
  lemma {:induction false} PercentileShare(samples: seq<u64>)
    requires samples != []
    ensures var s := FromSamples(samples).value;
            && s.p50 < TWO_64 && s.p99 < TWO_64 && s.p999 < TWO_64
            && Splits(samples, s.p50, 500) && Splits(samples, s.p99, 990) && Splits(samples, s.p999, 999)
  {
    ShareOf(samples, 50);
    ShareOf(samples, 99);
    ShareOf(samples, 999);
    hide Sort, Percentile, Mean, Sum, Splits;
  }

  /** The rank as announced, for tenths of a percent. */
  function AnnouncedRank(count: nat, pct: nat): nat
    requires count > 0
  {
    Min(count * pct / 1000, count - 1)
  }

  /** The rank is the announced one for every number of samples exactly when the percentage is 0 or above 100. */
  lemma {:induction false} AnnouncedIff(pct: nat)
    ensures (forall count: nat :: count > 0 ==> Rank(count, pct) == AnnouncedRank(count, pct)) <==>
            pct == 0 || pct > 100
  {
    if pct == 0 || pct > 100 {
      forall count: nat | count > 0 ensures Rank(count, pct) == AnnouncedRank(count, pct) {
        assert Tenths(pct) == pct;
      }
    } else {
      assert Rank(1000, pct) == Min(10 * pct, 999) && AnnouncedRank(1000, pct) == pct;
    }
  }

  /** The jitter is attained: some sample is that far from the mean. */
  lemma {:induction false} JitterIsAttained(samples: seq<u64>)
    requires samples != []
    ensures var s := FromSamples(samples).value;
      exists i :: 0 <= i < |samples| && AbsDiff(samples[i], s.mean) == Jitter(s)
  {
    PercentilesInOrder(samples);
    var s := FromSamples(samples).value;
    hide FromSamples;
    var i :| 0 <= i < |samples| && samples[i] == s.min;
    var j :| 0 <= j < |samples| && samples[j] == s.max;
    assert AbsDiff(samples[i], s.mean) == Jitter(s) || AbsDiff(samples[j], s.mean) == Jitter(s);
  }

  lemma {:induction false} OneMoreTerm(n: nat, c: nat)
    ensures (n + 1) * c == n * c + c
  {
  }

  lemma {:induction false} SumBounds(s: seq<u64>, lo: nat, hi: nat)
    requires forall i :: 0 <= i < |s| ==> lo <= s[i] <= hi
    ensures |s| * lo <= Sum(s) <= |s| * hi
  {
    if s != [] {
      SumBounds(s[1..], lo, hi);
      OneMoreTerm(|s[1..]|, lo);
      OneMoreTerm(|s[1..]|, hi);
    }
  }

  lemma {:induction false} MeanOfSamples(samples: seq<u64>, sorted: seq<u64>)
    requires samples != [] && sorted == Sort(samples) && Sum(sorted) <= U64_MAX
    ensures var s := FromSamples(samples).value;
      && |sorted| > 0 && s.count == |sorted| == |samples| && s.total == Sum(sorted)
        && s.mean == Mean(Sum(sorted), |sorted|)
      && s.min == sorted[0] && s.max == sorted[|sorted| - 1]
  {
    hide Sort, Sum, Percentile, Mean;
    SortSorts(samples);
  }

  /** While the total fits 64 bits it is the sum of the samples, the mean is its integer quotient by their number, and
      lies between the extremes. */
  lemma {:induction false} MeanInRange(samples: seq<u64>)
    requires samples != [] && Sum(samples) <= U64_MAX
    ensures var s := FromSamples(samples).value;
      && s.count == |samples| && s.total == Sum(samples)
      && s.mean * s.count <= s.total < (s.mean + 1) * s.count
      && s.min <= s.mean <= s.max
  {
    hide Sort, Sum, Mean, FromSamples;
    var sorted := Sort(samples);
    SortSorts(samples);
    SortSum(samples);
    MeanOfSamples(samples, sorted);
    SumBounds(sorted, sorted[0], sorted[|sorted| - 1]);
    MeanIs(Sum(sorted), |sorted|);
    MeanBetween(Sum(sorted), |sorted|, sorted[0], sorted[|sorted| - 1], Mean(Sum(sorted), |sorted|));
  }

  lemma {:induction false} MeanBetween(total: nat, n: nat, lo: nat, hi: nat, m: nat)
    requires n > 0 && n * lo <= total <= n * hi && m * n <= total < (m + 1) * n
    ensures lo <= m <= hi
  {
    if m < lo {
      MulAtMost(m + 1, lo, n);
    }
    if hi < m {
      MulAtMost(hi + 1, m, n);
    }
  }
}
