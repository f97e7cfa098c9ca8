/** What an LRU block cache is: a recency list of distinct LBAs cut to a capacity. */
module LruSpec {
  import opened Arithmetic
  import opened Bytes
  import opened Results

  type Lba = u64

  /** `order` lists the resident blocks, most recently used first. */
  datatype Cache = Cache(
    order: seq<Lba>,
    data: map<Lba, seq<byte>>,
    hits: nat,
    misses: nat,
    evictions: nat)

  datatype Op = Get(lba: Lba) | Put(lba: Lba, bytes: seq<byte>) | Clear

  const EMPTY := Cache([], map[], 0, 0, 0)

  ghost predicate Distinct(s: seq<Lba>) {
    forall i, j :: 0 <= i < j < |s| ==> s[i] != s[j]
  }

  ghost predicate WellFormed(c: Cache) {
    Distinct(c.order) && forall k :: k in c.order <==> k in c.data
  }

  function Remove(s: seq<Lba>, k: Lba): seq<Lba> {
    if s == [] then []
    else if s[0] == k then Remove(s[1..], k)
    else [s[0]] + Remove(s[1..], k)
  }

  function Touch(s: seq<Lba>, k: Lba): seq<Lba> {
    [k] + Remove(s, k)
  }

  function Prefix(s: seq<Lba>, n: nat): seq<Lba> {
    if |s| <= n then s else s[..n]
  }

  /** Keep the `cap` most recent blocks; `counted` says whether the dropped ones are tallied. */
  function Trim(c: Cache, cap: nat, counted: bool): Cache {
    var keep := Prefix(c.order, cap);
    c.(order := keep,
       data := map k | k in c.data && k in keep :: c.data[k],
       evictions := c.evictions + if counted then |c.order| - |keep| else 0)
  }

  function Step(c: Cache, op: Op, cap: nat, counted: bool): Cache {
    match op
    case Get(k) =>
      if k in c.data then c.(order := Touch(c.order, k), hits := c.hits + 1)
      else c.(misses := c.misses + 1)
    case Put(k, d) =>
      Trim(c.(order := Touch(c.order, k), data := c.data[k := d]), cap, counted)
    case Clear => EMPTY
  }

  /** What `Get` hands back. */
  function Lookup(c: Cache, k: Lba): Option<seq<byte>> {
    if k in c.data then Some(c.data[k]) else None
  }

  function Run(ops: seq<Op>, cap: nat, counted: bool): Cache {
    if ops == [] then EMPTY
    else Step(Run(ops[..|ops| - 1], cap, counted), ops[|ops| - 1], cap, counted)
  }

  // ----- recency lists -----

  lemma {:induction false} RemoveProperties(s: seq<Lba>, k: Lba)
    requires Distinct(s)
    ensures Distinct(Remove(s, k))
    ensures forall x :: x in Remove(s, k) <==> x in s && x != k
    ensures |Remove(s, k)| == if k in s then |s| - 1 else |s|
  {
    if s != [] {
      RemoveProperties(s[1..], k);
      assert s == [s[0]] + s[1..];
      assert s[0] !in s[1..];
    }
  }

  lemma {:induction false} RemoveAbsent(s: seq<Lba>, k: Lba)
    requires k !in s
    ensures Remove(s, k) == s
  {
    if s != [] {
      RemoveAbsent(s[1..], k);
    }
  }

  /** Every step keeps the list free of repeats, in step with the stored blocks, and within capacity. */
  lemma {:induction false} StepKeeps(c: Cache, op: Op, cap: nat, counted: bool)
    requires WellFormed(c) && |c.order| <= cap
    ensures var c' := Step(c, op, cap, counted); WellFormed(c') && |c'.order| <= cap
  {
    if op != Clear {
      RemoveProperties(c.order, op.lba);
    }
  }

  lemma {:induction false} RunKeeps(ops: seq<Op>, cap: nat, counted: bool)
    ensures var c := Run(ops, cap, counted); WellFormed(c) && |c.order| <= cap
  {
    if ops != [] {
      RunKeeps(ops[..|ops| - 1], cap, counted);
      StepKeeps(Run(ops[..|ops| - 1], cap, counted), ops[|ops| - 1], cap, counted);
    }
  }

  // ----- a bigger budget never hurts -----

  /** `s` is `b` with some elements left out. */
  ghost predicate Within(s: seq<Lba>, b: seq<Lba>) {
    s == [] || (b != [] && if s[0] == b[0] then Within(s[1..], b[1..]) else Within(s, b[1..]))
  }

  lemma {:induction false} WithinMembers(s: seq<Lba>, b: seq<Lba>)
    requires Within(s, b)
    ensures |s| <= |b| && forall k :: k in s ==> k in b
    decreases |b|
  {
    if s != [] {
      if s[0] == b[0] {
        WithinMembers(s[1..], b[1..]);
        assert s == [s[0]] + s[1..];
      } else {
        WithinMembers(s, b[1..]);
      }
    }
  }

  lemma {:induction false} WithinTail(s: seq<Lba>, b: seq<Lba>)
    requires s != [] && Within(s, b)
    ensures Within(s[1..], b)
    decreases |b|, 1
  {
    if s[0] == b[0] {
      WithinLonger(s[1..], b[1..], b);
    } else {
      WithinTail(s, b[1..]);
      WithinLonger(s[1..], b[1..], b);
    }
  }

  /** Prepending to the larger list. */
  lemma {:induction false} WithinLonger(s: seq<Lba>, rest: seq<Lba>, b: seq<Lba>)
    requires b != [] && rest == b[1..] && Within(s, rest)
    ensures Within(s, b)
    decreases |b|, 0
  {
    if s != [] && s[0] == b[0] {
      WithinTail(s, rest);
    }
  }

  lemma {:induction false} WithinRemove(s: seq<Lba>, b: seq<Lba>, k: Lba)
    requires Within(s, b)
    ensures Within(Remove(s, k), Remove(b, k))
    decreases |b|
  {
    if s != [] {
      if s[0] == b[0] {
        WithinRemove(s[1..], b[1..], k);
        if s[0] != k {
          assert Remove(s, k)[1..] == Remove(s[1..], k) && Remove(b, k)[1..] == Remove(b[1..], k);
        }
      } else {
        WithinRemove(s, b[1..], k);
        if b[0] != k {
          assert Remove(b, k)[1..] == Remove(b[1..], k);
          WithinLonger(Remove(s, k), Remove(b[1..], k), Remove(b, k));
        }
      }
    }
  }

  /** Dropping the last element of both. */
  lemma {:induction false} WithinDropLast(s: seq<Lba>, b: seq<Lba>)
    requires s != [] && Within(s, b)
    ensures b != [] && Within(s[..|s| - 1], b[..|b| - 1])
    decreases |b|
  {
    var s', b' := s[..|s| - 1], b[..|b| - 1];
    if s[0] == b[0] {
      if |s| > 1 {
        WithinDropLast(s[1..], b[1..]);
        assert s'[1..] == s[1..][..|s| - 2] && b'[1..] == b[1..][..|b| - 2];
      }
    } else {
      WithinDropLast(s, b[1..]);
      assert b'[1..] == b[1..][..|b| - 2];
      WithinLonger(s', b'[1..], b');
    }
  }

  /** How a cache with a smaller budget relates to one with a larger budget after the same operations:
      its recency list is the other's with some blocks left out, and the two are equal until it fills. */
  ghost predicate Included(c: Cache, d: Cache, cap: nat) {
    && Within(c.order, d.order)
    && (|c.order| < cap ==> c.order == d.order)
    && (forall k :: k in c.data && k in d.data ==> c.data[k] == d.data[k])
    && c.hits <= d.hits
    && c.hits + c.misses == d.hits + d.misses
  }

  lemma {:induction false} IncludedGet(c: Cache, d: Cache, k: Lba, m: nat, n: nat, counted: bool)
    requires WellFormed(c) && WellFormed(d) && Included(c, d, m)
    ensures Included(Step(c, Get(k), m, counted), Step(d, Get(k), n, counted), m)
  {
    WithinMembers(c.order, d.order);
    WithinRemove(c.order, d.order, k);
    RemoveProperties(c.order, k);
    if k in c.data {
      assert Touch(c.order, k)[1..] == Remove(c.order, k) && Touch(d.order, k)[1..] == Remove(d.order, k);
    } else if k in d.data {
      RemoveAbsent(c.order, k);
      WithinLonger(c.order, Remove(d.order, k), Touch(d.order, k));
    }
  }

  lemma {:induction false} IncludedPut(c: Cache, d: Cache, k: Lba, bytes: seq<byte>, m: nat, n: nat, counted: bool)
    requires WellFormed(c) && WellFormed(d) && Included(c, d, m)
    requires |c.order| <= m <= n && |d.order| <= n
    ensures Included(Step(c, Put(k, bytes), m, counted), Step(d, Put(k, bytes), n, counted), m)
  {
    var s, b := Touch(c.order, k), Touch(d.order, k);
    WithinMembers(c.order, d.order);
    WithinRemove(c.order, d.order, k);
    RemoveProperties(c.order, k);
    RemoveProperties(d.order, k);
    assert s[1..] == Remove(c.order, k) && b[1..] == Remove(d.order, k);
    assert Within(s, b);
    PrefixWithin(s, b, m, n);
  }

  lemma {:induction false} PrefixWithin(s: seq<Lba>, b: seq<Lba>, n: nat, m: nat)
    requires Within(s, b) && n <= m && |s| <= n + 1 && |b| <= m + 1
    requires |s| <= n && |b| > m ==> s == b
    ensures Within(Prefix(s, n), Prefix(b, m))
  {
    if |b| > m {
      if |s| > n {
        WithinDropLast(s, b);
      } else {
        WithinMembers(s, b);
      }
    } else if |s| > n {
      WithinInit(s, b);
    }
  }

  lemma {:induction false} WithinInit(s: seq<Lba>, b: seq<Lba>)
    requires s != [] && Within(s, b)
    ensures Within(s[..|s| - 1], b)
    decreases |b|
  {
    var s' := s[..|s| - 1];
    if s[0] == b[0] {
      if |s| > 1 {
        WithinInit(s[1..], b[1..]);
        assert s'[1..] == s[1..][..|s| - 2];
      }
    } else {
      WithinInit(s, b[1..]);
      WithinLonger(s', b[1..], b);
    }
  }

  lemma {:induction false} LargerCapacityIncludes(ops: seq<Op>, m: nat, n: nat, counted: bool)
    requires m <= n
    ensures Included(Run(ops, m, counted), Run(ops, n, counted), m)
  {
    if ops != [] {
      var rest := ops[..|ops| - 1];
      var c, d := Run(rest, m, counted), Run(rest, n, counted);
      LargerCapacityIncludes(rest, m, n, counted);
      RunKeeps(rest, m, counted);
      RunKeeps(rest, n, counted);
      match ops[|ops| - 1]
      case Get(k) => IncludedGet(c, d, k, m, n, counted);
      case Put(k, bytes) => IncludedPut(c, d, k, bytes, m, n, counted);
      case Clear =>
    }
  }

  // ----- a hit returns the latest bytes -----

  /** The bytes of the latest `Put` of `k` since the last `Clear`. */
  function LatestPut(ops: seq<Op>, k: Lba): Option<seq<byte>> {
    if ops == [] then None
    else match ops[|ops| - 1]
      case Put(lba, bytes) => if lba == k then Some(bytes) else LatestPut(ops[..|ops| - 1], k)
      case Get(_) => LatestPut(ops[..|ops| - 1], k)
      case Clear => None
  }

  lemma {:induction false} HitsAreLatest(ops: seq<Op>, cap: nat, counted: bool, k: Lba)
    requires k in Run(ops, cap, counted).data
    ensures Lookup(Run(ops, cap, counted), k) == LatestPut(ops, k)
  {
    if ops != [] {
      var before := Run(ops[..|ops| - 1], cap, counted);
      if k in before.data {
        HitsAreLatest(ops[..|ops| - 1], cap, counted, k);
      }
    }
  }

  // ----- conservation of blocks -----

  /** How many `Put`s since the last `Clear` brought in a block that was not resident. */
  function Admissions(ops: seq<Op>, cap: nat, counted: bool): nat {
    if ops == [] then 0
    else
      var rest := ops[..|ops| - 1];
      var n := Admissions(rest, cap, counted);
      match ops[|ops| - 1]
      case Put(k, _) => if k in Run(rest, cap, counted).data then n else n + 1
      case Get(_) => n
      case Clear => 0
  }

  lemma {:induction false} Conservation(ops: seq<Op>, cap: nat, counted: bool)
    requires counted
    ensures var c := Run(ops, cap, counted); c.evictions + |c.order| == Admissions(ops, cap, counted)
  {
    if ops != [] {
      var rest := ops[..|ops| - 1];
      Conservation(rest, cap, counted);
      RunKeeps(rest, cap, counted);
      if ops[|ops| - 1] != Clear {
        RemoveProperties(Run(rest, cap, counted).order, ops[|ops| - 1].lba);
      }
    }
  }

  /** How many `Get`s since the last `Clear` there were, and how many of them found their block resident. */
  function Gets(ops: seq<Op>, cap: nat, counted: bool, found: bool): nat {
    if ops == [] then 0
    else
      var rest := ops[..|ops| - 1];
      var n := Gets(rest, cap, counted, found);
      match ops[|ops| - 1]
      case Get(k) => if (k in Run(rest, cap, counted).data) == found then n + 1 else n
      case Put(_, _) => n
      case Clear => 0
  }

  /** The counters are the `Get`s that found their block and those that did not. */
  lemma {:induction false} CountersAreGets(ops: seq<Op>, cap: nat, counted: bool)
    ensures var c := Run(ops, cap, counted);
            c.hits == Gets(ops, cap, counted, true) && c.misses == Gets(ops, cap, counted, false)
  {
    if ops != [] {
      CountersAreGets(ops[..|ops| - 1], cap, counted);
    }
  }

  // ----- the order is the order of last use -----

  /** The `n`-th operation used block `k`: it stored it, or found it resident. */
  predicate Uses(ops: seq<Op>, n: nat, k: Lba, cap: nat, counted: bool)
    requires n < |ops|
  {
    match ops[n]
    case Put(lba, _) => lba == k
    case Get(lba) => lba == k && k in Run(ops[..n], cap, counted).data
    case Clear => false
  }

  /** One more than the number of the last operation that used `k`; 0 if none did. */
  function LastUse(ops: seq<Op>, k: Lba, cap: nat, counted: bool): (n: nat)
    ensures n <= |ops|
  {
    if ops == [] then 0
    else if Uses(ops, |ops| - 1, k, cap, counted) then |ops|
    else LastUse(ops[..|ops| - 1], k, cap, counted)
  }

  ghost predicate ByLastUse(s: seq<Lba>, ops: seq<Op>, cap: nat, counted: bool) {
    forall i, j :: 0 <= i < j < |s| ==> LastUse(ops, s[i], cap, counted) > LastUse(ops, s[j], cap, counted)
  }

  lemma {:induction false} RemoveKeepsOrder(s: seq<Lba>, k: Lba, ops: seq<Op>, cap: nat, counted: bool)
    requires ByLastUse(s, ops, cap, counted)
    ensures ByLastUse(Remove(s, k), ops, cap, counted)
    ensures forall x :: x in Remove(s, k) ==> x in s && x != k
  {
    if s != [] {
      RemoveKeepsOrder(s[1..], k, ops, cap, counted);
      assert s == [s[0]] + s[1..];
      var r := Remove(s[1..], k);
      forall j | 0 <= j < |r| ensures LastUse(ops, s[0], cap, counted) > LastUse(ops, r[j], cap, counted) {
        assert r[j] in r;
        var i :| 0 <= i < |s[1..]| && s[1..][i] == r[j];
        assert s[i + 1] == r[j];
      }
    }
  }

  lemma {:induction false} TouchKeepsOrder(s: seq<Lba>, k: Lba, ops: seq<Op>, cap: nat, counted: bool)
    requires ops != [] && Uses(ops, |ops| - 1, k, cap, counted)
    requires ByLastUse(s, ops[..|ops| - 1], cap, counted)
    ensures ByLastUse(Touch(s, k), ops, cap, counted)
  {
    var rest := ops[..|ops| - 1];
    var r := Remove(s, k);
    RemoveKeepsOrder(s, k, rest, cap, counted);
    forall j | 0 <= j < |r|
      ensures LastUse(ops, r[j], cap, counted) == LastUse(rest, r[j], cap, counted) < |ops|
    {
      assert r[j] in r;
    }
    forall i, j | 0 <= i < j < |Touch(s, k)|
      ensures LastUse(ops, Touch(s, k)[i], cap, counted) > LastUse(ops, Touch(s, k)[j], cap, counted)
    {
      assert Touch(s, k)[j] == r[j - 1];
      if i > 0 {
        assert Touch(s, k)[i] == r[i - 1];
      }
    }
  }

  /** After every trace the list is sorted by last use, so what is cut off is least recently used. */
  lemma {:induction false} OrderIsByLastUse(ops: seq<Op>, cap: nat, counted: bool)
    ensures ByLastUse(Run(ops, cap, counted).order, ops, cap, counted)
  {
    if ops != [] {
      var n := |ops| - 1;
      var rest := ops[..n];
      var before := Run(rest, cap, counted);
      OrderIsByLastUse(rest, cap, counted);
      match ops[n]
      case Put(k, _) => TouchKeepsOrder(before.order, k, ops, cap, counted);
      case Get(k) =>
        if k in before.data {
          TouchKeepsOrder(before.order, k, ops, cap, counted);
        } else {
          assert forall x :: !Uses(ops, n, x, cap, counted);
        }
      case Clear =>
    }
  }

  // ----- budgets in bytes -----

  /** How many blocks fit. A zero block size makes the cache hold nothing. */
  function Capacity(budget: nat, blockSize: nat): (n: nat)
    ensures if blockSize == 0 then n == 0 else n * blockSize <= budget < (n + 1) * blockSize
  {
    if blockSize == 0 then 0
    else
      Quotient(budget, blockSize);
      budget / blockSize
  }

  /** The cache of `budget` bytes after a trace. */
  function RunBytes(ops: seq<Op>, budget: nat, blockSize: nat): Cache {
    Run(ops, Capacity(budget, blockSize), blockSize != 0)
  }

  lemma {:induction false} CapacityMonotone(b1: nat, b2: nat, bs: nat)
    requires b1 <= b2
    ensures Capacity(b1, bs) <= Capacity(b2, bs)
  {
    hide Capacity;
    if bs != 0 {
      QuotientsOrdered(Capacity(b1, bs), Capacity(b2, bs), b1, b2, bs);
    }
  }

  lemma {:induction false} QuotientsOrdered(q1: nat, q2: nat, b1: nat, b2: nat, d: nat)
    requires q1 * d <= b1 <= b2 < (q2 + 1) * d
    ensures q1 <= q2
  {
    if q2 + 1 <= q1 {
      MulAtMost(q2 + 1, q1, d);
    }
  }

  /** For every trace and block size, the cache with the larger budget holds every block the smaller one
      holds, with the same bytes, and has hit at least as often and missed at most as often. */
  lemma {:induction false} LargerBudgetIncludes(ops: seq<Op>, b1: nat, b2: nat, bs: nat)
    requires b1 <= b2
    ensures var c, d := RunBytes(ops, b1, bs), RunBytes(ops, b2, bs);
            && (forall k :: k in c.data ==> k in d.data && d.data[k] == c.data[k])
            && c.hits <= d.hits && d.misses <= c.misses
  {
    CapacityMonotone(b1, b2, bs);
    hide Capacity;
    var m, n := Capacity(b1, bs), Capacity(b2, bs);
    LargerCapacityIncludes(ops, m, n, bs != 0);
    RunKeeps(ops, m, bs != 0);
    RunKeeps(ops, n, bs != 0);
    WithinMembers(Run(ops, m, bs != 0).order, Run(ops, n, bs != 0).order);
  }

  lemma {:induction false} NothingFits(ops: seq<Op>)
    ensures var c := Run(ops, 0, false); c.evictions == 0 && c.order == []
  {
    if ops != [] {
      NothingFits(ops[..|ops| - 1]);
      RunKeeps(ops[..|ops| - 1], 0, false);
    }
  }

  /** Evictions plus resident blocks equal the blocks admitted precisely when the block size is positive
      or nothing was admitted. */
  lemma {:induction false} ConservationIff(ops: seq<Op>, budget: nat, blockSize: nat)
    ensures var c := RunBytes(ops, budget, blockSize);
            var admitted := Admissions(ops, Capacity(budget, blockSize), blockSize != 0);
            c.evictions + |c.order| == admitted <==> blockSize != 0 || admitted == 0
  {
    if blockSize != 0 {
      Conservation(ops, Capacity(budget, blockSize), true);
    } else {
      NothingFits(ops);
    }
  }

  /** The block just stored survives its own eviction pass whenever anything fits; had it been ranked last,
      as happens at the wrap of the epoch counter, it would survive only if room was left over. */
  lemma {:induction false} StoredBlockSurvives(order: seq<Lba>, k: Lba, cap: nat)
    requires Distinct(order)
    ensures k in Prefix(Touch(order, k), cap) <==> cap > 0
    ensures k in Prefix(Remove(order, k) + [k], cap) <==> |Remove(order, k)| < cap
  {
    RemoveProperties(order, k);
    var r := Remove(order, k);
    if cap > 0 {
      assert Prefix(Touch(order, k), cap)[0] == k;
    }
    if |r| < cap {
      assert Prefix(r + [k], cap)[|r|] == k;
    } else {
      assert forall i :: 0 <= i < cap ==> (r + [k])[i] in r;
    }
  }
}
