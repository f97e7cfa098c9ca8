/** The epoch-stamped LRU block cache, refining the recency list of `LruSpec`. */
module LruCache {
  import opened Arithmetic
  import opened Bytes
  import opened Results
  import opened LruSpec

  /** A cached block. A higher `epoch` is more recent. */
  datatype Entry = Entry(bytes: seq<byte>, epoch: u64)

  type Entries = map<Lba, Entry>

  ghost predicate Descending(e: Entries, s: seq<Lba>) {
    && (forall i :: 0 <= i < |s| ==> s[i] in e)
    && (forall i, j :: 0 <= i < j < |s| ==> e[s[i]].epoch > e[s[j]].epoch)
  }

  /** `order` lists the keys of `e` from the highest epoch to the lowest. */
  ghost predicate SortedBy(e: Entries, order: seq<Lba>) {
    Descending(e, order) && forall k :: k in e ==> k in order
  }

  /** Every epoch has been handed out already. */
  ghost predicate Stamped(e: Entries, next: u64) {
    forall k :: k in e ==> 1 <= e[k].epoch <= next
  }

  lemma {:induction false} SortedIsDistinct(e: Entries, order: seq<Lba>)
    requires SortedBy(e, order)
    ensures Distinct(order) && |order| == |e|
  {
    forall i, j | 0 <= i < j < |order| ensures order[i] != order[j] {
      assert e[order[i]].epoch > e[order[j]].epoch;
    }
    CountDistinct(order, e.Keys);
  }

  lemma {:induction false} CountDistinct(s: seq<Lba>, keys: set<Lba>)
    requires Distinct(s) && forall k :: k in s <==> k in keys
    ensures |s| == |keys|
  {
    if s == [] {
      assert keys == {};
    } else {
      assert s == [s[0]] + s[1..];
      CountDistinct(s[1..], keys - {s[0]});
    }
  }

  lemma {:induction false} RemoveMembers(s: seq<Lba>, k: Lba)
    ensures forall x :: x in Remove(s, k) <==> x in s && x != k
  {
    if s != [] {
      RemoveMembers(s[1..], k);
      assert s == [s[0]] + s[1..];
    }
  }

  lemma {:induction false} RemoveDescending(e: Entries, s: seq<Lba>, k: Lba)
    requires Descending(e, s)
    ensures Descending(e, Remove(s, k))
  {
    if s != [] {
      var rest, r := s[1..], Remove(s[1..], k);
      RemoveDescending(e, rest, k);
      RemoveMembers(rest, k);
      forall j | 0 <= j < |r| ensures e[s[0]].epoch > e[r[j]].epoch {
        assert r[j] in rest;
        var i :| 0 <= i < |rest| && rest[i] == r[j];
        assert s[i + 1] == r[j];
      }
    }
  }

  lemma {:induction false} DescendingElsewhere(e: Entries, s: seq<Lba>, k: Lba, entry: Entry)
    requires Descending(e, s) && k !in s
    ensures Descending(e[k := entry], s)
  {
    assert forall i :: 0 <= i < |s| ==> s[i] in s;
  }

  /** Stamping `k` with an epoch above all others makes it the most recent. */
  lemma {:induction false} StampNewest(e: Entries, order: seq<Lba>, k: Lba, entry: Entry)
    requires SortedBy(e, order) && forall x :: x in e ==> e[x].epoch < entry.epoch
    ensures SortedBy(e[k := entry], Touch(order, k))
  {
    RemoveDescending(e, order, k);
    RemoveMembers(order, k);
    DescendingElsewhere(e, Remove(order, k), k, entry);
    assert forall i :: 0 <= i < |Remove(order, k)| ==> Remove(order, k)[i] != k;
  }

  /** Stamping `k` with an epoch below all others makes it the least recent. */
  lemma {:induction false} StampOldest(e: Entries, order: seq<Lba>, k: Lba, entry: Entry)
    requires SortedBy(e, order) && forall x :: x in e ==> entry.epoch < e[x].epoch
    ensures SortedBy(e[k := entry], Remove(order, k) + [k])
  {
    RemoveDescending(e, order, k);
    RemoveMembers(order, k);
    DescendingElsewhere(e, Remove(order, k), k, entry);
    assert forall i :: 0 <= i < |Remove(order, k)| ==> Remove(order, k)[i] != k;
  }

  // ----- sorting the eviction snapshot -----

  type Stamp = (u64, Lba)

  predicate Ascending(s: seq<Stamp>) {
    forall i, j :: 0 <= i < j < |s| ==> s[i].0 <= s[j].0
  }

  /** One stamp a block. */
  predicate Single(s: seq<Stamp>) {
    forall i, j :: 0 <= i < j < |s| ==> s[i].1 != s[j].1
  }

  function Insert(x: Stamp, s: seq<Stamp>): (r: seq<Stamp>)
    ensures |r| == |s| + 1
  {
    if s == [] then [x]
    else if x.0 <= s[0].0 then [x] + s
    else [s[0]] + Insert(x, s[1..])
  }

  function SortByEpoch(s: seq<Stamp>): (r: seq<Stamp>)
    ensures |r| == |s|
  {
    if s == [] then [] else Insert(s[0], SortByEpoch(s[1..]))
  }

  lemma {:induction false} InsertMembers(x: Stamp, s: seq<Stamp>)
    ensures forall y :: y in Insert(x, s) <==> y == x || y in s
  {
    if s != [] {
      assert s == [s[0]] + s[1..];
      InsertMembers(x, s[1..]);
    }
  }

  lemma {:induction false} InsertAscending(x: Stamp, s: seq<Stamp>)
    requires Ascending(s)
    ensures Ascending(Insert(x, s))
  {
    if s != [] && x.0 > s[0].0 {
      var rest := Insert(x, s[1..]);
      InsertAscending(x, s[1..]);
      InsertMembers(x, s[1..]);
      forall j | 0 <= j < |rest| ensures s[0].0 <= rest[j].0 {
        assert rest[j] in rest;
      }
    }
  }

  lemma {:induction false} InsertSingle(x: Stamp, s: seq<Stamp>)
    requires Single(s) && forall i :: 0 <= i < |s| ==> s[i].1 != x.1
    ensures Single(Insert(x, s))
  {
    if s != [] && x.0 > s[0].0 {
      var rest := Insert(x, s[1..]);
      InsertSingle(x, s[1..]);
      InsertMembers(x, s[1..]);
      forall j | 0 <= j < |rest| ensures s[0].1 != rest[j].1 {
        assert rest[j] in rest;
      }
    }
  }

  /** Sorting leaves the same stamps, one a block, in ascending order. */
  lemma {:induction false} SortSorts(s: seq<Stamp>)
    requires Single(s)
    ensures Ascending(SortByEpoch(s)) && Single(SortByEpoch(s))
    ensures forall y :: y in SortByEpoch(s) <==> y in s
  {
    if s != [] {
      var rest := SortByEpoch(s[1..]);
      SortSorts(s[1..]);
      assert s == [s[0]] + s[1..];
      InsertMembers(s[0], rest);
      InsertAscending(s[0], rest);
      forall i | 0 <= i < |rest| ensures rest[i].1 != s[0].1 {
        assert rest[i] in s[1..];
      }
      InsertSingle(s[0], rest);
    }
  }

  /** `s` holds each key of `e` once, with its epoch, and nothing else. */
  ghost predicate Snapshots(e: Entries, s: seq<Stamp>) {
    Single(s) && |s| == |e| && forall y :: y in s <==> y.1 in e && e[y.1].epoch == y.0
  }

  // ----- which blocks stay -----

  /** Of the blocks of `e` those in `e'` are left: `n` of them, or all, and none that is gone has a higher epoch. */
  ghost predicate KeepsNewest(e: Entries, e': Entries, n: nat) {
    && (forall k :: k in e' ==> k in e && e'[k] == e[k])
    && |e'| == Min(|e|, n)
    && (forall k, gone :: k in e' && gone in e && gone !in e' ==> e[gone].epoch <= e[k].epoch)
  }

  /** The blocks of the stamps from `i` on. */
  ghost predicate Remain(e: Entries, s: seq<Stamp>, i: nat, e': Entries) {
    && i <= |s|
    && (forall k :: k in e' ==> k in e && e'[k] == e[k])
    && (forall j :: 0 <= j < |s| ==> (s[j].1 in e' <==> i <= j))
  }

  lemma {:induction false} RemainNewest(e: Entries, s: seq<Stamp>, i: nat, e': Entries)
    requires Snapshots(e, s) && Ascending(s) && Remain(e, s, i, e') && |e'| == |e| - i
    ensures KeepsNewest(e, e', |e| - i)
  {
    forall k, gone | k in e' && gone in e && gone !in e' ensures e[gone].epoch <= e[k].epoch {
      assert (e[k].epoch, k) in s && (e[gone].epoch, gone) in s;
      var a :| 0 <= a < |s| && s[a] == (e[k].epoch, k);
      var b :| 0 <= b < |s| && s[b] == (e[gone].epoch, gone);
      assert b < i <= a;
    }
  }

  lemma {:induction false} RemainStep(e: Entries, s: seq<Stamp>, i: nat, e': Entries)
    requires Snapshots(e, s) && Remain(e, s, i, e') && i < |s|
    ensures s[i].1 in e' && Remain(e, s, i + 1, e' - {s[i].1}) && |e' - {s[i].1}| == |e'| - 1
  {
    assert (e' - {s[i].1}).Keys == e'.Keys - {s[i].1};
  }

  lemma {:induction false} KeysOf(s: seq<Lba>) returns (keys: set<Lba>)
    requires Distinct(s)
    ensures |keys| == |s| && forall k :: k in keys <==> k in s
  {
    keys := set k | k in s;
    CountDistinct(s, keys);
  }

  lemma {:induction false} SubsetSize(a: set<Lba>, b: set<Lba>)
    requires a <= b
    ensures |a| <= |b| && (|a| == |b| ==> a == b)
  {
    assert b == a + (b - a);
  }

  /** Among the first of the list, the newest are all kept. */
  lemma {:induction false} NewestKept(e: Entries, order: seq<Lba>, e': Entries, n: nat, i: nat)
    requires SortedBy(e, order) && KeepsNewest(e, e', n) && i < |order| && i < n
    ensures order[i] in e'
  {
    assert |e'.Keys| == |e'|;
    SortedIsDistinct(e, order);
    if order[i] !in e' {
      var keys := KeysOf(order[..i]);
      forall k | k in e'.Keys ensures k in keys {
        assert k in order;
        var j :| 0 <= j < |order| && order[j] == k;
        assert j < i;
        assert order[..i][j] == k;
      }
      SubsetSize(e'.Keys, keys);
    }
  }

  lemma {:induction false} KeptKeys(e: Entries, order: seq<Lba>, e': Entries, n: nat)
    requires SortedBy(e, order) && KeepsNewest(e, e', n)
    ensures |order| == |e| && |Prefix(order, n)| == |e'|
    ensures forall k :: k in e' <==> k in Prefix(order, n)
  {
    SortedIsDistinct(e, order);
    var keep := Prefix(order, n);
    forall i | 0 <= i < |keep| ensures keep[i] in e' {
      NewestKept(e, order, e', n, i);
    }
    hide SortedBy;
    var keys := KeysOf(keep);
    SubsetSize(keys, e'.Keys);
    assert |e'.Keys| == |e'|;
    assert keys == e'.Keys;
  }

  /** Keeping the newest is cutting the recency list. */
  lemma {:induction false} NewestIsPrefix(e: Entries, order: seq<Lba>, e': Entries, n: nat)
    requires SortedBy(e, order) && KeepsNewest(e, e', n)
    ensures SortedBy(e', Prefix(order, n)) && |order| == |e| && |Prefix(order, n)| == |e'|
  {
    KeptKeys(e, order, e', n);
    var keep := Prefix(order, n);
    assert forall i :: 0 <= i < |keep| ==> keep[i] == order[i] && keep[i] in keep;
  }

  lemma {:induction false} StampAdvances(e: Entries, k: Lba, bytes: seq<byte>, next: u64)
    requires Stamped(e, next) && next < U64_MAX
    ensures Stamped(e[k := Entry(bytes, next + 1)], next + 1)
  {
  }

  lemma {:induction false} StampWraps(e: Entries, next: u64)
    requires Stamped(e, next)
    ensures forall x :: x in e ==> 0 < e[x].epoch
    ensures next < U64_MAX ==> forall x :: x in e ==> e[x].epoch < next + 1
  {
  }

  /** The recency list that a set of entries and counters stands for. */
  function View(e: Entries, order: seq<Lba>, hits: nat, misses: nat, evictions: nat): Cache {
    Cache(order, map k | k in e :: e[k].bytes, hits, misses, evictions)
  }

  lemma {:induction false} ViewGet(e: Entries, order: seq<Lba>, k: Lba, epoch: u64, h: nat, m: nat, v: nat, cap: nat,
                                   counted: bool)
    requires k in e
    ensures View(e[k := Entry(e[k].bytes, epoch)], Touch(order, k), h + 1, m, v)
            == Step(View(e, order, h, m, v), Get(k), cap, counted)
  {
  }

  lemma {:induction false} ViewPut(e: Entries, order: seq<Lba>, k: Lba, entry: Entry, h: nat, m: nat, v: nat,
                                   cap: nat, counted: bool)
    ensures Trim(View(e[k := entry], Touch(order, k), h, m, v), cap, counted)
            == Step(View(e, order, h, m, v), Put(k, entry.bytes), cap, counted)
  {
    assert View(e[k := entry], Touch(order, k), h, m, v).data == View(e, order, h, m, v).data[k := entry.bytes];
  }

  lemma {:induction false} ViewCut(e: Entries, order: seq<Lba>, e': Entries, cap: nat, h: nat, m: nat, v: nat,
                                   counted: bool)
    requires forall k :: k in e' ==> k in e && e'[k] == e[k]
    requires forall k :: k in e' <==> k in Prefix(order, cap)
    requires |order| == |e| && |Prefix(order, cap)| == |e'|
    ensures View(e', Prefix(order, cap), h, m, v + if counted then |e| - |e'| else 0)
            == Trim(View(e, order, h, m, v), cap, counted)
  {
    hide Prefix;
  }

  lemma {:induction false} ViewKept(e: Entries, order: seq<Lba>, e': Entries, cap: nat, h: nat, m: nat, v: nat,
                                    counted: bool)
    requires SortedBy(e, order) && KeepsNewest(e, e', cap)
    ensures View(e', Prefix(order, cap), h, m, v + if counted then |e| - |e'| else 0)
            == Trim(View(e, order, h, m, v), cap, counted)
  {
    hide SortedBy, Prefix, View, Trim;
    KeptKeys(e, order, e', cap);
    ViewCut(e, order, e', cap, h, m, v, counted);
  }

  function WrappingSucc(n: u64): u64 {
    (n + 1) % TWO_64
  }

  class LruCache {
    var entries: Entries
    const budget: u64
    const blockSize: nat
    var nextEpoch: u64
    var hits: nat
    var misses: nat
    var evictions: nat
    ghost var order: seq<Lba>

    ghost predicate Ordered()
      reads this
    {
      SortedBy(entries, order)
    }

    /** The state between calls, as long as the epoch counter has not wrapped around. */
    ghost predicate Valid()
      reads this
    {
      Ordered() && Stamped(entries, nextEpoch) && |order| <= Capacity(budget, blockSize)
    }

    /** The recency list this cache stands for. */
    ghost function Abs(): Cache
      reads this
    {
      View(entries, order, hits, misses, evictions)
    }

    /** What `op` makes of the recency list. */
    ghost function After(c: Cache, op: Op): Cache
    {
      Step(c, op, Capacity(budget, blockSize), blockSize != 0)
    }

    constructor (budget: u64, blockSize: nat)
      ensures Valid() && Abs() == EMPTY && this.budget == budget && this.blockSize == blockSize && nextEpoch == 0
    {
      this.budget, this.blockSize := budget, blockSize;
      entries, nextEpoch, hits, misses, evictions, order := map[], 0, 0, 0, 0, [];
    }

    /** A hit stamps the block with the next epoch; a miss only counts. As long as the epochs have not wrapped this
        promotes the block; at the wrap it becomes the least recent instead. */
    method Get(lba: Lba) returns (r: Option<seq<byte>>)
      modifies this
      ensures r == if lba in old(entries) then Some(old(entries)[lba].bytes) else None
      ensures entries == if r.Some? then old(entries)[lba := Entry(r.value, nextEpoch)] else old(entries)
      ensures nextEpoch == if r.Some? then WrappingSucc(old(nextEpoch)) else old(nextEpoch)
      ensures hits == old(hits) + (if r.Some? then 1 else 0) && misses == old(misses) + (if r.Some? then 0 else 1)
      ensures evictions == old(evictions)
      ensures old(Valid()) && (r.None? || old(nextEpoch) < U64_MAX) ==>
                Valid() && Abs() == After(old(Abs()), Op.Get(lba))
      ensures old(Valid()) && r.Some? && old(nextEpoch) == U64_MAX ==>
                Ordered() && order == Remove(old(order), lba) + [lba]
    {
      hide SortedBy, Stamped, Capacity;
      var newEpoch := WrappingSucc(nextEpoch);
      if lba in entries {
        var bytes := entries[lba].bytes;
        ViewGet(entries, order, lba, newEpoch, hits, misses, evictions, Capacity(budget, blockSize), blockSize != 0);
        Restamp(lba, bytes, newEpoch);
        nextEpoch := newEpoch;
        hits := hits + 1;
        return Some(bytes);
      }
      misses := misses + 1;
      return None;
    }

    /** Store `bytes` under `lba` with a new epoch. */
    method Restamp(lba: Lba, bytes: seq<byte>, newEpoch: u64)
      requires newEpoch == WrappingSucc(nextEpoch)
      modifies this`entries, this`order
      ensures entries == old(entries)[lba := Entry(bytes, newEpoch)]
      ensures old(Valid()) ==> Ordered()
      ensures old(Valid()) && nextEpoch < U64_MAX ==> order == Touch(old(order), lba) && Stamped(entries, newEpoch)
      ensures old(Valid()) && nextEpoch == U64_MAX ==> order == Remove(old(order), lba) + [lba]
      ensures old(Valid()) ==> |order| == if lba in old(entries) then old(|order|) else old(|order|) + 1
    {
      hide SortedBy, Stamped, Capacity;
      var entry := Entry(bytes, newEpoch);
      if Valid() {
        StampWraps(entries, nextEpoch);
        OrderHolds(entries, order, lba);
        if nextEpoch < U64_MAX {
          StampNewest(entries, order, lba, entry);
          StampAdvances(entries, lba, bytes, nextEpoch);
          order := Touch(order, lba);
        } else {
          StampOldest(entries, order, lba, entry);
          order := Remove(order, lba) + [lba];
        }
      }
      entries := entries[lba := entry];
    }

    /** A read-only probe. */
    method Peek(lba: Lba) returns (r: Option<seq<byte>>)
      ensures r == Lookup(Abs(), lba)
    {
      r := if lba in entries then Some(entries[lba].bytes) else None;
    }

    /** The block is stored with the next epoch, and as many blocks stay as fit, none older than one that went. As
        long as the epochs have not wrapped the stored block is the most recent one; at the wrap it is the least
        recent instead, and the first to go. */
    method Put(lba: Lba, data: seq<byte>)
      modifies this
      ensures nextEpoch == WrappingSucc(old(nextEpoch))
      ensures KeepsNewest(old(entries)[lba := Entry(data, nextEpoch)], entries, Capacity(budget, blockSize))
      ensures hits == old(hits) && misses == old(misses)
      ensures evictions == old(evictions) + if blockSize == 0 then 0
                                            else |old(entries)[lba := Entry(data, nextEpoch)]| - |entries|
      ensures old(Valid()) && old(nextEpoch) < U64_MAX ==> Valid() && Abs() == After(old(Abs()), Op.Put(lba, data))
      ensures old(Valid()) && old(nextEpoch) == U64_MAX ==>
                Ordered() && order == Prefix(Remove(old(order), lba) + [lba], Capacity(budget, blockSize))
    {
      hide SortedBy, Stamped, Capacity, Touch, Remove, KeepsNewest;
      var newEpoch := WrappingSucc(nextEpoch);
      ViewPut(entries, order, lba, Entry(data, newEpoch), hits, misses, evictions,
              Capacity(budget, blockSize), blockSize != 0);
      Restamp(lba, data, newEpoch);
      nextEpoch := newEpoch;
      ghost var e := entries;
      EvictToBudget();
      FewerStamps(e, entries, Capacity(budget, blockSize), nextEpoch);
    }

    /** Keep the most recent blocks that fit. */
    method EvictToBudget()
      modifies this`entries, this`evictions, this`order
      ensures KeepsNewest(old(entries), entries, Capacity(budget, blockSize))
      ensures evictions == old(evictions) + if blockSize == 0 then 0 else |old(entries)| - |entries|
      ensures old(Ordered()) ==> Ordered() && Abs() == Trim(old(Abs()), Capacity(budget, blockSize), blockSize != 0)
    {
      hide SortedBy, Snapshots, SortByEpoch, KeepsNewest;
      ghost var e, full, v := entries, order, evictions;
      if blockSize == 0 {
        entries := map[];
        KeepsNone(e);
      } else {
        var maxEntries := budget / blockSize;
        if |entries| <= maxEntries {
          KeepsAll(e, maxEntries);
        } else {
          var snapshot := Snapshot();
          SortSnapshot(entries, snapshot);
          snapshot := SortByEpoch(snapshot);
          DropFirst(snapshot, |entries| - maxEntries);
        }
      }
      if SortedBy(e, full) {
        NewestIsPrefix(e, full, entries, Capacity(budget, blockSize));
        order := Prefix(full, Capacity(budget, blockSize));
        ViewKept(e, full, entries, Capacity(budget, blockSize), hits, misses, v, blockSize != 0);
      }
    }

    /** Remove the blocks of the first `toDrop` stamps. */
    method DropFirst(snapshot: seq<Stamp>, toDrop: nat)
      requires Snapshots(entries, snapshot) && Ascending(snapshot) && toDrop <= |entries|
      modifies this`entries, this`evictions
      ensures KeepsNewest(old(entries), entries, |old(entries)| - toDrop)
      ensures |entries| == |old(entries)| - toDrop && evictions == old(evictions) + toDrop
    {
      ghost var e := entries;
      FirstRemain(e, snapshot);
      hide Snapshots, Remain, KeepsNewest;
      for i := 0 to toDrop
        invariant Remain(e, snapshot, i, entries) && |entries| == |e| - i && evictions == old(evictions) + i
      {
        RemainStep(e, snapshot, i, entries);
        var lba := snapshot[i].1;
        if lba in entries {
          entries := entries - {lba};
          evictions := evictions + 1;
        }
      }
      RemainNewest(e, snapshot, toDrop, entries);
    }

    /** One stamp for every entry. */
    method Snapshot() returns (s: seq<Stamp>)
      ensures Snapshots(entries, s)
    {
      s := [];
      var keys := entries.Keys;
      while keys != {}
        invariant keys <= entries.Keys && |s| + |keys| == |entries.Keys| && Single(s)
        invariant forall y :: y in s <==> y.1 in entries && y.1 !in keys && entries[y.1].epoch == y.0
        decreases keys
      {
        var k :| k in keys;
        assert forall i :: 0 <= i < |s| ==> s[i] in s;
        s := s + [(entries[k].epoch, k)];
        keys := keys - {k};
      }
    }

    /** Empty the cache and reset the counters. */
    method Clear()
      modifies this
      ensures Valid() && Abs() == EMPTY && nextEpoch == 0
    {
      entries, hits, misses, evictions, nextEpoch, order := map[], 0, 0, 0, 0, [];
    }

    /** One operation of a trace. */
    method Perform(op: Op)
      requires Valid() && nextEpoch < U64_MAX
      modifies this
      ensures Valid() && Abs() == After(old(Abs()), op) && nextEpoch <= old(nextEpoch) + 1
    {
      hide Valid, KeepsNewest, Capacity, Trim, Touch, View;
      match op
      case Get(lba) => var _ := Get(lba);
      case Put(lba, data) => Put(lba, data);
      case Clear => Clear();
    }
  }

  lemma {:induction false} KeepsNone(e: Entries)
    ensures KeepsNewest(e, map[], 0)
  {
  }

  lemma {:induction false} KeepsAll(e: Entries, n: nat)
    requires |e| <= n
    ensures KeepsNewest(e, e, n)
  {
  }

  lemma {:induction false} SortSnapshot(e: Entries, s: seq<Stamp>)
    requires Snapshots(e, s)
    ensures Snapshots(e, SortByEpoch(s)) && Ascending(SortByEpoch(s))
  {
    SortSorts(s);
  }

  lemma {:induction false} FirstRemain(e: Entries, s: seq<Stamp>)
    requires Snapshots(e, s)
    ensures Remain(e, s, 0, e) && |s| == |e|
  {
    forall j | 0 <= j < |s| ensures s[j].1 in e {
      assert s[j] in s;
    }
  }

  lemma {:induction false} OrderHolds(e: Entries, order: seq<Lba>, k: Lba)
    requires SortedBy(e, order)
    ensures |Remove(order, k)| == if k in e then |order| - 1 else |order|
  {
    SortedIsDistinct(e, order);
    RemoveProperties(order, k);
  }

  lemma {:induction false} FewerStamps(e: Entries, e': Entries, n: nat, next: u64)
    requires KeepsNewest(e, e', n)
    ensures Stamped(e, next) ==> Stamped(e', next)
  {
  }

  // ----- whole traces -----

  /** A new cache that has been through a trace, short enough for the epochs not to wrap, is its recency list. */
  method RunTrace(ops: seq<Op>, budget: u64, blockSize: nat) returns (c: LruCache)
    requires |ops| < TWO_64
    ensures fresh(c) && c.budget == budget && c.blockSize == blockSize
    ensures c.Valid() && c.Abs() == RunBytes(ops, budget, blockSize)
  {
    c := new LruCache(budget, blockSize);
    for i := 0 to |ops|
      invariant fresh(c) && c.budget == budget && c.blockSize == blockSize
      invariant c.Valid() && c.nextEpoch <= i && c.Abs() == RunBytes(ops[..i], budget, blockSize)
    {
      hide *;
      RunStep(ops, i, budget, blockSize);
      c.Perform(ops[i]);
      AfterIsStep(c, RunBytes(ops[..i], budget, blockSize), ops[i]);
    }
    assert ops[..|ops|] == ops;
  }

  lemma {:induction false} RunStep(ops: seq<Op>, i: nat, budget: nat, blockSize: nat)
    requires i < |ops|
    ensures RunBytes(ops[..i + 1], budget, blockSize)
            == Step(RunBytes(ops[..i], budget, blockSize), ops[i], Capacity(budget, blockSize), blockSize != 0)
  {
    hide Step, Capacity;
    assert ops[..i + 1][..i] == ops[..i];
  }

  lemma {:induction false} AfterIsStep(c: LruCache, view: Cache, op: Op)
    ensures c.After(view, op) == Step(view, op, Capacity(c.budget, c.blockSize), c.blockSize != 0)
  {
  }

  /** Two caches that have been through the same trace: the one with the larger budget holds every block the other
      holds, with the same bytes, has hit at least as often and missed at most as often. */
  method CompareBudgets(ops: seq<Op>, small: u64, large: u64, blockSize: nat) returns (a: LruCache, b: LruCache)
    requires |ops| < TWO_64 && small <= large
    ensures a.budget == small && b.budget == large && a.blockSize == b.blockSize == blockSize
    ensures a.Abs() == RunBytes(ops, small, blockSize) && b.Abs() == RunBytes(ops, large, blockSize)
    ensures forall k :: k in a.entries ==> k in b.entries && b.entries[k].bytes == a.entries[k].bytes
    ensures a.hits <= b.hits && b.misses <= a.misses
  {
    hide RunBytes;
    a := RunTrace(ops, small, blockSize);
    b := RunTrace(ops, large, blockSize);
    LargerBudgetIncludes(ops, small, large, blockSize);
    forall k | k in a.entries ensures k in b.entries && b.entries[k].bytes == a.entries[k].bytes {
      assert k in a.Abs().data;
    }
  }
}
