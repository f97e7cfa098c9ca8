/** What reading and writing shadow records keep. */
module ShadowLaws {
  import opened Arithmetic
  import opened Bytes
  import opened Results
  import opened Separated
  import opened ShadowSpec
  import Decimal

  // ----- segments -----

  lemma {:induction false} SplitAtEqIs(k: string, v: string)
    requires Lacks(k, '=')
    ensures SplitAtEq(k + "=" + v) == Some(Pair(k, v))
  {
    var s := k + "=" + v;
    if k == "" {
      assert s[1..] == v;
    } else {
      assert s[1..] == k[1..] + "=" + v;
      SplitAtEqIs(k[1..], v);
      assert [k[0]] + k[1..] == k;
    }
  }

  lemma {:induction false} SplitAtEqJoins(s: string)
    requires SplitAtEq(s).Some?
    ensures s == SplitAtEq(s).value.key + "=" + SplitAtEq(s).value.value
  {
    if s[0] == '=' {
      assert s == "" + "=" + s[1..];
    } else {
      SplitAtEqJoins(s[1..]);
      assert s == [s[0]] + s[1..];
    }
  }

  lemma {:induction false} NameIsKnown(fd: Field)
    ensures FieldOf(FieldName(fd)) == Some(fd) && FieldName(fd) != "" && Lacks(FieldName(fd), '=')
  {
  }

  lemma {:induction false} FieldOfName(key: string)
    requires FieldOf(key).Some?
    ensures FieldName(FieldOf(key).value) == key
  {
  }

  lemma {:induction false} SegmentKind(fd: Field, v: string)
    ensures KindOf(Segment(fd, v)) == Known(fd, v)
  {
    NameIsKnown(fd);
    SplitAtEqIs(FieldName(fd), v);
    hide FieldOf, FieldName, SplitAtEq;
  }

  /** A segment of a known field is its name, an equals sign and the value. */
  lemma {:induction false} KnownIsSegment(kv: string)
    requires KindOf(kv).Known?
    ensures kv == Segment(KindOf(kv).field, KindOf(kv).value)
  {
    SplitAtEqJoins(kv);
    FieldOfName(SplitAtEq(kv).value.key);
    hide FieldOf, FieldName, SplitAtEq;
  }

  /** Text with so many separators falls into one part more. */
  lemma {:induction false} CountSplit(s: string, c: char)
    ensures |Split(s, c)| == Count(s, c) + 1
  {
    if s != "" {
      CountSplit(s[1..], c);
    }
  }

  // ----- the fold, declaratively -----

  /** The values given for a field, in order. */
  function Values(kvs: seq<string>, fd: Field): seq<string> {
    if kvs == [] then []
    else
      var kind := KindOf(kvs[|kvs| - 1]);
      Values(kvs[..|kvs| - 1], fd) + if kind.Known? && kind.field == fd then [kind.value] else []
  }

  /** The segments no known field claims, in order. */
  function Unknowns(kvs: seq<string>): seq<string> {
    if kvs == [] then []
    else
      var last := kvs[|kvs| - 1];
      Unknowns(kvs[..|kvs| - 1]) + if KindOf(last).Unknown? then [last] else []
  }

  predicate Once(fd: Field, vs: seq<string>) {
    |vs| <= 1 && (|vs| == 1 ==> Readable(fd, vs[0]))
  }

  /** Every segment has a key, and no known field is repeated or unreadable. */
  predicate Consistent(kvs: seq<string>) {
    && (forall i :: 0 <= i < |kvs| ==> !KindOf(kvs[i]).Bad?)
    && forall fd :: Once(fd, Values(kvs, fd))
  }

  function RoleIn(vs: seq<string>): Option<Role> {
    if |vs| == 1 then RoleFromName(vs[0]) else None
  }

  function NumberIn(vs: seq<string>, max: nat): (r: Option<nat>)
    ensures r.Some? ==> r.value <= max
  {
    if |vs| == 1 then Decimal.Within(vs[0], max) else None
  }

  function SecretIn(vs: seq<string>): Option<Option<seq<byte>>> {
    if |vs| == 1 then Some(ReadSecret(vs[0])) else None
  }

  function FlagIn(vs: seq<string>): Option<bool> {
    if |vs| == 1 then Some(vs[0] == "true") else None
  }

  /** What the values say, field by field, without regard to order. */
  function Gathered(kvs: seq<string>): Fields {
    Fields(RoleIn(Values(kvs, RoleField)), NumberIn(Values(kvs, FlagsField), U32_MAX),
           NumberIn(Values(kvs, LastChangedField), U32_MAX), SecretIn(Values(kvs, TotpSecretField)),
           NumberIn(Values(kvs, LockoutField), U64_MAX), FlagIn(Values(kvs, TotpRequiredField)), Unknowns(kvs))
  }

  lemma {:induction false} GatheredHas(kvs: seq<string>, fd: Field)
    requires Once(fd, Values(kvs, fd))
    ensures Has(Gathered(kvs), fd) <==> |Values(kvs, fd)| == 1
  {
    hide Values, Unknowns, RoleFromName, Decimal.Within, ReadSecret;
  }

  lemma {:induction false} GatheredSet(kvs: seq<string>, init: seq<string>, fd: Field, v: string)
    requires Readable(fd, v) && Values(init, fd) == [] && Values(kvs, fd) == [v]
    requires forall g :: g != fd ==> Values(kvs, g) == Values(init, g)
    requires Unknowns(kvs) == Unknowns(init)
    ensures Gathered(kvs) == Set(Gathered(init), fd, v)
  {
    hide Values, Unknowns, Readable, RoleFromName, Decimal.Within, ReadSecret;
  }

  lemma {:induction false} GatheredTrailing(kvs: seq<string>, init: seq<string>, kv: string)
    requires forall g :: Values(kvs, g) == Values(init, g)
    requires Unknowns(kvs) == Unknowns(init) + [kv]
    ensures Gathered(kvs) == Gathered(init).(trailing := Unknowns(init) + [kv])
    ensures Gathered(init).trailing == Unknowns(init)
  {
    hide Values, Unknowns, Readable, RoleFromName, Decimal.Within, ReadSecret;
  }

  lemma {:induction false} ValuesSnoc(kvs: seq<string>, kv: string, fd: Field)
    ensures Values(kvs + [kv], fd)
         == Values(kvs, fd) + if KindOf(kv).Known? && KindOf(kv).field == fd then [KindOf(kv).value] else []
  {
    hide KindOf;
    assert (kvs + [kv])[..|kvs|] == kvs;
  }

  lemma {:induction false} UnknownsSnoc(kvs: seq<string>, kv: string)
    ensures Unknowns(kvs + [kv]) == Unknowns(kvs) + if KindOf(kv).Unknown? then [kv] else []
  {
    hide KindOf;
    assert (kvs + [kv])[..|kvs|] == kvs;
  }

  lemma {:induction false} FoldSnoc(kvs: seq<string>, kv: string)
    ensures Fold(kvs + [kv]) == (match Fold(kvs) case Err(e) => Err(e) case Ok(f) => Step(f, kv))
  {
    hide Step;
    assert (kvs + [kv])[..|kvs|] == kvs;
  }

  lemma {:induction false} ConsistentInit(kvs: seq<string>, kv: string)
    requires Consistent(kvs + [kv])
    ensures Consistent(kvs) && !KindOf(kv).Bad?
    ensures KindOf(kv).Known? ==> Values(kvs, KindOf(kv).field) == [] && Readable(KindOf(kv).field, KindOf(kv).value)
  {
    hide KindOf, Values, Readable;
    assert forall i :: 0 <= i < |kvs| ==> (kvs + [kv])[i] == kvs[i];
    assert (kvs + [kv])[|kvs|] == kv;
    forall fd ensures Once(fd, Values(kvs, fd)) {
      ValuesSnoc(kvs, kv, fd);
      assert Once(fd, Values(kvs + [kv], fd));
    }
    if KindOf(kv).Known? {
      ValuesSnoc(kvs, kv, KindOf(kv).field);
      assert Once(KindOf(kv).field, Values(kvs + [kv], KindOf(kv).field));
    }
  }

  lemma {:induction false} ConsistentSnoc(kvs: seq<string>, kv: string)
    requires Consistent(kvs) && !KindOf(kv).Bad?
    requires KindOf(kv).Known? ==> Values(kvs, KindOf(kv).field) == [] && Readable(KindOf(kv).field, KindOf(kv).value)
    ensures Consistent(kvs + [kv])
  {
    hide KindOf, Values, Readable;
    forall fd ensures Once(fd, Values(kvs + [kv], fd)) {
      ValuesSnoc(kvs, kv, fd);
      assert Once(fd, Values(kvs, fd));
    }
  }

  lemma {:induction false} GatherStep(kvs: seq<string>, kv: string)
    requires Consistent(kvs)
    ensures Step(Gathered(kvs), kv).Ok? <==> Consistent(kvs + [kv])
    ensures Consistent(kvs + [kv]) ==> Step(Gathered(kvs), kv) == Ok(Gathered(kvs + [kv]))
  {
    var kind := KindOf(kv);
    hide KindOf, Values, Readable, Unknowns, Gathered, Set, Has;
    forall g
      ensures Values(kvs + [kv], g) == Values(kvs, g) + if kind.Known? && kind.field == g then [kind.value] else []
    {
      ValuesSnoc(kvs, kv, g);
    }
    UnknownsSnoc(kvs, kv);
    if Consistent(kvs + [kv]) {
      ConsistentInit(kvs, kv);
    }
    if kind.Known? {
      assert Once(kind.field, Values(kvs, kind.field));
      GatheredHas(kvs, kind.field);
      if Values(kvs, kind.field) == [] && Readable(kind.field, kind.value) {
        ConsistentSnoc(kvs, kv);
        GatheredSet(kvs + [kv], kvs, kind.field, kind.value);
      }
    } else if kind.Unknown? {
      ConsistentSnoc(kvs, kv);
      GatheredTrailing(kvs + [kv], kvs, kv);
    }
  }

  /** Reading the segments in order succeeds exactly when they are consistent, and then says what their values say. */
  lemma {:induction false} FoldIsGathered(kvs: seq<string>)
    ensures Fold(kvs).Ok? <==> Consistent(kvs)
    ensures Consistent(kvs) ==> Fold(kvs) == Ok(Gathered(kvs))
  {
    if kvs == [] {
    } else {
      var init, kv := kvs[..|kvs| - 1], kvs[|kvs| - 1];
      assert kvs == init + [kv];
      FoldIsGathered(init);
      hide Step, Gathered, Consistent;
      if Consistent(init) {
        GatherStep(init, kv);
      } else if Consistent(kvs) {
        ConsistentInit(init, kv);
      }
    }
  }

  // ----- order does not matter -----

  lemma {:induction false} ValuesConcat(a: seq<string>, b: seq<string>, fd: Field)
    ensures Values(a + b, fd) == Values(a, fd) + Values(b, fd)
    decreases |b|
  {
    hide KindOf;
    if b == [] {
      assert a + b == a;
    } else {
      assert (a + b)[..|a + b| - 1] == a + b[..|b| - 1];
      ValuesConcat(a, b[..|b| - 1], fd);
    }
  }

  lemma {:induction false} TakeOut(init: seq<string>, x: string, p: seq<string>, q: seq<string>)
    requires multiset(init + [x]) == multiset(p + [x] + q)
    ensures multiset(init) == multiset(p + q)
  {
    assert multiset(init + [x]) == multiset(init) + multiset{x};
    assert multiset(p + [x] + q) == multiset(p + q) + multiset{x};
    assert multiset(init) == multiset(init) + multiset{x} - multiset{x};
    assert multiset(p + q) == multiset(p + q) + multiset{x} - multiset{x};
  }

  lemma {:induction false} ValuesPutBack(init: seq<string>, x: string, p: seq<string>, q: seq<string>, fd: Field)
    requires multiset(Values(init, fd)) == multiset(Values(p + q, fd))
    ensures multiset(Values(init + [x], fd)) == multiset(Values(p + [x] + q, fd))
  {
    hide Values;
    ValuesConcat(init, [x], fd);
    ValuesConcat(p + [x], q, fd);
    ValuesConcat(p, [x], fd);
    ValuesConcat(p, q, fd);
  }

  lemma {:induction false} ValuesPermute(a: seq<string>, b: seq<string>, fd: Field)
    requires multiset(a) == multiset(b)
    ensures multiset(Values(a, fd)) == multiset(Values(b, fd))
    decreases |a|
  {
    if a == [] {
      assert |b| == |multiset(b)| == |multiset(a)| == 0;
    } else {
      var x := a[|a| - 1];
      assert a == a[..|a| - 1] + [x];
      assert x in multiset(b);
      var j :| 0 <= j < |b| && b[j] == x;
      var p, q := b[..j], b[j + 1..];
      assert b == p + [x] + q;
      TakeOut(a[..|a| - 1], x, p, q);
      hide Values;
      ValuesPermute(a[..|a| - 1], p + q, fd);
      ValuesPutBack(a[..|a| - 1], x, p, q, fd);
    }
  }

  lemma {:induction false} SameSmallSeq(a: seq<string>, b: seq<string>)
    requires multiset(a) == multiset(b) && |a| <= 1
    ensures a == b
  {
    assert |multiset(a)| == |a| && |multiset(b)| == |b|;
    if |a| == 1 {
      assert a == [a[0]] && b == [b[0]];
      assert a[0] in multiset(b);
    }
  }

  /** Segments that read successfully read the same in any other order that keeps the unknown ones in sequence. */
  lemma {:induction false} OrderDoesNotMatter(a: seq<string>, b: seq<string>)
    requires multiset(a) == multiset(b) && Unknowns(a) == Unknowns(b)
    requires Fold(a).Ok?
    ensures Fold(b) == Fold(a)
  {
    FoldIsGathered(a);
    FoldIsGathered(b);
    hide KindOf, Values, Unknowns, Fold;
    forall fd ensures Values(a, fd) == Values(b, fd) {
      ValuesPermute(a, b, fd);
      assert Once(fd, Values(a, fd));
      SameSmallSeq(Values(a, fd), Values(b, fd));
    }
    assert Consistent(b) by {
      forall i | 0 <= i < |b| ensures !KindOf(b[i]).Bad? {
        assert b[i] in multiset(b);
        assert b[i] in a;
      }
    }
  }
}
