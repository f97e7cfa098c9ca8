/** Text cut at a separator character. */
module Separated {
  predicate Lacks(s: string, c: char) {
    forall i :: 0 <= i < |s| ==> s[i] != c
  }

  predicate AllLack(parts: seq<string>, c: char) {
    forall i :: 0 <= i < |parts| ==> Lacks(parts[i], c)
  }

  /** The pieces between separators; there is always at least one. */
  function Split(s: string, c: char): (parts: seq<string>)
    ensures |parts| >= 1
  {
    if s == "" then [""]
    else
      var rest := Split(s[1..], c);
      if s[0] == c then [""] + rest else [[s[0]] + rest[0]] + rest[1..]
  }

  function Join(parts: seq<string>, c: char): string {
    if parts == [] then ""
    else if |parts| == 1 then parts[0]
    else parts[0] + [c] + Join(parts[1..], c)
  }

  lemma {:induction false} SplitLacks(s: string, c: char)
    ensures AllLack(Split(s, c), c)
  {
    if s != "" {
      SplitLacks(s[1..], c);
    }
  }

  lemma {:induction false} JoinSplit(s: string, c: char)
    ensures Join(Split(s, c), c) == s
  {
    if s != "" {
      var rest := Split(s[1..], c);
      JoinSplit(s[1..], c);
      if s[0] == c {
        assert ([""] + rest)[1..] == rest;
        assert "" + [c] + Join(rest, c) == s;
      } else {
        assert Split(s, c)[1..] == rest[1..];
        if |rest| == 1 {
          assert Join(Split(s, c), c) == [s[0]] + rest[0];
        } else {
          assert [s[0]] + rest[0] + [c] + Join(rest[1..], c) == [s[0]] + Join(rest, c);
        }
      }
    }
  }

  lemma {:induction false} SplitWhole(p: string, c: char)
    requires Lacks(p, c)
    ensures Split(p, c) == [p]
  {
    if p != "" {
      SplitWhole(p[1..], c);
      assert [p[0]] + p[1..] == p;
    }
  }

  lemma {:induction false} SplitFirst(p: string, c: char, rest: string)
    requires Lacks(p, c)
    ensures Split(p + [c] + rest, c) == [p] + Split(rest, c)
  {
    var s := p + [c] + rest;
    if p == "" {
      assert s[1..] == rest;
    } else {
      assert s[1..] == p[1..] + [c] + rest;
      SplitFirst(p[1..], c, rest);
      assert [p[0]] + p[1..] == p;
    }
  }

  lemma {:induction false} SplitJoin(parts: seq<string>, c: char)
    requires parts != [] && AllLack(parts, c)
    ensures Split(Join(parts, c), c) == parts
  {
    hide Split, Lacks;
    if |parts| == 1 {
      SplitWhole(parts[0], c);
    } else {
      SplitFirst(parts[0], c, Join(parts[1..], c));
      assert AllLack(parts[1..], c);
      SplitJoin(parts[1..], c);
      assert [parts[0]] + parts[1..] == parts;
    }
  }

  /** A text lacks a character exactly when all its pieces do. */
  lemma {:induction false} JoinLacks(parts: seq<string>, c: char, d: char)
    requires c != d
    ensures Lacks(Join(parts, c), d) <==> AllLack(parts, d)
  {
    if |parts| > 1 {
      JoinLacks(parts[1..], c, d);
      var rest := Join(parts[1..], c);
      LacksConcat(parts[0] + [c], rest, d);
      LacksConcat(parts[0], [c], d);
      assert AllLack(parts, d) <==> Lacks(parts[0], d) && AllLack(parts[1..], d) by {
        if Lacks(parts[0], d) && AllLack(parts[1..], d) {
          assert forall i :: 0 < i < |parts| ==> parts[i] == parts[1..][i - 1];
        }
        if AllLack(parts, d) {
          assert forall i :: 0 <= i < |parts[1..]| ==> parts[1..][i] == parts[i + 1];
        }
      }
    }
  }

  lemma {:induction false} LacksConcat(a: string, b: string, c: char)
    ensures Lacks(a + b, c) <==> Lacks(a, c) && Lacks(b, c)
  {
    if Lacks(a + b, c) {
      assert forall i :: 0 <= i < |a| ==> (a + b)[i] == a[i];
      assert forall i :: 0 <= i < |b| ==> (a + b)[|a| + i] == b[i];
    }
  }
}
