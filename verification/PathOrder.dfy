/** The order Python's `sorted` puts module paths in. */
module PathOrder {
  import opened Digraph

  /** Lexicographic order by code point. */
  predicate Le(a: Node, b: Node) {
    a == [] || (b != [] && (a[0] < b[0] || (a[0] == b[0] && Le(a[1..], b[1..]))))
  }

  lemma {:induction false} LeTotal(a: Node, b: Node)
    ensures Le(a, b) || Le(b, a)
    ensures Le(a, b) && Le(b, a) ==> a == b
    decreases |a|
  {
    if a != [] && b != [] && a[0] == b[0] {
      LeTotal(a[1..], b[1..]);
      assert a == [a[0]] + a[1..] && b == [b[0]] + b[1..];
    }
  }

  lemma {:induction false} LeTrans(a: Node, b: Node, c: Node)
    requires Le(a, b) && Le(b, c)
    ensures Le(a, c)
    decreases |a|
  {
    if a != [] && a[0] == b[0] == c[0] {
      LeTrans(a[1..], b[1..], c[1..]);
    }
  }

  predicate Ascending(c: seq<Node>) {
    forall i, j :: 0 <= i < j < |c| ==> Le(c[i], c[j])
  }

  ghost predicate Distinct(c: seq<Node>) {
    forall i, j :: 0 <= i < j < |c| ==> c[i] != c[j]
  }

  ghost predicate StrictlySorted(c: seq<Node>) {
    Ascending(c) && Distinct(c)
  }

  function Insert(x: Node, c: seq<Node>): seq<Node> {
    if c == [] then [x]
    else if Le(x, c[0]) then [x] + c
    else [c[0]] + Insert(x, c[1..])
  }

  function Sorted(c: seq<Node>): seq<Node> {
    if c == [] then [] else Insert(c[0], Sorted(c[1..]))
  }

  lemma {:induction false} InsertContents(x: Node, c: seq<Node>)
    ensures multiset(Insert(x, c)) == multiset{x} + multiset(c)
  {
    if c != [] && !Le(x, c[0]) {
      InsertContents(x, c[1..]);
      assert c == [c[0]] + c[1..];
    }
  }

  lemma {:induction false} InsertAscending(x: Node, c: seq<Node>)
    requires Ascending(c)
    ensures Ascending(Insert(x, c))
  {
    if c == [] {
    } else if Le(x, c[0]) {
      forall j | 0 <= j < |c| ensures Le(x, c[j]) {
        if j > 0 {
          LeTrans(x, c[0], c[j]);
        }
      }
    } else {
      LeTotal(x, c[0]);
      var rest := Insert(x, c[1..]);
      InsertAscending(x, c[1..]);
      InsertContents(x, c[1..]);
      forall j | 0 <= j < |rest| ensures Le(c[0], rest[j]) {
        assert rest[j] in multiset(rest);
        assert rest[j] == x || rest[j] in c[1..];
      }
    }
  }

  lemma {:induction false} SortedIsPermutation(c: seq<Node>)
    ensures multiset(Sorted(c)) == multiset(c) && Ascending(Sorted(c))
  {
    if c != [] {
      SortedIsPermutation(c[1..]);
      InsertContents(c[0], Sorted(c[1..]));
      InsertAscending(c[0], Sorted(c[1..]));
      assert c == [c[0]] + c[1..];
    }
  }

  lemma {:induction false} DistinctByCount(c: seq<Node>)
    ensures Distinct(c) <==> forall v :: multiset(c)[v] <= 1
  {
    if Distinct(c) {
      CountsOfDistinct(c);
    }
    if forall v :: multiset(c)[v] <= 1 {
      forall i, j | 0 <= i < j < |c| ensures c[i] != c[j] {
        assert c == c[..i] + [c[i]] + c[i + 1..j] + [c[j]] + c[j + 1..];
        assert multiset(c)[c[i]] <= 1;
      }
    }
  }

  lemma {:induction false} CountsOfDistinct(c: seq<Node>)
    requires Distinct(c)
    ensures forall v :: multiset(c)[v] <= 1
  {
    if c != [] {
      CountsOfDistinct(c[1..]);
      assert c == [c[0]] + c[1..];
      assert c[0] !in c[1..];
    }
  }

  /** Sorting distinct paths gives the same paths in strict order. */
  lemma {:induction false} SortedIsStrict(c: seq<Node>)
    requires Distinct(c)
    ensures StrictlySorted(Sorted(c)) && |Sorted(c)| == |c|
    ensures forall v :: v in Sorted(c) <==> v in c
  {
    SortedIsPermutation(c);
    DistinctByCount(c);
    DistinctByCount(Sorted(c));
    assert |multiset(Sorted(c))| == |multiset(c)|;
    forall v ensures v in Sorted(c) <==> v in c {
      assert v in multiset(c) <==> v in multiset(Sorted(c));
    }
  }
}
