/** The loop invariant of the iterative Tarjan traversal and the steps that keep it. */
module TarjanInvariant {
  import opened Arithmetic
  import opened Digraph

  /** A snapshot of the traversal. `open` lists the stack positions of the nodes whose iterators are
      still open, bottom first, and `pos[j]` counts the successors of `stack[j]` yielded so far. */
  datatype St = St(
    index: map<Node, nat>,
    low: map<Node, nat>,
    stack: seq<Node>,
    pos: seq<nat>,
    open: seq<nat>,
    counter: nat)
  {
    /** Position just above the stretch of the stack that belongs to the `i`-th open node. */
    function End(i: nat): nat {
      if i + 1 < |open| then open[i + 1] else |stack|
    }
  }

  ghost predicate Shape(g: Graph, s: St) {
    && |s.pos| == |s.stack|
    && (forall j :: 0 <= j < |s.stack| ==> s.stack[j] in s.index && s.stack[j] in s.low)
    && (forall j :: 0 <= j < |s.stack| ==> s.pos[j] <= |Succs(g, s.stack[j])|)
    && (forall i, j :: 0 <= i < j < |s.stack| ==> s.index[s.stack[i]] < s.index[s.stack[j]])
    && (forall v :: v in s.index ==> s.index[v] < s.counter)
    && (s.stack == [] <==> s.open == [])
    && (s.open != [] ==> s.open[0] == 0)
    && (forall i :: 0 <= i < |s.open| ==> s.open[i] < |s.stack|)
    && (forall i, j :: 0 <= i < j < |s.open| ==> s.open[i] < s.open[j])
  }

  /** Stack nodes without an open iterator are fully scanned; everything scanned is numbered. */
  ghost predicate Scanned(g: Graph, s: St)
    requires Shape(g, s)
  {
    && (forall j :: 0 <= j < |s.stack| && j !in s.open ==> s.pos[j] == |Succs(g, s.stack[j])|)
    && (forall j, k :: 0 <= j < |s.stack| && 0 <= k < s.pos[j] ==> Succs(g, s.stack[j])[k] in s.index)
  }

  ghost function Done(s: St): set<Node> {
    set v | v in s.index && v !in s.stack
  }

  /** Each stack node reaches every stack node above it. */
  ghost predicate Downward(g: Graph, s: St) {
    forall i, j :: 0 <= i <= j < |s.stack| ==> Reach(g, s.stack[i], s.stack[j])
  }

  /** The `i`-th open node is the closest one at or below stack position `j`. */
  ghost predicate Owns(g: Graph, s: St, i: nat, j: nat)
    requires Shape(g, s)
  {
    i < |s.open| && s.open[i] <= j < s.End(i)
  }

  /** Each stack node reaches the closest open node at or below it. */
  ghost predicate Upward(g: Graph, s: St)
    requires Shape(g, s)
  {
    forall i: nat, j: nat :: Owns(g, s, i, j) ==> Reach(g, s.stack[j], s.stack[s.open[i]])
  }

  function OpenLow(g: Graph, s: St, i: nat): nat
    requires Shape(g, s) && i < |s.open|
  {
    s.low[s.stack[s.open[i]]]
  }

  ghost predicate LowWitness(g: Graph, s: St, i: nat, m: nat)
    requires Shape(g, s) && i < |s.open|
  {
    && m <= s.open[i]
    && s.index[s.stack[m]] == OpenLow(g, s, i)
    && Reach(g, s.stack[s.open[i]], s.stack[m])
  }

  /** The lowlink of the `i`-th open node is the index of a stack node, not above it, that it reaches. */
  ghost predicate LowMeets(g: Graph, s: St, i: nat)
    requires Shape(g, s) && i < |s.open|
  {
    exists m :: LowWitness(g, s, i, m)
  }

  ghost predicate LowSound(g: Graph, s: St)
    requires Shape(g, s)
  {
    forall i: nat :: i < |s.open| ==> LowMeets(g, s, i)
  }

  /** The `k`-th successor of `stack[j]` has been yielded and is `stack[m]`. */
  ghost predicate StackEdge(g: Graph, s: St, j: nat, k: nat, m: nat)
    requires Shape(g, s)
  {
    j < |s.stack| && k < s.pos[j] && m < |s.stack| && Succs(g, s.stack[j])[k] == s.stack[m]
  }

  /** The lowlink of an open node bounds every scanned edge of its stretch that stays on the stack. */
  ghost predicate LowBounds(g: Graph, s: St)
    requires Shape(g, s)
  {
    forall i: nat, j: nat, k: nat, m: nat ::
      Owns(g, s, i, j) && StackEdge(g, s, j, k, m) ==> OpenLow(g, s, i) <= s.index[s.stack[m]]
  }

  ghost predicate Inv(g: Graph, s: St) {
    && Shape(g, s)
    && Scanned(g, s)
    && Closed(g, Done(s))
    && Downward(g, s)
    && Upward(g, s)
    && LowSound(g, s)
    && LowBounds(g, s)
  }

  // ----- the steps of the traversal -----

  /** Number `v` and open its iterator. */
  function Visit(s: St, v: Node): St {
    St(s.index[v := s.counter], s.low[v := s.counter],
       s.stack + [v], s.pos + [0], s.open + [|s.stack|], s.counter + 1)
  }

  /** Stack position of the innermost open node. */
  function TopAt(s: St): nat
    requires s.open != []
  {
    s.open[|s.open| - 1]
  }

  /** The iterator of the innermost open node yields one more successor. */
  function Yield(s: St): St
    requires s.open != [] && TopAt(s) < |s.pos|
  {
    s.(pos := s.pos[TopAt(s) := s.pos[TopAt(s)] + 1])
  }

  /** Look at a successor that is numbered already. */
  function SkipEdge(s: St, nxt: Node): St
    requires s.open != [] && TopAt(s) < |s.pos| && |s.pos| == |s.stack|
    requires s.stack[TopAt(s)] in s.low && nxt in s.index
  {
    var n := s.stack[TopAt(s)];
    var s' := Yield(s);
    if nxt in s.stack then s'.(low := s.low[n := Min(s.low[n], s.index[nxt])]) else s'
  }

  /** The innermost open node has `v` as its next successor. */
  ghost predicate NextIs(g: Graph, s: St, v: Node)
    requires Shape(g, s)
  {
    && s.open != []
    && s.pos[TopAt(s)] < |Succs(g, s.stack[TopAt(s)])|
    && v == Succs(g, s.stack[TopAt(s)])[s.pos[TopAt(s)]]
  }

  // ----- preservation: opening an iterator -----

  lemma {:induction false} RootShape(g: Graph, s: St, v: Node)
    requires Shape(g, s) && s.stack == [] && v !in s.index
    ensures Shape(g, Visit(s, v))
  {
    hide Succs;
    var s' := Visit(s, v);
    assert s'.open == [0] && s'.stack == [v] && s'.pos == [0];
  }

  lemma {:induction false} RootDone(s: St, v: Node)
    requires s.stack == [] && v !in s.index
    ensures Done(Visit(s, v)) == Done(s)
  {
    assert Visit(s, v).stack == [v];
  }

  lemma {:induction false} RootScanned(g: Graph, s: St)
    requires Shape(g, s) && |s.stack| == 1 && s.open == [0] && s.pos == [0]
    ensures Scanned(g, s)
  {
    hide Succs;
  }

  lemma {:induction false} RootReach(g: Graph, s: St, v: Node)
    requires s.stack == [v] && s.open == [0] && s.pos == [0] && Shape(g, s) && s.index[v] == s.low[v]
    ensures Downward(g, s) && Upward(g, s) && LowSound(g, s) && LowBounds(g, s)
  {
    ReachSelf(g, v);
    assert LowWitness(g, s, 0, 0);
  }

  lemma {:induction false} VisitRoot(g: Graph, s: St, v: Node)
    requires Shape(g, s) && Closed(g, Done(s)) && s.stack == [] && v !in s.index
    ensures Inv(g, Visit(s, v))
  {
    RootShape(g, s, v);
    RootDone(s, v);
    RootScanned(g, Visit(s, v));
    RootReach(g, Visit(s, v), v);
  }

  lemma {:induction false} VisitShape(g: Graph, s: St, v: Node)
    requires Shape(g, s) && v !in s.index && NextIs(g, s, v)
    ensures Shape(g, Visit(Yield(s), v))
  {
    hide Succs, Reach;
    assert |s.stack| > 0;
  }

  lemma {:induction false} VisitScanned(g: Graph, s: St, v: Node)
    requires Shape(g, s) && Scanned(g, s) && v !in s.index && NextIs(g, s, v)
    requires Shape(g, Visit(Yield(s), v))
    ensures Scanned(g, Visit(Yield(s), v))
  {
    hide Succs, Reach;
    var s' := Visit(Yield(s), v);
    assert forall j :: j in s'.open <==> j in s.open || j == |s.stack|;
    assert TopAt(s) in s.open;
  }

  lemma {:induction false} VisitDone(g: Graph, s: St, v: Node)
    requires Shape(g, s) && v !in s.index && s.open != []
    ensures Done(Visit(Yield(s), v)) == Done(s)
  {
  }

  lemma {:induction false} AllReachTop(g: Graph, s: St, j: nat)
    requires Shape(g, s) && Downward(g, s) && Upward(g, s) && s.open != [] && j < |s.stack|
    ensures Reach(g, s.stack[j], s.stack[TopAt(s)])
  {
    var k := |s.open| - 1;
    if j <= s.open[k] {
    } else {
      assert Owns(g, s, k, j);
    }
  }

  lemma {:induction false} VisitReach(g: Graph, s: St, v: Node)
    requires Shape(g, s) && Downward(g, s) && Upward(g, s) && v !in s.index && NextIs(g, s, v)
    requires Shape(g, Visit(Yield(s), v))
    ensures var s' := Visit(Yield(s), v); Downward(g, s') && Upward(g, s')
  {
    var n := s.stack[TopAt(s)];
    var s' := Visit(Yield(s), v);
    ReachSelf(g, v);
    forall i, j | 0 <= i <= j < |s'.stack|
      ensures Reach(g, s'.stack[i], s'.stack[j])
    {
      if j == |s.stack| && i < |s.stack| {
        AllReachTop(g, s, i);
        ReachStep(g, s.stack[i], n, v);
      }
    }
    forall i: nat, j: nat | Owns(g, s', i, j)
      ensures Reach(g, s'.stack[j], s'.stack[s'.open[i]])
    {
      if i < |s.open| {
        assert Owns(g, s, i, j);
      }
    }
  }

  lemma {:induction false} VisitLowSound(g: Graph, s: St, v: Node)
    requires Shape(g, s) && LowSound(g, s) && v !in s.index && s.open != []
    requires Shape(g, Visit(Yield(s), v))
    ensures LowSound(g, Visit(Yield(s), v))
  {
    var s' := Visit(Yield(s), v);
    forall i: nat | i < |s'.open|
      ensures LowMeets(g, s', i)
    {
      if i < |s.open| {
        assert LowMeets(g, s, i);
        var m :| LowWitness(g, s, i, m);
        assert LowWitness(g, s', i, m);
      } else {
        ReachSelf(g, v);
        assert LowWitness(g, s', i, |s.stack|);
      }
    }
  }

  lemma {:induction false} LowBelowCounter(g: Graph, s: St, i: nat)
    requires Shape(g, s) && LowSound(g, s) && i < |s.open|
    ensures OpenLow(g, s, i) <= s.index[s.stack[s.open[i]]] < s.counter
  {
    assert LowMeets(g, s, i);
    var m :| LowWitness(g, s, i, m);
  }

  lemma {:induction false} VisitLowBounds(g: Graph, s: St, v: Node)
    requires Shape(g, s) && LowSound(g, s) && LowBounds(g, s) && v !in s.index && NextIs(g, s, v)
    requires Shape(g, Visit(Yield(s), v))
    ensures LowBounds(g, Visit(Yield(s), v))
  {
    var s' := Visit(Yield(s), v);
    forall i: nat, j: nat, k: nat, m: nat | Owns(g, s', i, j) && StackEdge(g, s', j, k, m)
      ensures OpenLow(g, s', i) <= s'.index[s'.stack[m]]
    {
      if i < |s.open| {
        LowBelowCounter(g, s, i);
        assert Owns(g, s, i, j);
        if m < |s.stack| {
          assert !(j == TopAt(s) && k == s.pos[TopAt(s)]);
          assert StackEdge(g, s, j, k, m);
        }
      }
    }
  }

  /** Opening the iterator of an unnumbered successor keeps the invariant. */
  lemma {:induction false} VisitChild(g: Graph, s: St, v: Node)
    requires Inv(g, s) && v !in s.index && NextIs(g, s, v)
    ensures Inv(g, Visit(Yield(s), v))
  {
    VisitShape(g, s, v);
    VisitScanned(g, s, v);
    VisitDone(g, s, v);
    VisitReach(g, s, v);
    VisitLowSound(g, s, v);
    VisitLowBounds(g, s, v);
  }

  // ----- preservation: scanning an edge to a numbered node -----

  lemma {:induction false} SkipShape(g: Graph, s: St, v: Node)
    requires Shape(g, s) && v in s.index && NextIs(g, s, v)
    ensures Shape(g, SkipEdge(s, v)) && Done(SkipEdge(s, v)) == Done(s)
  {
  }

  lemma {:induction false} SkipScanned(g: Graph, s: St, v: Node)
    requires Shape(g, s) && Scanned(g, s) && v in s.index && NextIs(g, s, v)
    requires Shape(g, SkipEdge(s, v))
    ensures Scanned(g, SkipEdge(s, v))
  {
    assert TopAt(s) in s.open;
  }

  lemma {:induction false} SkipReach(g: Graph, s: St, v: Node)
    requires Shape(g, s) && Downward(g, s) && Upward(g, s) && v in s.index && NextIs(g, s, v)
    requires Shape(g, SkipEdge(s, v))
    ensures Downward(g, SkipEdge(s, v)) && Upward(g, SkipEdge(s, v))
  {
    var s' := SkipEdge(s, v);
    assert s'.stack == s.stack && s'.open == s.open;
    forall i: nat, j: nat | Owns(g, s', i, j)
      ensures Reach(g, s'.stack[j], s'.stack[s'.open[i]])
    {
      assert Owns(g, s, i, j);
    }
  }

  lemma {:induction false} SkipLowSound(g: Graph, s: St, v: Node)
    requires Shape(g, s) && LowSound(g, s) && v in s.index && NextIs(g, s, v)
    requires Shape(g, SkipEdge(s, v))
    ensures LowSound(g, SkipEdge(s, v))
  {
    hide Succs, Reach;
    var s' := SkipEdge(s, v);
    var top := |s.open| - 1;
    var n := s.stack[s.open[top]];
    forall i: nat | i < |s'.open|
      ensures LowMeets(g, s', i)
    {
      assert LowMeets(g, s, i);
      var m :| LowWitness(g, s, i, m);
      if i < top {
        assert s.stack[s.open[i]] != n;
        assert LowWitness(g, s', i, m);
      } else if s'.low[n] == s.low[n] {
        assert LowWitness(g, s', i, m);
      } else {
        var q :| 0 <= q < |s.stack| && s.stack[q] == v;
        ReachEdge(g, n, v);
        assert s.index[s.stack[q]] < s.low[n] <= s.index[n];
        assert q <= s.open[top];
        assert LowWitness(g, s', i, q);
      }
    }
  }

  lemma {:induction false} SkipLowBounds(g: Graph, s: St, v: Node)
    requires Shape(g, s) && LowBounds(g, s) && v in s.index && NextIs(g, s, v)
    requires Shape(g, SkipEdge(s, v))
    ensures LowBounds(g, SkipEdge(s, v))
  {
    hide Succs, Reach;
    var s' := SkipEdge(s, v);
    var t := TopAt(s);
    forall i: nat, j: nat, k: nat, m: nat | Owns(g, s', i, j) && StackEdge(g, s', j, k, m)
      ensures OpenLow(g, s', i) <= s'.index[s'.stack[m]]
    {
      assert Owns(g, s, i, j);
      assert OpenLow(g, s', i) <= OpenLow(g, s, i);
      if j == t && k == s.pos[t] {
        assert s.stack[m] == v;
        assert i == |s.open| - 1;
      } else {
        assert k < s.pos[j];
        assert StackEdge(g, s, j, k, m);
      }
    }
  }

  lemma {:induction false} SkipKeeps(g: Graph, s: St, v: Node)
    requires Inv(g, s) && v in s.index && NextIs(g, s, v)
    ensures Inv(g, SkipEdge(s, v))
  {
    SkipShape(g, s, v);
    SkipScanned(g, s, v);
    SkipReach(g, s, v);
    SkipLowSound(g, s, v);
    SkipLowBounds(g, s, v);
  }

  // ----- preservation: closing an iterator -----

  /** The innermost iterator is exhausted. */
  ghost predicate Exhausted(g: Graph, s: St)
    requires Shape(g, s)
  {
    s.open != [] && s.pos[TopAt(s)] == |Succs(g, s.stack[TopAt(s)])|
  }

  /** Close the innermost iterator and hand its lowlink to the node that opened it. */
  function Close(s: St): St
    requires s.open != [] && forall i :: 0 <= i < |s.open| ==> s.open[i] < |s.stack| && s.stack[s.open[i]] in s.low
  {
    var rest := s.open[..|s.open| - 1];
    if rest == [] then s.(open := rest)
    else
      var p := s.stack[rest[|rest| - 1]];
      s.(open := rest, low := s.low[p := Min(s.low[p], s.low[s.stack[TopAt(s)]])])
  }

  /** Drop the stack from position `p` upwards. */
  function Cut(s: St, p: nat): St
    requires p <= |s.stack| && |s.pos| == |s.stack|
  {
    s.(stack := s.stack[..p], pos := s.pos[..p])
  }

  /** The stretch of the stack that contains position `m`. */
  lemma {:induction false} FindStretch(g: Graph, s: St, m: nat) returns (i: nat)
    requires Shape(g, s) && m < |s.stack|
    ensures Owns(g, s, i, m)
  {
    i := 0;
    while i + 1 < |s.open| && s.open[i + 1] <= m
      invariant i < |s.open| && s.open[i] <= m
    {
      i := i + 1;
    }
  }

  /** When the lowlink stays below the index, an enclosing iterator is still open and everything from
      the closing node upwards reaches the node that owns it. */
  lemma {:induction false} CloseReach(g: Graph, s: St, j: nat)
    requires Shape(g, s) && Downward(g, s) && Upward(g, s) && LowSound(g, s) && s.open != []
    requires OpenLow(g, s, |s.open| - 1) != s.index[s.stack[TopAt(s)]]
    requires TopAt(s) <= j < |s.stack|
    ensures |s.open| > 1 && Reach(g, s.stack[j], s.stack[s.open[|s.open| - 2]])
  {
    hide Succs, Reach;
    var top := |s.open| - 1;
    var t := s.open[top];
    assert LowMeets(g, s, top);
    var m: nat :| LowWitness(g, s, top, m);
    assert m < t;
    var i := FindStretch(g, s, m);
    assert s.open[i] <= m < t;
    assert i < top;
    var q := s.open[top - 1];
    assert Reach(g, s.stack[s.open[i]], s.stack[q]);
    assert Owns(g, s, top, j);
    ReachTrans(g, s.stack[j], s.stack[t], s.stack[m]);
    ReachTrans(g, s.stack[j], s.stack[m], s.stack[s.open[i]]);
    ReachTrans(g, s.stack[j], s.stack[s.open[i]], s.stack[q]);
  }

  lemma {:induction false} CloseShape(g: Graph, s: St)
    requires Shape(g, s) && |s.open| > 1
    ensures Shape(g, Close(s)) && Done(Close(s)) == Done(s)
  {
    hide Succs, Reach;
  }

  lemma {:induction false} CloseScanned(g: Graph, s: St)
    requires Shape(g, s) && Scanned(g, s) && Exhausted(g, s) && |s.open| > 1
    requires Shape(g, Close(s))
    ensures Scanned(g, Close(s))
  {
    hide Succs, Reach;
    var s' := Close(s);
    assert forall j :: j in s.open ==> j in s'.open || j == TopAt(s);
  }

  lemma {:induction false} CloseUpward(g: Graph, s: St)
    requires Shape(g, s) && Downward(g, s) && Upward(g, s) && LowSound(g, s) && s.open != []
    requires OpenLow(g, s, |s.open| - 1) != s.index[s.stack[TopAt(s)]]
    requires Shape(g, Close(s))
    ensures Upward(g, Close(s))
  {
    hide Succs, Reach;
    var s' := Close(s);
    forall i: nat, j: nat | Owns(g, s', i, j)
      ensures Reach(g, s'.stack[j], s'.stack[s'.open[i]])
    {
      if j < TopAt(s) {
        assert Owns(g, s, i, j);
      } else {
        CloseReach(g, s, j);
        assert i == |s'.open| - 1;
      }
    }
  }

  lemma {:induction false} CloseLowSound(g: Graph, s: St)
    requires Shape(g, s) && Downward(g, s) && LowSound(g, s) && |s.open| > 1
    requires Shape(g, Close(s))
    ensures LowSound(g, Close(s))
  {
    var s' := Close(s);
    var last := |s.open| - 2;
    forall i: nat | i < |s'.open|
      ensures LowMeets(g, s', i)
    {
      assert LowMeets(g, s, i);
      var m: nat :| LowWitness(g, s, i, m);
      if OpenLow(g, s', i) == OpenLow(g, s, i) {
        assert LowWitness(g, s', i, m);
      } else {
        assert i == last;
        CloseLowest(g, s);
      }
    }
  }

  lemma {:induction false} CloseLowest(g: Graph, s: St)
    requires Shape(g, s) && Downward(g, s) && LowSound(g, s) && |s.open| > 1
    requires Shape(g, Close(s)) && OpenLow(g, Close(s), |s.open| - 2) < OpenLow(g, s, |s.open| - 2)
    ensures LowMeets(g, Close(s), |s.open| - 2)
  {
    var last := |s.open| - 2;
    var p := s.open[last];
    var n := s.open[last + 1];
    LowBelowCounter(g, s, last);
    assert LowMeets(g, s, last + 1);
    var q: nat :| LowWitness(g, s, last + 1, q);
    assert Reach(g, s.stack[p], s.stack[n]);
    ReachTrans(g, s.stack[p], s.stack[n], s.stack[q]);
    assert q <= p;
    assert LowWitness(g, Close(s), last, q);
  }

  lemma {:induction false} CloseLowBounds(g: Graph, s: St)
    requires Shape(g, s) && LowBounds(g, s) && |s.open| > 1
    requires Shape(g, Close(s))
    ensures LowBounds(g, Close(s))
  {
    var s' := Close(s);
    var top := |s.open| - 1;
    forall i: nat, j: nat, k: nat, m: nat | Owns(g, s', i, j) && StackEdge(g, s', j, k, m)
      ensures OpenLow(g, s', i) <= s'.index[s'.stack[m]]
    {
      assert OpenLow(g, s', i) <= OpenLow(g, s, i);
      assert StackEdge(g, s, j, k, m);
      if j < TopAt(s) {
        assert Owns(g, s, i, j);
      } else {
        assert i == top - 1;
        assert OpenLow(g, s', i) <= OpenLow(g, s, top);
        assert Owns(g, s, top, j);
      }
    }
  }

  /** Closing a node whose lowlink is below its index: it stays on the stack. */
  lemma {:induction false} CloseKeeps(g: Graph, s: St)
    requires Inv(g, s) && Exhausted(g, s)
    requires OpenLow(g, s, |s.open| - 1) != s.index[s.stack[TopAt(s)]]
    ensures |s.open| > 1 && Inv(g, Close(s))
  {
    CloseReach(g, s, TopAt(s));
    CloseShape(g, s);
    CloseScanned(g, s);
    CloseUpward(g, s);
    CloseLowSound(g, s);
    CloseLowBounds(g, s);
  }

  // ----- preservation: popping a component -----

  /** The innermost iterator is exhausted and its node is the root of a component. */
  ghost predicate RootFound(g: Graph, s: St)
    requires Shape(g, s)
  {
    Exhausted(g, s) && OpenLow(g, s, |s.open| - 1) == s.index[s.stack[TopAt(s)]]
  }

  function Component(s: St): seq<Node>
    requires s.open != [] && TopAt(s) <= |s.stack|
  {
    s.stack[TopAt(s)..]
  }

  function Pop(s: St): St
    requires s.open != [] && |s.pos| == |s.stack|
    requires forall i :: 0 <= i < |s.open| ==> s.open[i] < |s.stack| && s.stack[s.open[i]] in s.low
  {
    Cut(Close(s), TopAt(s))
  }

  lemma {:induction false} PopDone(g: Graph, s: St)
    requires Shape(g, s) && s.open != []
    ensures Done(Pop(s)) == Done(s) + (set v | v in Component(s))
  {
    var t := TopAt(s);
    forall v
      ensures v in Done(Pop(s)) <==> v in Done(s) || v in Component(s)
    {
      StackSplit(s.stack, t, v);
      if v in s.stack[t..] {
        ComponentAbove(g, s, v);
      }
    }
  }

  lemma {:induction false} StackSplit(stack: seq<Node>, t: nat, v: Node)
    requires t <= |stack|
    ensures v in stack <==> v in stack[..t] || v in stack[t..]
  {
    assert stack == stack[..t] + stack[t..];
  }

  lemma {:induction false} ComponentAbove(g: Graph, s: St, v: Node)
    requires Shape(g, s) && s.open != [] && v in Component(s)
    ensures v in s.index && v !in s.stack[..TopAt(s)]
  {
    var q :| TopAt(s) <= q < |s.stack| && s.stack[q] == v;
    forall r | 0 <= r < TopAt(s) ensures s.stack[r] != v {
      assert s.index[s.stack[r]] < s.index[s.stack[q]];
    }
  }

  /** No edge leaves a component for a lower place on the stack. */
  lemma {:induction false} PopEdge(g: Graph, s: St, u: Node, v: Node)
    requires Shape(g, s) && Scanned(g, s) && LowBounds(g, s) && RootFound(g, s)
    requires u in Component(s) && v in Succs(g, u)
    ensures v in Done(s) || v in Component(s)
  {
    var t := TopAt(s);
    var top := |s.open| - 1;
    var j :| t <= j < |s.stack| && s.stack[j] == u;
    assert forall i :: 0 <= i < |s.open| ==> s.open[i] <= t;
    var k :| 0 <= k < |Succs(g, u)| && Succs(g, u)[k] == v;
    assert k < s.pos[j];
    if v in s.stack {
      var m :| 0 <= m < |s.stack| && s.stack[m] == v;
      assert Owns(g, s, top, j);
      assert StackEdge(g, s, j, k, m);
      assert m >= t;
    }
  }

  lemma {:induction false} PopClosed(g: Graph, s: St)
    requires Shape(g, s) && Scanned(g, s) && LowBounds(g, s) && RootFound(g, s) && Closed(g, Done(s))
    ensures Closed(g, Done(Pop(s)))
  {
    PopDone(g, s);
    forall u, v | u in Done(Pop(s)) && v in Succs(g, u)
      ensures v in Done(Pop(s))
    {
      if u in Component(s) {
        PopEdge(g, s, u, v);
      }
    }
  }

  /** What is popped is exactly one strongly connected component. */
  lemma {:induction false} PopIsScc(g: Graph, s: St)
    requires Inv(g, s) && RootFound(g, s)
    ensures IsScc(g, Component(s))
  {
    PopDone(g, s);
    PopClosed(g, s);
    forall u, v | u in Component(s)
      ensures v in Component(s) <==> Mutual(g, u, v)
    {
      if v in Component(s) {
        ComponentMutual(g, s, u, v);
      }
      if Mutual(g, u, v) {
        ClosedKeepsReach(g, Done(Pop(s)), u, v);
        if v in Done(s) {
          ClosedKeepsReach(g, Done(s), v, u);
        }
      }
    }
  }

  lemma {:induction false} ComponentMutual(g: Graph, s: St, u: Node, v: Node)
    requires Shape(g, s) && Downward(g, s) && Upward(g, s) && s.open != []
    requires u in Component(s) && v in Component(s)
    ensures Mutual(g, u, v)
  {
    var t := TopAt(s);
    var i :| t <= i < |s.stack| && s.stack[i] == u;
    var j :| t <= j < |s.stack| && s.stack[j] == v;
    AllReachTop(g, s, i);
    AllReachTop(g, s, j);
    ReachTrans(g, u, s.stack[t], v);
    ReachTrans(g, v, s.stack[t], u);
  }

  lemma {:induction false} PopShape(g: Graph, s: St)
    requires Shape(g, s) && s.open != []
    ensures Shape(g, Pop(s))
  {
    hide Succs;
    var s' := Pop(s);
    assert |s.open| == 1 ==> s'.stack == [];
  }

  lemma {:induction false} PopScanned(g: Graph, s: St)
    requires Shape(g, s) && Scanned(g, s) && s.open != [] && Shape(g, Pop(s))
    ensures Scanned(g, Pop(s))
  {
    hide Succs;
    var s' := Pop(s);
    assert forall j :: j in s.open && j < TopAt(s) ==> j in s'.open;
  }

  lemma {:induction false} PopLow(g: Graph, s: St)
    requires Shape(g, s) && LowSound(g, s) && RootFound(g, s)
    ensures forall i :: 0 <= i < |s.open| - 1 ==> Pop(s).low[s.stack[s.open[i]]] == s.low[s.stack[s.open[i]]]
  {
    if |s.open| > 1 {
      LowBelowCounter(g, s, |s.open| - 2);
    }
  }

  lemma {:induction false} PopDownward(g: Graph, s: St)
    requires Shape(g, s) && Downward(g, s) && s.open != []
    requires Shape(g, Pop(s))
    ensures Downward(g, Pop(s))
  {
    hide Succs, Reach;
    var s' := Pop(s);
    assert s'.stack == s.stack[..TopAt(s)] && s'.open == s.open[..|s.open| - 1];
  }

  lemma {:induction false} PopUpward(g: Graph, s: St)
    requires Shape(g, s) && Upward(g, s) && s.open != []
    requires Shape(g, Pop(s))
    ensures Upward(g, Pop(s))
  {
    hide Succs, Reach;
    var s' := Pop(s);
    assert s'.stack == s.stack[..TopAt(s)] && s'.open == s.open[..|s.open| - 1];
    forall i: nat, j: nat | Owns(g, s', i, j)
      ensures Reach(g, s'.stack[j], s'.stack[s'.open[i]])
    {
      assert Owns(g, s, i, j);
    }
  }

  lemma {:induction false} PopLowSound(g: Graph, s: St)
    requires Shape(g, s) && LowSound(g, s) && RootFound(g, s) && Shape(g, Pop(s))
    ensures LowSound(g, Pop(s))
  {
    hide Succs, Reach;
    var s' := Pop(s);
    PopLow(g, s);
    forall i: nat | i < |s'.open|
      ensures LowMeets(g, s', i)
    {
      assert LowMeets(g, s, i);
      var m: nat :| LowWitness(g, s, i, m);
      assert LowWitness(g, s', i, m);
    }
  }

  lemma {:induction false} PopLowBounds(g: Graph, s: St)
    requires Shape(g, s) && LowSound(g, s) && LowBounds(g, s) && RootFound(g, s) && Shape(g, Pop(s))
    ensures LowBounds(g, Pop(s))
  {
    hide Succs, Reach;
    var s' := Pop(s);
    PopLow(g, s);
    forall i: nat, j: nat, k: nat, m: nat | Owns(g, s', i, j) && StackEdge(g, s', j, k, m)
      ensures OpenLow(g, s', i) <= s'.index[s'.stack[m]]
    {
      assert Owns(g, s, i, j);
      assert StackEdge(g, s, j, k, m);
    }
  }

  /** Popping a component keeps the invariant. */
  lemma {:induction false} PopKeeps(g: Graph, s: St)
    requires Inv(g, s) && RootFound(g, s)
    ensures Inv(g, Pop(s))
  {
    PopShape(g, s);
    PopScanned(g, s);
    PopClosed(g, s);
    PopDownward(g, s);
    PopUpward(g, s);
    PopLowSound(g, s);
    PopLowBounds(g, s);
  }
}
