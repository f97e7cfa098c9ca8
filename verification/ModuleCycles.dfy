/** The module-cycle gate: iterative Tarjan over the module `uses` graph. */
module ModuleCycles {
  import opened Arithmetic
  import opened Digraph
  import opened TarjanInvariant
  import Order = PathOrder

  /** One reported cycle: a strongly connected component of two or more nodes, in strict order. */
  ghost predicate GoodReport(g: Graph, c: seq<Node>) {
    IsScc(g, c) && |c| > 1 && Order.StrictlySorted(c)
  }

  ghost predicate Listed(sccs: seq<seq<Node>>, v: Node) {
    exists i :: 0 <= i < |sccs| && v in sccs[i]
  }

  ghost predicate Alone(g: Graph, v: Node) {
    forall u :: Mutual(g, v, u) ==> u == v
  }

  /** `sccs` reports the components with two or more members among the nodes of `done`. */
  ghost predicate Reports(g: Graph, done: set<Node>, sccs: seq<seq<Node>>) {
    && (forall i :: 0 <= i < |sccs| ==> GoodReport(g, sccs[i]) && forall v :: v in sccs[i] ==> v in done)
    && (forall i, j, v :: 0 <= i < j < |sccs| && v in sccs[i] ==> v !in sccs[j])
    && (forall v :: v in done ==> Listed(sccs, v) || Alone(g, v))
  }

  ghost predicate FromRoots(g: Graph, roots: seq<Node>, index: map<Node, nat>) {
    forall v :: v in index ==> ReachableFrom(g, roots, v)
  }

  function Extend(sccs: seq<seq<Node>>, comp: seq<Node>): seq<seq<Node>> {
    if |comp| > 1 then sccs + [Order.Sorted(comp)] else sccs
  }

  /** `r` lists `c` backwards. */
  ghost predicate Reversed(c: seq<Node>, r: seq<Node>) {
    |r| == |c| && forall i :: 0 <= i < |r| ==> r[i] == c[|c| - 1 - i]
  }

  /** Reporting the component just popped, in the order it came off the stack. */
  lemma {:induction false} ReportPopped(g: Graph, s: St, sccs: seq<seq<Node>>, scc: seq<Node>)
    requires Inv(g, s) && RootFound(g, s) && Reports(g, Done(s), sccs) && Reversed(Component(s), scc)
    ensures Reports(g, Done(Pop(s)), Extend(sccs, scc))
  {
    PopDone(g, s);
    PopIsScc(g, s);
    ComponentDistinct(g, s);
    ReversedComponent(g, Component(s), scc);
    assert (set v | v in scc) == (set v | v in Component(s));
    ReportMore(g, Done(s), sccs, scc);
  }

  lemma {:induction false} ReversedComponent(g: Graph, c: seq<Node>, r: seq<Node>)
    requires IsScc(g, c) && Order.Distinct(c) && Reversed(c, r)
    ensures IsScc(g, r) && Order.Distinct(r) && forall v :: v in r <==> v in c
  {
    forall v ensures v in r <==> v in c {
      if v in c {
        var i :| 0 <= i < |c| && c[i] == v;
        assert r[|c| - 1 - i] == v;
      }
    }
  }

  lemma {:induction false} ComponentDistinct(g: Graph, s: St)
    requires Shape(g, s) && s.open != []
    ensures Order.Distinct(Component(s))
    ensures forall v :: v in Component(s) ==> v !in Done(s)
  {
    var t := TopAt(s);
    forall i, j | 0 <= i < j < |Component(s)| ensures Component(s)[i] != Component(s)[j] {
      assert s.index[s.stack[t + i]] < s.index[s.stack[t + j]];
    }
  }

  lemma {:induction false} ReportMore(g: Graph, done: set<Node>, sccs: seq<seq<Node>>, comp: seq<Node>)
    requires Reports(g, done, sccs) && IsScc(g, comp) && Order.Distinct(comp)
    requires forall v :: v in comp ==> v !in done
    ensures Reports(g, done + (set v | v in comp), Extend(sccs, comp))
  {
    var done' := done + (set v | v in comp);
    var sccs' := Extend(sccs, comp);
    if |comp| > 1 {
      SortedComponent(g, comp);
      assert sccs'[|sccs|] == Order.Sorted(comp);
    } else {
      assert comp == [comp[0]];
      assert Alone(g, comp[0]);
    }
    forall v | v in done'
      ensures Listed(sccs', v) || Alone(g, v)
    {
      if v in done && Listed(sccs, v) {
        var i :| 0 <= i < |sccs| && v in sccs[i];
        assert v in sccs'[i];
      } else if v in comp && |comp| > 1 {
        assert v in sccs'[|sccs|];
      }
    }
  }

  lemma {:induction false} SortedComponent(g: Graph, comp: seq<Node>)
    requires IsScc(g, comp) && Order.Distinct(comp) && |comp| > 1
    ensures GoodReport(g, Order.Sorted(comp))
    ensures forall v :: v in Order.Sorted(comp) <==> v in comp
  {
    Order.SortedIsStrict(comp);
  }

  /** Pop the stack down to and including `node`. */
  method PopThrough(stack: seq<Node>, onStack: set<Node>, node: Node, ghost t: nat)
    returns (stack': seq<Node>, onStack': set<Node>, scc: seq<Node>)
    requires t < |stack| && stack[t] == node && Order.Distinct(stack)
    requires onStack == (set v | v in stack)
    ensures stack' == stack[..t] && onStack' == (set v | v in stack')
    ensures Reversed(stack[t..], scc)
  {
    stack', onStack', scc := stack, onStack, [];
    while true
      invariant t < |stack'| <= |stack| && stack' == stack[..|stack'|]
      invariant onStack' == (set v | v in stack')
      invariant |scc| == |stack| - |stack'|
      invariant forall i :: 0 <= i < |scc| ==> scc[i] == stack[|stack| - 1 - i]
      decreases |stack'|
    {
      var w := stack'[|stack'| - 1];
      PopTop(stack', stack'[..|stack'| - 1], onStack');
      stack' := stack'[..|stack'| - 1];
      onStack' := onStack' - {w};
      scc := scc + [w];
      if w == node {
        break;
      }
    }
  }

  lemma {:induction false} PopTop(stack: seq<Node>, rest: seq<Node>, onStack: set<Node>)
    requires |stack| > 0 && Order.Distinct(stack) && onStack == (set v | v in stack)
    requires rest == stack[..|stack| - 1]
    ensures (set v | v in rest) == onStack - {stack[|stack| - 1]}
  {
    assert stack == rest + [stack[|stack| - 1]];
  }

  lemma {:induction false} StackDistinct(g: Graph, s: St)
    requires Shape(g, s)
    ensures Order.Distinct(s.stack)
  {
    forall i, j | 0 <= i < j < |s.stack| ensures s.stack[i] != s.stack[j] {
      assert s.index[s.stack[i]] < s.index[s.stack[j]];
    }
  }

  lemma {:induction false} RootsReach(g: Graph, roots: seq<Node>, index: map<Node, nat>, u: Node, v: Node, n: nat)
    requires FromRoots(g, roots, index) && u in index && v in Succs(g, u)
    ensures FromRoots(g, roots, index[v := n])
  {
    assert ReachableFrom(g, roots, u);
    var r :| r in roots && Reach(g, r, u);
    ReachStep(g, r, u, v);
    assert ReachableFrom(g, roots, v);
  }

  lemma {:induction false} RootReaches(g: Graph, roots: seq<Node>, index: map<Node, nat>, v: Node, n: nat)
    requires FromRoots(g, roots, index) && v in roots
    ensures FromRoots(g, roots, index[v := n])
  {
    ReachSelf(g, v);
    assert ReachableFrom(g, roots, v);
  }

  ghost predicate Progress(g: Graph, roots: seq<Node>, s: St, sccs: seq<seq<Node>>) {
    && Inv(g, s)
    && Reports(g, Done(s), sccs)
    && FromRoots(g, roots, s.index)
    && s.index.Keys <= Universe(g, roots)
  }

  /** `work` holds the open nodes of `s` with the progress of their iterators. */
  ghost predicate WorkIs(s: St, work: seq<(Node, nat)>) {
    && |s.pos| == |s.stack|
    && |work| == |s.open|
    && (forall i :: 0 <= i < |work| ==> s.open[i] < |s.stack| && work[i] == (s.stack[s.open[i]], s.pos[s.open[i]]))
  }

  lemma {:induction false} WorkOpen(s: St, work: seq<(Node, nat)>, v: Node)
    requires WorkIs(s, work)
    ensures WorkIs(Visit(s, v), work + [(v, 0)])
  {
  }

  lemma {:induction false} WorkYield(g: Graph, s: St, work: seq<(Node, nat)>, work': seq<(Node, nat)>)
    requires Shape(g, s) && WorkIs(s, work) && work != []
    requires var (n, k) := work[|work| - 1]; work' == work[|work| - 1 := (n, k + 1)]
    ensures WorkIs(Yield(s), work')
  {
  }

  lemma {:induction false} WorkSkip(g: Graph, s: St, work: seq<(Node, nat)>, work': seq<(Node, nat)>, v: Node)
    requires Shape(g, s) && WorkIs(s, work) && work != [] && v in s.index
    requires var (n, k) := work[|work| - 1]; work' == work[|work| - 1 := (n, k + 1)]
    ensures WorkIs(SkipEdge(s, v), work')
  {
    WorkYield(g, s, work, work');
  }

  lemma {:induction false} WorkClose(g: Graph, s: St, work: seq<(Node, nat)>)
    requires Shape(g, s) && WorkIs(s, work) && work != []
    ensures WorkIs(Close(s), work[..|work| - 1]) && WorkIs(Pop(s), work[..|work| - 1])
  {
    assert Pop(s).stack == s.stack[..TopAt(s)] && Pop(s).pos == s.pos[..TopAt(s)];
  }

  // ----- one traversal step at a time, on snapshots -----

  lemma {:induction false} StartStep(g: Graph, roots: seq<Node>, s: St, sccs: seq<seq<Node>>, v: Node)
    requires Progress(g, roots, s, sccs) && s.stack == [] && v in roots && v !in s.index
    ensures Progress(g, roots, Visit(s, v), sccs)
  {
    VisitRoot(g, s, v);
    RootShape(g, s, v);
    RootReaches(g, roots, s.index, v, s.counter);
  }

  lemma {:induction false} ChildStep(g: Graph, roots: seq<Node>, s: St, sccs: seq<seq<Node>>, v: Node)
    requires Progress(g, roots, s, sccs) && v !in s.index && NextIs(g, s, v)
    ensures Progress(g, roots, Visit(Yield(s), v), sccs)
  {
    VisitChild(g, s, v);
    VisitDone(g, s, v);
    RootsReach(g, roots, s.index, s.stack[TopAt(s)], v, s.counter);
    SuccInUniverse(g, roots, s.stack[TopAt(s)], v);
  }

  lemma {:induction false} InOrder(g: Graph, roots: seq<Node>, s: St, sccs: seq<seq<Node>>)
    requires Progress(g, roots, s, sccs)
    ensures Shape(g, s) && Order.Distinct(s.stack) && |s.pos| == |s.stack|
    ensures forall i :: 0 <= i < |s.open| ==> s.open[i] < |s.stack| && s.stack[s.open[i]] in s.low
  {
    StackDistinct(g, s);
  }

  lemma {:induction false} SuccInUniverse(g: Graph, roots: seq<Node>, u: Node, v: Node)
    requires v in Succs(g, u)
    ensures v in Universe(g, roots)
  {
    assert u in g && v in g[u];
  }

  lemma {:induction false} SkipStep(g: Graph, roots: seq<Node>, s: St, sccs: seq<seq<Node>>, v: Node)
    requires Progress(g, roots, s, sccs) && v in s.index && NextIs(g, s, v)
    ensures Progress(g, roots, SkipEdge(s, v), sccs)
  {
    SkipKeeps(g, s, v);
    SkipShape(g, s, v);
  }

  lemma {:induction false} CloseStep(g: Graph, roots: seq<Node>, s: St, sccs: seq<seq<Node>>)
    requires Progress(g, roots, s, sccs) && Exhausted(g, s) && !RootFound(g, s)
    ensures Progress(g, roots, Close(s), sccs) && |s.open| > 1
  {
    CloseKeeps(g, s);
    CloseShape(g, s);
  }

  lemma {:induction false} PopStep(g: Graph, roots: seq<Node>, s: St, sccs: seq<seq<Node>>, scc: seq<Node>)
    requires Progress(g, roots, s, sccs) && RootFound(g, s) && Reversed(Component(s), scc)
    ensures Progress(g, roots, Pop(s), Extend(sccs, scc))
  {
    PopKeeps(g, s);
    ReportPopped(g, s, sccs, scc);
  }

  /** What the traversal relies on to index its own tables. */
  lemma {:induction false} Basics(g: Graph, roots: seq<Node>, s: St, sccs: seq<seq<Node>>, work: seq<(Node, nat)>)
    requires Progress(g, roots, s, sccs) && WorkIs(s, work)
    ensures |s.pos| == |s.stack| && |work| == |s.open| && (s.stack == [] <==> work == [])
    ensures forall i :: 0 <= i < |s.open| ==> s.open[i] < |s.stack| && s.stack[s.open[i]] in s.low
    ensures work != [] ==> work[|work| - 1] == (s.stack[TopAt(s)], s.pos[TopAt(s)])
                           && s.stack[TopAt(s)] in s.index && s.pos[TopAt(s)] <= |Succs(g, s.stack[TopAt(s)])|
    ensures |work| > 1 ==> work[|work| - 2].0 == s.stack[s.open[|work| - 2]] && work[|work| - 2].0 != work[|work| - 1].0
    ensures Shape(g, s) && Order.Distinct(s.stack) && s.index.Keys <= Universe(g, roots)
  {
    StackDistinct(g, s);
  }

  lemma {:induction false} InitStep(g: Graph, roots: seq<Node>)
    ensures Progress(g, roots, St(map[], map[], [], [], [], 0), [])
  {
  }

  /** What the traversal promises. */
  ghost predicate Correct(g: Graph, roots: seq<Node>, sccs: seq<seq<Node>>) {
    && (forall i :: 0 <= i < |sccs| ==> GoodReport(g, sccs[i]))
    && (forall i, v :: 0 <= i < |sccs| && v in sccs[i] ==> ReachableFrom(g, roots, v))
    && (forall i, j, v :: 0 <= i < j < |sccs| && v in sccs[i] ==> v !in sccs[j])
    && (forall u, v :: ReachableFrom(g, roots, u) && Mutual(g, u, v) && u != v
                       ==> exists i :: 0 <= i < |sccs| && u in sccs[i] && v in sccs[i])
  }

  lemma {:induction false} Complete(g: Graph, roots: seq<Node>, done: set<Node>, sccs: seq<seq<Node>>, u: Node, v: Node)
    requires Reports(g, done, sccs) && Closed(g, done) && (forall r :: r in roots ==> r in done)
    requires ReachableFrom(g, roots, u) && Mutual(g, u, v) && u != v
    ensures exists i :: 0 <= i < |sccs| && u in sccs[i] && v in sccs[i]
  {
    var r :| r in roots && Reach(g, r, u);
    ClosedKeepsReach(g, done, r, u);
    assert !Alone(g, u);
    assert Listed(sccs, u);
    var i :| 0 <= i < |sccs| && u in sccs[i];
    assert GoodReport(g, sccs[i]);
  }

  lemma {:induction false} Finished(g: Graph, roots: seq<Node>, s: St, sccs: seq<seq<Node>>)
    requires Progress(g, roots, s, sccs) && s.stack == []
    requires forall r :: r in roots ==> r in s.index
    ensures Correct(g, roots, sccs)
  {
    hide Shape, Scanned, Downward, Upward, LowSound, LowBounds, Mutual, GoodReport, Alone;
    assert Done(s) == s.index.Keys;
    forall u, v | ReachableFrom(g, roots, u) && Mutual(g, u, v) && u != v
      ensures exists i :: 0 <= i < |sccs| && u in sccs[i] && v in sccs[i]
    {
      Complete(g, roots, Done(s), sccs, u, v);
    }
  }

  /** The tables of one traversal. An entry of `work` is a node and how far its iterator has got. */
  class Traversal {
    const g: Graph
    ghost const roots: seq<Node>
    var index: map<Node, nat>
    var low: map<Node, nat>
    var onStack: set<Node>
    var stack: seq<Node>
    var sccs: seq<seq<Node>>
    var counter: nat
    var work: seq<(Node, nat)>
    ghost var s: St

    ghost predicate Linked()
      reads this
    {
      && s.index == index && s.low == low && s.stack == stack && s.counter == counter
      && onStack == (set v | v in stack)
      && WorkIs(s, work)
    }

    ghost predicate Valid()
      reads this
    {
      Progress(g, roots, s, sccs) && Linked()
    }

    constructor (g: Graph, ghost roots: seq<Node>)
      ensures Valid() && work == [] && this.g == g && this.roots == roots
    {
      this.g, this.roots := g, roots;
      index, low, onStack, stack, sccs, counter, work := map[], map[], {}, [], [], 0, [];
      s := St(map[], map[], [], [], [], 0);
      InitStep(g, roots);
    }

    /** Number `v`, put it on the stack and open its iterator. */
    method Open(v: Node)
      requires Linked() && Progress(g, roots, Visit(s, v), sccs)
      modifies this
      ensures Valid() && index == old(index)[v := old(counter)] && work == old(work) + [(v, 0)]
    {
      hide Progress, WorkIs;
      WorkOpen(s, work, v);
      s := Visit(s, v);
      index, low := index[v := counter], low[v := counter];
      counter := counter + 1;
      stack, onStack := stack + [v], onStack + {v};
      work := work + [(v, 0)];
    }

    method Start(root: Node)
      requires Valid() && work == [] && root in roots && root !in index
      modifies this
      ensures Valid() && index == old(index)[root := old(counter)] && work == [(root, 0)]
    {
      hide Progress, WorkIs, Shape, Universe;
      Basics(g, roots, s, sccs, work);
      StartStep(g, roots, s, sccs, root);
      Open(root);
    }

    /** Lower the lowlink of `node` for an edge to a node that is numbered already. */
    method Note(node: Node, nxt: Node)
      requires s.index == index && s.low == low && s.stack == stack && s.counter == counter
      requires onStack == (set v | v in stack)
      requires s.open != [] && TopAt(s) < |s.pos| && |s.pos| == |s.stack| && nxt in index && node in low
      requires node == stack[TopAt(s)] && WorkIs(SkipEdge(s, nxt), work) && Progress(g, roots, SkipEdge(s, nxt), sccs)
      modifies this
      ensures Valid() && index == old(index) && work == old(work)
    {
      hide Progress, WorkIs;
      s := SkipEdge(s, nxt);
      if nxt in onStack {
        low := low[node := Min(low[node], index[nxt])];
      }
    }

    /** Advance the innermost iterator until it yields an unnumbered node, which is opened, or ends. */
    method Scan() returns (advanced: bool)
      requires Valid() && work != []
      modifies this
      ensures Valid() && work != []
      ensures old(index.Keys) <= index.Keys && (advanced ==> old(index.Keys) < index.Keys)
      ensures !advanced ==> |work| == old(|work|) && Exhausted(g, s)
    {
      hide Progress, Shape, Universe, Order.Distinct, WorkIs;
      var top := |work| - 1;
      var node := work[top].0;
      while work[top].1 < |Succs(g, node)|
        invariant |work| == top + 1 && work[top].0 == node && index == old(index)
        invariant Valid()
        decreases |Succs(g, node)| - work[top].1
      {
        Basics(g, roots, s, sccs, work);
        var nxt := Succs(g, node)[work[top].1];
        ghost var before := work;
        work := work[top := (node, work[top].1 + 1)];
        if nxt !in index {
          ChildStep(g, roots, s, sccs, nxt);
          WorkYield(g, s, before, work);
          s := Yield(s);
          Open(nxt);
          return true;
        }
        SkipStep(g, roots, s, sccs, nxt);
        WorkSkip(g, s, before, work, nxt);
        Note(node, nxt);
      }
      Basics(g, roots, s, sccs, work);
      return false;
    }

    /** Pop the component whose root is `node` and report it if it has two or more members. */
    method Report(node: Node, ghost s0: St)
      requires Progress(g, roots, s0, sccs) && RootFound(g, s0) && Linked() && s == Close(s0)
      requires node == s0.stack[TopAt(s0)] && WorkIs(Pop(s0), work)
      modifies this
      ensures Valid() && work == old(work) && index == old(index)
    {
      hide Progress, Shape, Order.Distinct, Reversed, WorkIs;
      InOrder(g, roots, s0, sccs);
      var scc;
      ghost var before := sccs;
      stack, onStack, scc := PopThrough(stack, onStack, node, TopAt(s0));
      if |scc| > 1 {
        sccs := sccs + [Order.Sorted(scc)];
      }
      PopStep(g, roots, s0, before, scc);
      s := Pop(s0);
    }

    /** Close the innermost iterator; if its node is a root, report its component. */
    method Retire()
      requires Valid() && work != [] && Exhausted(g, s)
      modifies this
      ensures Valid() && |work| == old(|work|) - 1 && index == old(index)
    {
      hide Progress, Shape, Universe, Order.Distinct, WorkIs;
      Basics(g, roots, s, sccs, work);
      WorkClose(g, s, work);
      ghost var s0 := s;
      var node := work[|work| - 1].0;
      work := work[..|work| - 1];
      if work != [] {
        var parent := work[|work| - 1].0;
        low := low[parent := Min(low[parent], low[node])];
      }
      s := Close(s);
      if low[node] == index[node] {
        Report(node, s0);
      } else {
        CloseStep(g, roots, s0, sccs);
      }
    }
  }

  /** Tarjan's algorithm without recursion, from each root in turn. */
  method TarjanSccs(roots: seq<Node>, g: Graph) returns (sccs: seq<seq<Node>>)
    ensures Correct(g, roots, sccs)
  {
    hide Progress, Shape, Universe, Order.Distinct, Correct, WorkIs;
    var t := new Traversal(g, roots);
    for r := 0 to |roots|
      invariant fresh(t) && t.g == g && t.roots == roots && t.Valid() && t.work == []
      invariant forall j :: 0 <= j < r ==> roots[j] in t.index
    {
      if roots[r] in t.index {
        continue;
      }
      t.Start(roots[r]);
      while t.work != []
        invariant fresh(t) && t.g == g && t.roots == roots && t.Valid()
        invariant forall j :: 0 <= j <= r ==> roots[j] in t.index
        decreases Universe(g, roots) - t.index.Keys, |t.work|
      {
        var advanced := t.Scan();
        Basics(g, roots, t.s, t.sccs, t.work);
        if advanced {
          continue;
        }
        t.Retire();
      }
    }
    Basics(g, roots, t.s, t.sccs, t.work);
    Finished(g, roots, t.s, t.sccs);
    sccs := t.sccs;
  }
}
