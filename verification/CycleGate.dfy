/** The gate around the traversal: which `uses` edges count, and what the exit code means. */
module CycleGate {
  import opened Digraph
  import opened ModuleCycles
  import Order = PathOrder

  predicate IsAncestor(a: Node, b: Node) {
    a + "::" <= b
  }

  /** Self edges and edges between a module and its ancestor are ordinary Rust, not cycles. */
  predicate Counts(e: (Node, Node)) {
    e.0 != e.1 && !IsAncestor(e.0, e.1) && !IsAncestor(e.1, e.0)
  }

  /** `b` is a path below the module `a`. */
  ghost predicate Below(a: Node, b: Node) {
    exists rest :: b == a + "::" + rest
  }

  /** Different modules, neither below the other. */
  ghost predicate Apart(a: Node, b: Node) {
    a != b && !Below(a, b) && !Below(b, a)
  }

  lemma {:induction false} AncestorIff(a: Node, b: Node)
    ensures IsAncestor(a, b) <==> Below(a, b)
  {
    if IsAncestor(a, b) {
      var p := a + "::";
      assert b == p + b[|p|..];
      assert b == a + "::" + b[|p|..];
    }
    if Below(a, b) {
      var rest :| b == a + "::" + rest;
      assert b[..|a + "::"|] == a + "::";
    }
  }

  /** An edge counts exactly when it joins two modules neither of which is the other or below it. */
  lemma {:induction false} CountsIff(e: (Node, Node))
    ensures Counts(e) <==> Apart(e.0, e.1)
  {
    hide IsAncestor, Below;
    AncestorIff(e.0, e.1);
    AncestorIff(e.1, e.0);
  }

  predicate NoColon(x: string) {
    forall i :: 0 <= i < |x| ==> x[i] != ':'
  }

  /** Siblings always count, however their names begin. */
  lemma {:induction false} SiblingsCount(p: Node, x: string, y: string)
    requires x != y && NoColon(x) && NoColon(y)
    ensures Counts((p + "::" + x, p + "::" + y))
  {
    var (a, b) := (p + "::" + x, p + "::" + y);
    assert a[|p| + 2..] == x && b[|p| + 2..] == y;
    NotBelow(p, x, y);
    NotBelow(p, y, x);
  }

  lemma {:induction false} NotBelow(p: Node, x: string, y: string)
    requires NoColon(y)
    ensures !IsAncestor(p + "::" + x, p + "::" + y)
  {
    var (a, b) := (p + "::" + x + "::", p + "::" + y);
    var i := |p| + 2 + |x|;
    assert a[i] == ':';
    assert |x| < |y| ==> b[i] == y[|x|];
  }

  /** The edges of `g` are the given ones that join modules apart. */
  ghost predicate Represents(g: Graph, uses: seq<(Node, Node)>) {
    forall u, v :: v in Succs(g, u) <==> (u, v) in uses && Apart(u, v)
  }

  /** Where every edge starts at a root and no edge is a self loop, nothing is reported exactly when the
      graph has no cycle. */
  lemma {:induction false} EmptyIffAcyclic(g: Graph, roots: seq<Node>, sccs: seq<seq<Node>>)
    requires Correct(g, roots, sccs) && SelfLoopFree(g)
    requires forall u, v :: v in Succs(g, u) ==> u in roots
    ensures sccs == [] <==> !HasCycle(g)
  {
    if sccs != [] {
      var c := sccs[0];
      assert GoodReport(g, c);
      assert c[0] in c && c[1] in c;
      MutualGivesCycle(g, c[0], c[1]);
    }
    if HasCycle(g) {
      var u, v :| v in Succs(g, u) && Reach(g, v, u);
      ReachEdge(g, u, v);
      ReachSelf(g, u);
      assert ReachableFrom(g, roots, u);
      assert u != v && Mutual(g, u, v);
    }
  }

  /** The counting edges, in order. */
  method KeepCounting(uses: seq<(Node, Node)>) returns (edges: seq<(Node, Node)>)
    ensures forall e :: e in edges <==> e in uses && Apart(e.0, e.1)
  {
    hide Below, IsAncestor;
    edges := [];
    for i := 0 to |uses|
      invariant forall e :: e in edges <==> e in uses[..i] && Apart(e.0, e.1)
    {
      var (src, dst) := uses[i];
      CountsIff(uses[i]);
      assert uses[..i + 1] == uses[..i] + [uses[i]];
      if src == dst || IsAncestor(src, dst) || IsAncestor(dst, src) {
        continue;
      }
      edges := edges + [(src, dst)];
    }
    assert uses[..|uses|] == uses;
  }

  /** Every end point of an edge, once, in order. */
  method EndPoints(edges: seq<(Node, Node)>) returns (nodes: seq<Node>)
    ensures Order.StrictlySorted(nodes)
    ensures forall i :: 0 <= i < |edges| ==> edges[i].0 in nodes && edges[i].1 in nodes
  {
    var ends: seq<Node> := [];
    for i := 0 to |edges|
      invariant forall j :: 0 <= j < i ==> edges[j].0 in ends && edges[j].1 in ends
      invariant Order.Distinct(ends)
    {
      var (src, dst) := edges[i];
      if src !in ends {
        ends := ends + [src];
      }
      if dst !in ends {
        ends := ends + [dst];
      }
    }
    nodes := Order.Sorted(ends);
    Order.SortedIsStrict(ends);
  }

  /** The successors of each node. */
  method Adjacency(edges: seq<(Node, Node)>) returns (adj: Graph)
    ensures forall u, v :: v in Succs(adj, u) <==> (u, v) in edges
  {
    adj := map[];
    for i := 0 to |edges|
      invariant forall u, v :: v in Succs(adj, u) <==> (u, v) in edges[..i]
    {
      var (src, dst) := edges[i];
      assert edges[..i + 1] == edges[..i] + [edges[i]];
      ghost var before := adj;
      if dst !in Succs(adj, src) {
        adj := adj[src := Succs(adj, src) + [dst]];
      }
      assert forall u, v :: v in Succs(adj, u) <==> v in Succs(before, u) || (u, v) == (src, dst);
    }
    assert edges[..|edges|] == edges;
  }

  /** Some edge counts. */
  ghost predicate AnyCounts(uses: seq<(Node, Node)>) {
    exists i :: 0 <= i < |uses| && Apart(uses[i].0, uses[i].1)
  }

  /** The exit code as announced: 2 when no module edge was read. */
  ghost function AnnouncedCode(uses: seq<(Node, Node)>, cyclic: bool): nat {
    if !AnyCounts(uses) then 2 else if cyclic then 1 else 0
  }

  /** The exit code is 1 exactly when the counting edges form a cycle; otherwise it is 0. It is the announced code
      exactly when some edge counts. */
  method Gate(uses: seq<(Node, Node)>) returns (code: nat, sccs: seq<seq<Node>>, adj: Graph)
    ensures Represents(adj, uses)
    ensures code == (if sccs == [] then 0 else 1) && (code == 1 <==> HasCycle(adj))
    ensures code == AnnouncedCode(uses, HasCycle(adj)) <==> AnyCounts(uses)
    ensures forall u, v :: u != v ==>
              (Mutual(adj, u, v) <==> exists i :: 0 <= i < |sccs| && u in sccs[i] && v in sccs[i])
    ensures forall i :: 0 <= i < |sccs| ==> GoodReport(adj, sccs[i])
  {
    var edges := KeepCounting(uses);
    adj := Adjacency(edges);
    var nodes := EndPoints(edges);
    sccs, code := [], 0;
    if edges != [] {
      sccs := TarjanSccs(nodes, adj);
      code := if sccs == [] then 0 else 1;
    } else {
      NoEdges(adj, nodes);
    }
    EdgesStartAtRoots(adj, edges, nodes);
    EmptyIffAcyclic(adj, nodes, sccs);
    forall u, v | u != v
      ensures Mutual(adj, u, v) <==> exists i :: 0 <= i < |sccs| && u in sccs[i] && v in sccs[i]
    {
      Exactly(adj, nodes, sccs, u, v);
    }
  }

  lemma {:induction false} EdgesStartAtRoots(g: Graph, edges: seq<(Node, Node)>, roots: seq<Node>)
    requires forall u, v :: v in Succs(g, u) <==> (u, v) in edges
    requires forall i :: 0 <= i < |edges| ==> edges[i].0 in roots && edges[i].1 in roots
    ensures forall u, v :: v in Succs(g, u) ==> u in roots
  {
    forall u, v | v in Succs(g, u) ensures u in roots {
      var i :| 0 <= i < |edges| && edges[i] == (u, v);
    }
  }

  lemma {:induction false} NoEdges(g: Graph, roots: seq<Node>)
    requires forall u, v :: v !in Succs(g, u)
    ensures Correct(g, roots, [])
  {
    forall u, v | Mutual(g, u, v) && u != v ensures false {
      MutualGivesCycle(g, u, v);
    }
  }

  lemma {:induction false} Exactly(g: Graph, roots: seq<Node>, sccs: seq<seq<Node>>, u: Node, v: Node)
    requires Correct(g, roots, sccs) && u != v
    requires forall a, b :: b in Succs(g, a) ==> a in roots
    ensures Mutual(g, u, v) <==> exists i :: 0 <= i < |sccs| && u in sccs[i] && v in sccs[i]
  {
    if Mutual(g, u, v) {
      var p :| PathFromTo(g, u, v, p);
      assert p[0 + 1] in Succs(g, p[0]);
      ReachSelf(g, u);
      assert ReachableFrom(g, roots, u);
    }
    if i :| 0 <= i < |sccs| && u in sccs[i] && v in sccs[i] {
      assert GoodReport(g, sccs[i]);
    }
  }
}
