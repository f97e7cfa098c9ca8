/** Directed graphs over module paths: reachability, strongly connected components, cycles. */
module Digraph {

  /** A module path, as it appears between quotes in the DOT text. */
  type Node = string

  /** Successors of each node, in the order an iterator over them yields them. */
  type Graph = map<Node, seq<Node>>

  /** The successors of `v`; a node without an entry has none. */
  function Succs(g: Graph, v: Node): seq<Node> {
    if v in g then g[v] else []
  }

  ghost predicate IsPath(g: Graph, p: seq<Node>) {
    && |p| > 0
    && forall i :: 0 <= i < |p| - 1 ==> p[i + 1] in Succs(g, p[i])
  }

  ghost predicate PathFromTo(g: Graph, u: Node, v: Node, p: seq<Node>) {
    IsPath(g, p) && p[0] == u && p[|p| - 1] == v
  }

  /** `v` can be reached from `u` along zero or more edges. */
  ghost predicate Reach(g: Graph, u: Node, v: Node) {
    exists p :: PathFromTo(g, u, v, p)
  }

  ghost predicate Mutual(g: Graph, u: Node, v: Node) {
    Reach(g, u, v) && Reach(g, v, u)
  }

  /** `c` lists exactly one strongly connected component: nonempty, and each member is mutually
      reachable with the members of `c` and with nothing else. */
  ghost predicate IsScc(g: Graph, c: seq<Node>) {
    && |c| > 0
    && forall u, v :: u in c ==> (v in c <==> Mutual(g, u, v))
  }

  ghost predicate ReachableFrom(g: Graph, roots: seq<Node>, v: Node) {
    exists r :: r in roots && Reach(g, r, v)
  }

  ghost predicate Closed(g: Graph, s: set<Node>) {
    forall u, v :: u in s && v in Succs(g, u) ==> v in s
  }

  /** Some edge lies on a cycle. */
  ghost predicate HasCycle(g: Graph) {
    exists u, v :: v in Succs(g, u) && Reach(g, v, u)
  }

  ghost predicate SelfLoopFree(g: Graph) {
    forall u :: u !in Succs(g, u)
  }

  ghost function Universe(g: Graph, roots: seq<Node>): set<Node> {
    (set v | v in roots) + (set u, v | u in g && v in g[u] :: v)
  }

  lemma {:induction false} ReachSelf(g: Graph, u: Node)
    ensures Reach(g, u, u)
  {
    assert PathFromTo(g, u, u, [u]);
  }

  lemma {:induction false} ReachEdge(g: Graph, u: Node, v: Node)
    requires v in Succs(g, u)
    ensures Reach(g, u, v)
  {
    assert PathFromTo(g, u, v, [u, v]);
  }

  lemma {:induction false} ReachTrans(g: Graph, u: Node, v: Node, w: Node)
    requires Reach(g, u, v) && Reach(g, v, w)
    ensures Reach(g, u, w)
  {
    var p :| PathFromTo(g, u, v, p);
    var q :| PathFromTo(g, v, w, q);
    var r := p + q[1..];
    forall i | 0 <= i < |r| - 1
      ensures r[i + 1] in Succs(g, r[i])
    {
      if i < |p| - 1 {
        assert p[i + 1] in Succs(g, p[i]);
      } else {
        var j := i - (|p| - 1);
        assert r[i] == q[j];
        assert q[j + 1] in Succs(g, q[j]);
      }
    }
    assert PathFromTo(g, u, w, r);
  }

  lemma {:induction false} ReachStep(g: Graph, u: Node, v: Node, w: Node)
    requires Reach(g, u, v) && w in Succs(g, v)
    ensures Reach(g, u, w)
  {
    ReachEdge(g, v, w);
    ReachTrans(g, u, v, w);
  }

  /** A set closed under successors cannot be left. */
  lemma {:induction false} ClosedKeepsPath(g: Graph, s: set<Node>, p: seq<Node>)
    requires Closed(g, s) && IsPath(g, p) && p[0] in s
    ensures p[|p| - 1] in s
    decreases |p|
  {
    if |p| > 1 {
      assert p[0 + 1] in Succs(g, p[0]);
      var q := p[1..];
      forall i | 0 <= i < |q| - 1 ensures q[i + 1] in Succs(g, q[i]) {
        assert p[(i + 1) + 1] in Succs(g, p[i + 1]);
      }
      ClosedKeepsPath(g, s, q);
    }
  }

  lemma {:induction false} ClosedKeepsReach(g: Graph, s: set<Node>, u: Node, v: Node)
    requires Closed(g, s) && u in s && Reach(g, u, v)
    ensures v in s
  {
    var p :| PathFromTo(g, u, v, p);
    ClosedKeepsPath(g, s, p);
  }

  /** Two distinct mutually reachable nodes lie on a cycle. */
  lemma {:induction false} MutualGivesCycle(g: Graph, u: Node, v: Node)
    requires u != v && Mutual(g, u, v)
    ensures HasCycle(g)
  {
    var p :| PathFromTo(g, u, v, p);
    assert p[0 + 1] in Succs(g, p[0]);
    var q := p[1..];
    forall i | 0 <= i < |q| - 1 ensures q[i + 1] in Succs(g, q[i]) {
      assert p[(i + 1) + 1] in Succs(g, p[i + 1]);
    }
    assert PathFromTo(g, p[1], v, q);
    ReachTrans(g, p[1], v, u);
  }
}
