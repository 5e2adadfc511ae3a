/*******************************************************************************
 *  The graph that `eval` renders (cmd/eval.go), seen only through what the
 *  renderer asks of it: its roots, and for every node a type label and an
 *  ordered list of successors.
 *******************************************************************************/

module Graphs {

  /** Node identity. The source compares vertices by reference; here every
      vertex has a distinct number. */
  type Node = nat

  /** A finite directed graph with an ordered root list, a type label per node
      and an ordered successor list per node (the source's `Roots()`,
      `Obj().Type()` and `Outs()`). Cycles and shared nodes are allowed. */
  datatype Graph = Graph(
    nodes: set<Node>,
    kind: map<Node, string>,
    outs: map<Node, seq<Node>>,
    roots: seq<Node>)

  /** Every node has a type name and a successor list, and every root and every
      successor is a node of the graph. */
  predicate Valid(g: Graph) {
    && g.kind.Keys == g.nodes
    && g.outs.Keys == g.nodes
    && (forall v, w :: v in g.outs && w in g.outs[v] ==> w in g.nodes)
    && (forall w :: w in g.roots ==> w in g.nodes)
  }

  /** `c` is a set of nodes that no edge leaves. */
  predicate Closed(g: Graph, c: set<Node>) {
    && c <= g.nodes
    && forall v, w :: v in c && v in g.outs && w in g.outs[v] ==> w in c
  }

  /** `p` is a non-empty walk along edges of `g`. */
  ghost predicate IsPath(g: Graph, p: seq<Node>) {
    && |p| > 0
    && (forall j :: 0 <= j < |p| ==> p[j] in g.nodes)
    && (forall j :: 0 <= j < |p| - 1 ==> p[j] in g.outs && p[j + 1] in g.outs[p[j]])
  }

  /** `w` can be reached by a walk that starts at a root. */
  ghost predicate Reachable(g: Graph, w: Node) {
    exists p :: IsPath(g, p) && p[0] in g.roots && p[|p| - 1] == w
  }

  /** A walk from a root stays inside every closed set that holds the roots. */
  lemma {:induction false} PathStaysInClosed(g: Graph, c: set<Node>, p: seq<Node>)
    requires Closed(g, c) && IsPath(g, p) && p[0] in c
    ensures forall j :: 0 <= j < |p| ==> p[j] in c
    decreases |p|
  {
    if |p| > 1 {
      var init := p[..|p| - 1];
      assert IsPath(g, init);
      PathStaysInClosed(g, c, init);
      assert p[|p| - 2] in c;
    }
  }

  /** Reachable nodes lie in every closed set that holds the roots. */
  lemma ReachableInClosed(g: Graph, c: set<Node>, w: Node)
    requires Closed(g, c) && (forall r :: r in g.roots ==> r in c)
    requires Reachable(g, w)
    ensures w in c
  {
    var p :| IsPath(g, p) && p[0] in g.roots && p[|p| - 1] == w;
    PathStaysInClosed(g, c, p);
  }

  /** One more edge from a reachable node reaches its target. */
  lemma ReachableStep(g: Graph, v: Node, w: Node)
    requires Valid(g) && Reachable(g, v) && v in g.outs && w in g.outs[v]
    ensures Reachable(g, w)
  {
    var p :| IsPath(g, p) && p[0] in g.roots && p[|p| - 1] == v;
    var q := p + [w];
    assert forall j :: 0 <= j < |p| ==> q[j] == p[j];
    assert IsPath(g, q);
  }

  /** The reachable nodes hold the roots and no edge leaves them. */
  lemma ReachableSetClosed(g: Graph)
    requires Valid(g)
    ensures var reach := set w | w in g.nodes && Reachable(g, w);
      && Closed(g, reach)
      && (forall r :: r in g.roots ==> r in reach)
  {
    var reach := set w | w in g.nodes && Reachable(g, w);
    forall r | r in g.roots
      ensures r in reach
    {
      assert IsPath(g, [r]);
    }
    forall v, w | v in reach && v in g.outs && w in g.outs[v]
      ensures w in reach
    {
      ReachableStep(g, v, w);
    }
  }
}
