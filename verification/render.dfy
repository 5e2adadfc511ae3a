/*******************************************************************************
 *  Model of `printVertex` and the loop over the roots in cmd/eval.go: a
 *  pre-order depth-first rendering of the graph with one visited set shared
 *  by the whole call.
 *******************************************************************************/

/**
 Each printed line is a record: the node, its depth (the number of
 `"    -> "` units in its indent), its type name, and whether it is the
 `<cycle...>` marker. The visited set, a map to bool in the source, is a set
 threaded through the calls and returned with the lines.
 */
module Render {
  import opened Graphs

  datatype Line = Line(node: Node, depth: nat, kind: string, cycle: bool)

  /** The lines printed so far and the visited set after printing them. */
  datatype Output = Output(lines: seq<Line>, shown: set<Node>)

  /** `printVertex(v, shown, indent)` with `indent` made of `depth` units:
      a node already shown prints one marker line; otherwise it joins the
      visited set and prints its line, then its successors one level deeper.
      The set of nodes not yet shown shrinks on every descent, so the
      rendering ends on cyclic graphs. */
  function Vertex(g: Graph, v: Node, shown: set<Node>, depth: nat): (r: Output)
    requires Valid(g) && v in g.nodes && shown <= g.nodes
    ensures shown <= r.shown <= g.nodes && v in r.shown
    decreases g.nodes - shown, 0
  {
    if v in shown then
      Output([Line(v, depth, g.kind[v], true)], shown)
    else
      var children := Outs(g, g.outs[v], shown + {v}, depth + 1);
      Output([Line(v, depth, g.kind[v], false)] + children.lines, children.shown)
  }

  /** The nodes `vs` rendered one after another at the same depth, each
      seeing the visited set the previous one left. */
  function Outs(g: Graph, vs: seq<Node>, shown: set<Node>, depth: nat): (r: Output)
    requires Valid(g) && (forall w :: w in vs ==> w in g.nodes) && shown <= g.nodes
    ensures shown <= r.shown <= g.nodes
    ensures forall w :: w in vs ==> w in r.shown
    decreases g.nodes - shown, |vs| + 1
  {
    if |vs| == 0 then Output([], shown)
    else
      var first := Vertex(g, vs[0], shown, depth);
      var rest := Outs(g, vs[1..], first.shown, depth);
      Output(first.lines + rest.lines, rest.shown)
  }

  /** What `eval` prints for a graph: every root in order at depth 0, starting
      from an empty visited set. */
  function RenderGraph(g: Graph): Output
    requires Valid(g)
  {
    Outs(g, g.roots, {}, 0)
  }

  /** The driver loop: one visited set, created empty, carried from root to
      root, and the lines of each root appended in order. */
  method PrintGraph(g: Graph) returns (lines: seq<Line>)
    requires Valid(g)
    ensures lines == RenderGraph(g).lines
  {
    var shown: set<Node> := {};
    lines := [];
    var i := 0;
    while i < |g.roots|
      invariant 0 <= i <= |g.roots| && shown <= g.nodes
      invariant RenderGraph(g).lines == lines + Outs(g, g.roots[i..], shown, 0).lines
    {
      var printed := Vertex(g, g.roots[i], shown, 0);
      assert g.roots[i..][1..] == g.roots[i + 1..];
      lines := lines + printed.lines;
      shown := printed.shown;
      i := i + 1;
    }
  }

  // ---------------------------------------------------------------------------
  // Reading a sequence of lines
  // ---------------------------------------------------------------------------

  /** The visited set after one line: only an expanded node joins it. */
  function Visit(s: set<Node>, l: Line): set<Node> {
    if l.cycle then s else s + {l.node}
  }

  /** The visited set after reading `lines` from `s`. */
  function After(lines: seq<Line>, s: set<Node>): set<Node>
    decreases |lines|
  {
    if |lines| == 0 then s else After(lines[1..], Visit(s, lines[0]))
  }

  /** Reading `lines` from `s`, a line is a cycle marker exactly when its
      node is already in the visited set at that point. */
  predicate Replays(lines: seq<Line>, s: set<Node>)
    decreases |lines|
  {
    |lines| == 0 ||
    ((lines[0].cycle <==> lines[0].node in s) && Replays(lines[1..], Visit(s, lines[0])))
  }

  /** The nodes of the lines that are not cycle markers, in order. */
  function Expanded(lines: seq<Line>): seq<Node>
    decreases |lines|
  {
    if |lines| == 0 then []
    else (if lines[0].cycle then [] else [lines[0].node]) + Expanded(lines[1..])
  }

  /** The nodes of the lines at depth `d`, in order. */
  function AtDepth(lines: seq<Line>, d: nat): seq<Node>
    decreases |lines|
  {
    if |lines| == 0 then []
    else (if lines[0].depth == d then [lines[0].node] else []) + AtDepth(lines[1..], d)
  }

  /** The total number of successors of the nodes `ns`. */
  function DegreeSum(g: Graph, ns: seq<Node>): nat
    decreases |ns|
  {
    if |ns| == 0 then 0
    else (if ns[0] in g.outs then |g.outs[ns[0]]| else 0) + DegreeSum(g, ns[1..])
  }

  /** `lines` is an outline of the graph: depth grows by at most one from a
      line to the next, and a line is followed by a deeper one exactly when
      it is an expanded node with at least one successor. */
  predicate Outline(g: Graph, lines: seq<Line>) {
    && (forall j :: 0 <= j < |lines| - 1 ==> lines[j + 1].depth <= lines[j].depth + 1)
    && (forall j :: 0 <= j < |lines| ==>
          ((j + 1 < |lines| && lines[j + 1].depth == lines[j].depth + 1) <==>
           (!lines[j].cycle && lines[j].node in g.outs && |g.outs[lines[j].node]| > 0)))
  }

  predicate NoDuplicates(ns: seq<Node>) {
    forall j, k :: 0 <= j < k < |ns| ==> ns[j] != ns[k]
  }

  // ---------------------------------------------------------------------------
  // The source's text
  // ---------------------------------------------------------------------------

  /** One indent unit, added per level of depth. */
  const Unit: string := "    -> "

  function Indent(depth: nat): string {
    if depth == 0 then "" else Indent(depth - 1) + Unit
  }

  /** A line as the source prints it, without the newline. */
  function Text(l: Line): string {
    Indent(l.depth) + l.kind + (if l.cycle then ": <cycle...>" else ":")
  }
}
