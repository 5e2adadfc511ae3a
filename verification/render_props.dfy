/*******************************************************************************
 *  Properties of the graph rendering modelled in module Render.
 *******************************************************************************/

module RenderProps {
  import opened Graphs
  import opened Render

  // ---------------------------------------------------------------------------
  // Reading lines block by block
  // ---------------------------------------------------------------------------

  lemma {:induction false} AfterConcat(a: seq<Line>, b: seq<Line>, s: set<Node>)
    ensures After(a + b, s) == After(b, After(a, s))
    decreases |a|
  {
    if |a| > 0 {
      assert (a + b)[1..] == a[1..] + b;
      AfterConcat(a[1..], b, Visit(s, a[0]));
      assert After(a + b, s) == After(a[1..] + b, Visit(s, a[0]));
    } else {
      assert a + b == b;
    }
  }

  lemma {:induction false} ReplaysConcat(a: seq<Line>, b: seq<Line>, s: set<Node>)
    ensures Replays(a + b, s) <==> Replays(a, s) && Replays(b, After(a, s))
    decreases |a|
  {
    if |a| > 0 {
      assert (a + b)[1..] == a[1..] + b;
      ReplaysConcat(a[1..], b, Visit(s, a[0]));
    } else {
      assert a + b == b;
    }
  }

  lemma {:induction false} ExpandedConcat(a: seq<Line>, b: seq<Line>)
    ensures Expanded(a + b) == Expanded(a) + Expanded(b)
    decreases |a|
  {
    if |a| > 0 {
      assert (a + b)[1..] == a[1..] + b;
      ExpandedConcat(a[1..], b);
    } else {
      assert a + b == b;
    }
  }

  lemma {:induction false} AtDepthConcat(a: seq<Line>, b: seq<Line>, d: nat)
    ensures AtDepth(a + b, d) == AtDepth(a, d) + AtDepth(b, d)
    decreases |a|
  {
    if |a| > 0 {
      assert (a + b)[1..] == a[1..] + b;
      AtDepthConcat(a[1..], b, d);
    } else {
      assert a + b == b;
    }
  }

  /** Lines all deeper than `d` contribute nothing at depth `d`. */
  lemma {:induction false} AtDepthBelow(lines: seq<Line>, d: nat)
    requires forall j :: 0 <= j < |lines| ==> lines[j].depth > d
    ensures AtDepth(lines, d) == []
    decreases |lines|
  {
    if |lines| > 0 {
      AtDepthBelow(lines[1..], d);
    }
  }

  lemma {:induction false} DegreeSumConcat(g: Graph, a: seq<Node>, b: seq<Node>)
    ensures DegreeSum(g, a + b) == DegreeSum(g, a) + DegreeSum(g, b)
    decreases |a|
  {
    if |a| > 0 {
      assert (a + b)[1..] == a[1..] + b;
      DegreeSumConcat(g, a[1..], b);
    } else {
      assert a + b == b;
    }
  }

  /** Reading lines that replay from `s`, no node is expanded twice or after
      it was already in `s`, and the visited set at the end holds exactly
      `s` and the expanded nodes. */
  lemma {:induction false} ReplaysExpandOnce(lines: seq<Line>, s: set<Node>)
    requires Replays(lines, s)
    ensures NoDuplicates(Expanded(lines))
    ensures forall w :: w in Expanded(lines) ==> w !in s
    ensures forall w :: w in After(lines, s) <==> w in s || w in Expanded(lines)
    decreases |lines|
  {
    if |lines| > 0 {
      ReplaysExpandOnce(lines[1..], Visit(s, lines[0]));
    }
  }

  /** Index form of `Replays`: line `j` is a cycle marker exactly when its
      node was in `s` or expanded on an earlier line. */
  lemma {:induction false} ReplaysAt(lines: seq<Line>, s: set<Node>, j: nat)
    requires Replays(lines, s) && j < |lines|
    ensures lines[j].cycle <==> lines[j].node in s || lines[j].node in Expanded(lines[..j])
    decreases j
  {
    if j > 0 {
      ReplaysAt(lines[1..], Visit(s, lines[0]), j - 1);
      assert lines[..j] == [lines[0]] + lines[1..][..j - 1];
      ExpandedConcat([lines[0]], lines[1..][..j - 1]);
    }
  }

  // ---------------------------------------------------------------------------
  // One call at a time (mutual induction over Vertex and Outs)
  // ---------------------------------------------------------------------------

  /** The lines of a call replay its visited set: each line is a cycle marker
      exactly when its node was already shown at that point, and the set the
      call returns is the one its lines build. */
  lemma {:induction false} ReplayVertex(g: Graph, v: Node, shown: set<Node>, depth: nat)
    requires Valid(g) && v in g.nodes && shown <= g.nodes
    ensures var r := Vertex(g, v, shown, depth);
      Replays(r.lines, shown) && After(r.lines, shown) == r.shown
    decreases g.nodes - shown, 0
  {
    if v !in shown {
      var children := Outs(g, g.outs[v], shown + {v}, depth + 1);
      ReplayOuts(g, g.outs[v], shown + {v}, depth + 1);
      var head := Line(v, depth, g.kind[v], false);
      assert ([head] + children.lines)[1..] == children.lines;
    }
  }

  lemma {:induction false} ReplayOuts(g: Graph, vs: seq<Node>, shown: set<Node>, depth: nat)
    requires Valid(g) && (forall w :: w in vs ==> w in g.nodes) && shown <= g.nodes
    ensures var r := Outs(g, vs, shown, depth);
      Replays(r.lines, shown) && After(r.lines, shown) == r.shown
    decreases g.nodes - shown, |vs| + 1
  {
    if |vs| > 0 {
      var first := Vertex(g, vs[0], shown, depth);
      var rest := Outs(g, vs[1..], first.shown, depth);
      ReplayVertex(g, vs[0], shown, depth);
      ReplayOuts(g, vs[1..], first.shown, depth);
      ReplaysConcat(first.lines, rest.lines, shown);
      AfterConcat(first.lines, rest.lines, shown);
    }
  }

  /** A call prints one line per node it is given plus one line per successor
      of every node it expands. */
  lemma {:induction false} CountVertex(g: Graph, v: Node, shown: set<Node>, depth: nat)
    requires Valid(g) && v in g.nodes && shown <= g.nodes
    ensures var r := Vertex(g, v, shown, depth);
      |r.lines| == 1 + DegreeSum(g, Expanded(r.lines))
    decreases g.nodes - shown, 0
  {
    if v !in shown {
      var children := Outs(g, g.outs[v], shown + {v}, depth + 1);
      CountOuts(g, g.outs[v], shown + {v}, depth + 1);
      var head := Line(v, depth, g.kind[v], false);
      ExpandedConcat([head], children.lines);
      DegreeSumConcat(g, [v], Expanded(children.lines));
    }
  }

  lemma {:induction false} CountOuts(g: Graph, vs: seq<Node>, shown: set<Node>, depth: nat)
    requires Valid(g) && (forall w :: w in vs ==> w in g.nodes) && shown <= g.nodes
    ensures var r := Outs(g, vs, shown, depth);
      |r.lines| == |vs| + DegreeSum(g, Expanded(r.lines))
    decreases g.nodes - shown, |vs| + 1
  {
    if |vs| > 0 {
      var first := Vertex(g, vs[0], shown, depth);
      var rest := Outs(g, vs[1..], first.shown, depth);
      CountVertex(g, vs[0], shown, depth);
      CountOuts(g, vs[1..], first.shown, depth);
      ExpandedConcat(first.lines, rest.lines);
      DegreeSumConcat(g, Expanded(first.lines), Expanded(rest.lines));
    }
  }

  /** A node's own line comes first, at its depth, with the marker exactly
      when it was already shown; everything after it is deeper; its direct
      successors appear one level down in `Outs()` order; a shown node prints
      nothing else and leaves the visited set alone. */
  lemma {:induction false} ShapeVertex(g: Graph, v: Node, shown: set<Node>, depth: nat)
    requires Valid(g) && v in g.nodes && shown <= g.nodes
    ensures var r := Vertex(g, v, shown, depth);
      && |r.lines| >= 1
      && r.lines[0] == Line(v, depth, g.kind[v], v in shown)
      && (forall j :: 1 <= j < |r.lines| ==> r.lines[j].depth > depth)
      && AtDepth(r.lines, depth) == [v]
      && (v !in shown ==> AtDepth(r.lines, depth + 1) == g.outs[v])
      && (v in shown ==> |r.lines| == 1 && r.shown == shown)
    decreases g.nodes - shown, 0
  {
    var r := Vertex(g, v, shown, depth);
    var head := Line(v, depth, g.kind[v], v in shown);
    if v !in shown {
      var children := Outs(g, g.outs[v], shown + {v}, depth + 1);
      ShapeOuts(g, g.outs[v], shown + {v}, depth + 1);
      assert r.lines == [head] + children.lines;
      AtDepthConcat([head], children.lines, depth);
      AtDepthConcat([head], children.lines, depth + 1);
      AtDepthBelow(children.lines, depth);
    }
  }

  /** The nodes given appear, in order, as the lines at the call's depth, the
      first line is the first of them, and no line is shallower. */
  lemma {:induction false} ShapeOuts(g: Graph, vs: seq<Node>, shown: set<Node>, depth: nat)
    requires Valid(g) && (forall w :: w in vs ==> w in g.nodes) && shown <= g.nodes
    ensures var r := Outs(g, vs, shown, depth);
      && (forall j :: 0 <= j < |r.lines| ==> r.lines[j].depth >= depth)
      && AtDepth(r.lines, depth) == vs
      && (|vs| == 0 <==> r.lines == [])
      && (|vs| > 0 ==> r.lines[0].node == vs[0] && r.lines[0].depth == depth)
    decreases g.nodes - shown, |vs| + 1
  {
    if |vs| > 0 {
      var first := Vertex(g, vs[0], shown, depth);
      var rest := Outs(g, vs[1..], first.shown, depth);
      ShapeVertex(g, vs[0], shown, depth);
      ShapeOuts(g, vs[1..], first.shown, depth);
      AtDepthConcat(first.lines, rest.lines, depth);
      assert vs == [vs[0]] + vs[1..];
    }
  }

  lemma OutlineCons(g: Graph, head: Line, lines: seq<Line>)
    requires Outline(g, lines)
    requires |lines| > 0 ==> lines[0].depth == head.depth + 1
    requires |lines| > 0 <==> !head.cycle && head.node in g.outs && |g.outs[head.node]| > 0
    ensures Outline(g, [head] + lines)
  {
    var all := [head] + lines;
    forall j | 1 <= j < |all|
      ensures all[j] == lines[j - 1]
    {
    }
  }

  lemma OutlineConcat(g: Graph, a: seq<Line>, b: seq<Line>)
    requires Outline(g, a) && Outline(g, b) && |a| > 0
    requires |b| > 0 ==> b[0].depth <= a[|a| - 1].depth
    ensures Outline(g, a + b)
  {
    var all := a + b;
    forall j | 0 <= j < |all|
      ensures (j + 1 < |all| && all[j + 1].depth == all[j].depth + 1) <==>
              (!all[j].cycle && all[j].node in g.outs && |g.outs[all[j].node]| > 0)
    {
      if j >= |a| {
        assert all[j] == b[j - |a|];
        if j + 1 < |all| {
          assert all[j + 1] == b[j + 1 - |a|];
        }
      } else if j < |a| - 1 {
        assert all[j + 1] == a[j + 1];
      } else {
        assert all[j] == a[|a| - 1];
        assert !(|a| - 1 + 1 < |a|);
        if |b| > 0 {
          assert all[j + 1] == b[0];
        }
      }
    }
    forall j | 0 <= j < |all| - 1
      ensures all[j + 1].depth <= all[j].depth + 1
    {
      if j >= |a| {
        assert all[j + 1] == b[j + 1 - |a|];
      }
    }
  }

  /** The lines of a call form an outline of the graph: depth never jumps by
      more than one, and a deeper line follows exactly the expanded nodes
      that have successors (so a cycle marker never has children). */
  lemma {:induction false} OutlineVertex(g: Graph, v: Node, shown: set<Node>, depth: nat)
    requires Valid(g) && v in g.nodes && shown <= g.nodes
    ensures Outline(g, Vertex(g, v, shown, depth).lines)
    decreases g.nodes - shown, 0
  {
    var head := Line(v, depth, g.kind[v], v in shown);
    if v !in shown {
      var children := Outs(g, g.outs[v], shown + {v}, depth + 1);
      OutlineOuts(g, g.outs[v], shown + {v}, depth + 1);
      ShapeOuts(g, g.outs[v], shown + {v}, depth + 1);
      OutlineCons(g, head, children.lines);
    } else {
      OutlineCons(g, head, []);
    }
  }

  lemma {:induction false} OutlineOuts(g: Graph, vs: seq<Node>, shown: set<Node>, depth: nat)
    requires Valid(g) && (forall w :: w in vs ==> w in g.nodes) && shown <= g.nodes
    ensures Outline(g, Outs(g, vs, shown, depth).lines)
    decreases g.nodes - shown, |vs| + 1
  {
    if |vs| > 0 {
      var first := Vertex(g, vs[0], shown, depth);
      var rest := Outs(g, vs[1..], first.shown, depth);
      OutlineVertex(g, vs[0], shown, depth);
      OutlineOuts(g, vs[1..], first.shown, depth);
      ShapeVertex(g, vs[0], shown, depth);
      ShapeOuts(g, vs[1..], first.shown, depth);
      OutlineConcat(g, first.lines, rest.lines);
    }
  }

  /** Every successor of a node in `added` is in `s`. */
  predicate Settled(g: Graph, added: set<Node>, s: set<Node>) {
    forall u, w :: u in added && u in g.outs && w in g.outs[u] ==> w in s
  }

  /** Every node a call adds to the visited set has all its successors in
      the set the call returns. */
  lemma {:induction false} SettledVertex(g: Graph, v: Node, shown: set<Node>, depth: nat)
    requires Valid(g) && v in g.nodes && shown <= g.nodes
    ensures var r := Vertex(g, v, shown, depth); Settled(g, r.shown - shown, r.shown)
    decreases g.nodes - shown, 0
  {
    if v !in shown {
      SettledOuts(g, g.outs[v], shown + {v}, depth + 1);
    }
  }

  lemma {:induction false} SettledOuts(g: Graph, vs: seq<Node>, shown: set<Node>, depth: nat)
    requires Valid(g) && (forall w :: w in vs ==> w in g.nodes) && shown <= g.nodes
    ensures var r := Outs(g, vs, shown, depth); Settled(g, r.shown - shown, r.shown)
    decreases g.nodes - shown, |vs| + 1
  {
    if |vs| > 0 {
      var first := Vertex(g, vs[0], shown, depth);
      SettledVertex(g, vs[0], shown, depth);
      SettledOuts(g, vs[1..], first.shown, depth);
    }
  }

  /** A call only adds nodes that lie in every closed set holding the nodes
      it is given. */
  lemma {:induction false} MinimalVertex(g: Graph, v: Node, shown: set<Node>, depth: nat, c: set<Node>)
    requires Valid(g) && v in g.nodes && shown <= g.nodes
    requires Closed(g, c) && v in c
    ensures Vertex(g, v, shown, depth).shown - shown <= c
    decreases g.nodes - shown, 0
  {
    if v !in shown {
      MinimalOuts(g, g.outs[v], shown + {v}, depth + 1, c);
    }
  }

  lemma {:induction false} MinimalOuts(g: Graph, vs: seq<Node>, shown: set<Node>, depth: nat, c: set<Node>)
    requires Valid(g) && (forall w :: w in vs ==> w in g.nodes) && shown <= g.nodes
    requires Closed(g, c) && (forall w :: w in vs ==> w in c)
    ensures Outs(g, vs, shown, depth).shown - shown <= c
    decreases g.nodes - shown, |vs| + 1
  {
    if |vs| > 0 {
      var first := Vertex(g, vs[0], shown, depth);
      MinimalVertex(g, vs[0], shown, depth, c);
      MinimalOuts(g, vs[1..], first.shown, depth, c);
    }
  }

  // ---------------------------------------------------------------------------
  // The whole rendering
  // ---------------------------------------------------------------------------

  /** No roots, no output. */
  lemma RenderEmpty(g: Graph)
    requires Valid(g) && g.roots == []
    ensures RenderGraph(g).lines == []
  {
  }

  /** After rendering, the visited set holds exactly the nodes reachable from
      the roots. */
  lemma ShownIsReachable(g: Graph, w: Node)
    requires Valid(g)
    ensures w in RenderGraph(g).shown <==> Reachable(g, w)
  {
    var r := RenderGraph(g);
    ReachableSetClosed(g);
    var reach := set u | u in g.nodes && Reachable(g, u);
    MinimalOuts(g, g.roots, {}, 0, reach);
    SettledOuts(g, g.roots, {}, 0);
    assert Closed(g, r.shown);
    if w in r.shown {
      assert w in reach;
    }
    if Reachable(g, w) {
      ReachableInClosed(g, r.shown, w);
    }
  }

  /** Every node reachable from the roots is expanded on exactly one line,
      and no other node is expanded. */
  lemma ExpandsReachableOnce(g: Graph)
    requires Valid(g)
    ensures NoDuplicates(Expanded(RenderGraph(g).lines))
    ensures forall w :: w in Expanded(RenderGraph(g).lines) <==> Reachable(g, w)
  {
    var r := RenderGraph(g);
    ReplayOuts(g, g.roots, {}, 0);
    ReplaysExpandOnce(r.lines, {});
    forall w
      ensures w in Expanded(r.lines) <==> Reachable(g, w)
    {
      ShownIsReachable(g, w);
    }
  }

  /** A line is a cycle marker exactly when its node was expanded on an
      earlier line: the visited set is shared by all roots, so this holds
      across roots as well as within one. */
  lemma CycleMarkers(g: Graph, j: nat)
    requires Valid(g) && j < |RenderGraph(g).lines|
    ensures var lines := RenderGraph(g).lines;
      lines[j].cycle <==> lines[j].node in Expanded(lines[..j])
  {
    ReplayOuts(g, g.roots, {}, 0);
    ReplaysAt(RenderGraph(g).lines, {}, j);
  }

  /** The output has one line per root plus one per successor of every
      expanded node. */
  lemma LineCount(g: Graph)
    requires Valid(g)
    ensures |RenderGraph(g).lines| == |g.roots| + DegreeSum(g, Expanded(RenderGraph(g).lines))
  {
    CountOuts(g, g.roots, {}, 0);
  }

  /** The lines at depth 0 are the roots in order, and the output is an
      outline of the graph. */
  lemma RenderShape(g: Graph)
    requires Valid(g)
    ensures AtDepth(RenderGraph(g).lines, 0) == g.roots
    ensures Outline(g, RenderGraph(g).lines)
  {
    ShapeOuts(g, g.roots, {}, 0);
    OutlineOuts(g, g.roots, {}, 0);
  }

  // ---------------------------------------------------------------------------
  // Concrete graphs
  // ---------------------------------------------------------------------------

  /** A single successor renders as that successor alone. */
  lemma OutsSingle(g: Graph, v: Node, shown: set<Node>, depth: nat)
    requires Valid(g) && v in g.nodes && shown <= g.nodes
    ensures Outs(g, [v], shown, depth) == Vertex(g, v, shown, depth)
  {
    var first := Vertex(g, v, shown, depth);
    assert [v][1..] == [];
    assert first.lines + [] == first.lines;
  }

  /** The cycle A -> B -> C -> A, with A the only root. */
  function CycleGraph(): (g: Graph)
    ensures Valid(g)
  {
    Graph({0, 1, 2}, map[0 := "A", 1 := "B", 2 := "C"], map[0 := [1], 1 := [2], 2 := [0]], [0])
  }

  /** The cycle ends: A, B and C are printed once each, then A again as the
      cycle marker three levels down. */
  lemma CycleRendering()
    ensures RenderGraph(CycleGraph()).lines ==
      [Line(0, 0, "A", false), Line(1, 1, "B", false), Line(2, 2, "C", false), Line(0, 3, "A", true)]
  {
    var g := CycleGraph();
    var a3 := Vertex(g, 0, {0, 1, 2}, 3);
    assert a3 == Output([Line(0, 3, "A", true)], {0, 1, 2});
    OutsSingle(g, 0, {0, 1, 2}, 3);
    var c2 := Vertex(g, 2, {0, 1}, 2);
    assert g.outs[2] == [0] && g.kind[2] == "C" && 2 !in {0, 1} && {0, 1} + {2} == {0, 1, 2};
    assert c2.lines == [Line(2, 2, "C", false), Line(0, 3, "A", true)];
    OutsSingle(g, 2, {0, 1}, 2);
    var b1 := Vertex(g, 1, {0}, 1);
    assert g.outs[1] == [2] && g.kind[1] == "B" && 1 !in {0} && {0} + {1} == {0, 1};
    assert b1.lines == [Line(1, 1, "B", false)] + c2.lines;
    OutsSingle(g, 1, {0}, 1);
    var a0 := Vertex(g, 0, {}, 0);
    assert g.outs[0] == [1] && g.kind[0] == "A" && {} + {0} == {0};
    assert a0.lines == [Line(0, 0, "A", false)] + b1.lines;
    OutsSingle(g, 0, {}, 0);
  }

  /** The diamond A -> B, A -> C, B -> D, C -> D, with A the only root. */
  function DiamondGraph(): (g: Graph)
    ensures Valid(g)
  {
    Graph({0, 1, 2, 3}, map[0 := "A", 1 := "B", 2 := "C", 3 := "D"],
          map[0 := [1, 2], 1 := [3], 2 := [3], 3 := []], [0])
  }

  /** The shared node D is expanded under B, which comes first, and printed
      as a cycle marker under C although the graph has no cycle. */
  lemma DiamondRendering()
    ensures RenderGraph(DiamondGraph()).lines ==
      [Line(0, 0, "A", false), Line(1, 1, "B", false), Line(3, 2, "D", false),
       Line(2, 1, "C", false), Line(3, 2, "D", true)]
  {
    var g := DiamondGraph();
    var d2 := Vertex(g, 3, {0, 1}, 2);
    assert g.outs[3] == [] && g.kind[3] == "D" && 3 !in {0, 1} && {0, 1} + {3} == {0, 1, 3};
    assert d2 == Output([Line(3, 2, "D", false)], {0, 1, 3});
    OutsSingle(g, 3, {0, 1}, 2);
    var b1 := Vertex(g, 1, {0}, 1);
    assert g.outs[1] == [3] && g.kind[1] == "B" && 1 !in {0} && {0} + {1} == {0, 1};
    assert b1 == Output([Line(1, 1, "B", false), Line(3, 2, "D", false)], {0, 1, 3});
    var d2again := Vertex(g, 3, {0, 1, 2, 3}, 2);
    assert d2again == Output([Line(3, 2, "D", true)], {0, 1, 2, 3});
    OutsSingle(g, 3, {0, 1, 2, 3}, 2);
    var c1 := Vertex(g, 2, {0, 1, 3}, 1);
    assert g.outs[2] == [3] && g.kind[2] == "C" && 2 !in {0, 1, 3} && {0, 1, 3} + {2} == {0, 1, 2, 3};
    assert c1 == Output([Line(2, 1, "C", false), Line(3, 2, "D", true)], {0, 1, 2, 3});
    OutsSingle(g, 2, {0, 1, 3}, 1);
    assert [1, 2][1..] == [2];
    var kids := Outs(g, [1, 2], {0}, 1);
    assert kids.lines == b1.lines + c1.lines;
    assert g.outs[0] == [1, 2] && g.kind[0] == "A" && {} + {0} == {0};
    assert Vertex(g, 0, {}, 0).lines == [Line(0, 0, "A", false)] + kids.lines;
    OutsSingle(g, 0, {}, 0);
  }

  // ---------------------------------------------------------------------------
  // The printed text
  // ---------------------------------------------------------------------------

  /** The indent of depth `d` is `d` copies of the unit, seven characters each. */
  lemma {:induction false} IndentShape(d: nat)
    ensures |Indent(d)| == 7 * d
    ensures forall k :: 0 <= k < d ==> Indent(d)[7 * k..7 * k + 7] == Unit
    decreases d
  {
    if d > 0 {
      IndentShape(d - 1);
      var prev := Indent(d - 1);
      assert Indent(d) == prev + Unit;
      forall k | 0 <= k < d
        ensures Indent(d)[7 * k..7 * k + 7] == Unit
      {
        if k < d - 1 {
          assert Indent(d)[7 * k..7 * k + 7] == prev[7 * k..7 * k + 7];
        } else {
          assert Indent(d)[7 * k..7 * k + 7] == Unit;
        }
      }
    }
  }

  /** A printed line is the indent, then the type name, then a final ':' or,
      for a cycle marker, a final '>' of `<cycle...>`. */
  lemma TextShape(l: Line)
    ensures var t := Text(l);
      && |t| > 7 * l.depth + |l.kind|
      && t[..7 * l.depth] == Indent(l.depth)
      && t[7 * l.depth..7 * l.depth + |l.kind|] == l.kind
      && t[7 * l.depth + |l.kind|] == ':'
      && t[7 * l.depth + |l.kind| + 1..] == (if l.cycle then " <cycle...>" else "")
      && (t[|t| - 1] == '>' <==> l.cycle)
  {
    IndentShape(l.depth);
    var t := Text(l);
    var n := 7 * l.depth;
    var tail := if l.cycle then ": <cycle...>" else ":";
    assert t == Indent(l.depth) + l.kind + tail;
    assert t[n..n + |l.kind|] == l.kind;
    assert t[n + |l.kind|..] == tail;
  }
}
