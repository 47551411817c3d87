/**
 * `sugiyama_method` of src/sugiyama.rs: cycle removal on a working copy of
 * the graph, longest-path layering with placeholders along a topological
 * order of that copy, and the median pass over the layers. The feedback
 * arc set and the topological order that petgraph computes are inputs.
 */
module Sugiyama {
  import opened Wrappers
  import opened Graphs
  import opened Layers
  import opened Layering
  import opened Cycles
  import opened LayeredGraphs

  /** The `layers` and `node_to_layer` fields of `lg` as one value. */
  function LayoutOf<T, E>(lg: LayeredGraph<T, E>): Layout
    reads lg
  {
    Layout(lg.layers, lg.nodeToLayer)
  }

  /** Step 1: every edge of the feedback arc set `fas` of the copy of `edges` is turned around. */
  method ReverseFeedbackArcs<E>(edges: seq<Edge<E>>, fas: seq<nat>) returns (internal: seq<Edge<E>>)
    requires forall k :: 0 <= k < |fas| ==> fas[k] < |edges|
    ensures internal == ReverseArcs(edges, edges, fas)
  {
    internal := edges;
    for k := 0 to |fas|
      invariant |internal| == |edges|
      invariant ReverseArcs(internal, edges, fas[k..]) == ReverseArcs(edges, edges, fas)
    {
      assert fas[k..][1..] == fas[k + 1..];
      internal := internal[fas[k] := Reversed(edges[fas[k]])];
    }
  }

  /**
   * The highest layer among the in-neighbours `ns`, read from
   * `node_to_layer`; `found` is false where an `unwrap` in the source panics.
   */
  method HighestLayer(nodeToLayer: map<nat, nat>, ns: seq<nat>) returns (found: bool, m: nat)
    requires ns != []
    ensures found <==> forall u :: u in ns ==> u in nodeToLayer
    ensures found ==> m == MaxLayer(nodeToLayer, ns)
  {
    var j := |ns| - 1;
    if ns[j] !in nodeToLayer {
      return false, 0;
    }
    m := nodeToLayer[ns[j]];
    assert ns[j..] == [ns[j]];
    while j > 0
      invariant 0 <= j < |ns|
      invariant forall u :: u in ns[j..] ==> u in nodeToLayer
      invariant m == MaxLayer(nodeToLayer, ns[j..])
    {
      j := j - 1;
      if ns[j] !in nodeToLayer {
        return false, 0;
      }
      var here := nodeToLayer[ns[j]];
      HighestStep(nodeToLayer, ns, j, m);
      m := if here >= m then here else m;
    }
    assert ns[0..] == ns;
    found := true;
  }

  /** One more in-neighbour, from the back: the highest layer so far or the new one's. */
  lemma HighestStep(nodeToLayer: map<nat, nat>, ns: seq<nat>, j: nat, m: nat)
    requires j + 1 < |ns| && ns[j] in nodeToLayer
    requires forall u :: u in ns[j + 1..] ==> u in nodeToLayer
    requires m == MaxLayer(nodeToLayer, ns[j + 1..])
    ensures forall u :: u in ns[j..] ==> u in nodeToLayer
    ensures MaxLayer(nodeToLayer, ns[j..]) == if nodeToLayer[ns[j]] >= m then nodeToLayer[ns[j]] else m
  {
    assert ns[j..] == [ns[j]] + ns[j + 1..];
    assert ns[j..][1..] == ns[j + 1..];
  }

  /** A placeholder in every layer from `from` up to `to`, exclusive. */
  method FillGapOf<T, E>(lg: LayeredGraph<T, E>, from: nat, to: nat)
    modifies lg
    ensures LayoutOf(lg) == FillGap(old(LayoutOf(lg)), from, to)
  {
    if from < to {
      for i := from to to
        invariant FillGap(LayoutOf(lg), i, to) == FillGap(old(LayoutOf(lg)), from, to)
      {
        lg.AddNodeToLayer(Placeholder, i);
      }
    }
  }

  /** For each in-neighbour in `ns`, a placeholder in every layer strictly between it and `top`. */
  method FillGapsOf<T, E>(lg: LayeredGraph<T, E>, ns: seq<nat>, top: nat)
    requires forall u :: u in ns ==> u in lg.nodeToLayer
    modifies lg
    ensures LayoutOf(lg) == FillGaps(old(LayoutOf(lg)), ns, top)
  {
    for j := 0 to |ns|
      invariant forall u :: u in ns[j..] ==> u in lg.nodeToLayer
      invariant FillGaps(LayoutOf(lg), ns[j..], top) == FillGaps(old(LayoutOf(lg)), ns, top)
    {
      var neighbourLayer := lg.nodeToLayer[ns[j]];
      assert ns[j..] == [ns[j]] + ns[j + 1..];
      FillGapOf(lg, neighbourLayer + 1, top);
    }
  }

  /** One iteration of the layering loop, for `node`; `ok` is false where the source panics. */
  method PlaceNodeOf<T, E>(lg: LayeredGraph<T, E>, internal: seq<Edge<E>>, node: nat) returns (ok: bool)
    modifies lg
    ensures ok <==> PlaceNodeAt(old(LayoutOf(lg)), node, internal).Some?
    ensures ok ==> LayoutOf(lg) == PlaceNodeAt(old(LayoutOf(lg)), node, internal).value
  {
    var ns := Incoming(internal, node);
    if |ns| == 0 {
      lg.AddNodeToLayer(node, 0);
      return true;
    }
    var found, highest := HighestLayer(lg.nodeToLayer, ns);
    if !found {
      return false;
    }
    var maxLayer := highest + 1;
    FillGapsOf(lg, ns, maxLayer);
    lg.AddNodeToLayer(node, maxLayer);
    ok := true;
  }

  /** Step 2: the layering loop over the topological order `order` of the working edges. */
  method AssignLayers<T, E>(lg: LayeredGraph<T, E>, internal: seq<Edge<E>>, order: seq<nat>) returns (ok: bool)
    modifies lg
    ensures ok <==> LayerAll(old(LayoutOf(lg)), order, internal).Some?
    ensures ok ==> LayoutOf(lg) == LayerAll(old(LayoutOf(lg)), order, internal).value
  {
    for k := 0 to |order|
      invariant LayerAll(LayoutOf(lg), order[k..], internal) == LayerAll(old(LayoutOf(lg)), order, internal)
    {
      assert order[k..][1..] == order[k + 1..];
      var placed := PlaceNodeOf(lg, internal, order[k]);
      if !placed {
        return false;
      }
    }
    ok := true;
  }

  /**
   * The whole method on `graph`, given the feedback arc set `fas` of the
   * graph and a topological order `order` of the graph with `fas` turned
   * around. The layering always succeeds; `ok` is false where the median
   * pass panics. The median pass reads the original graph's edges.
   */
  method SugiyamaMethod<T, E>(graph: Graph<T, E>, fas: seq<nat>, order: seq<nat>) returns (lg: LayeredGraph<T, E>, ok: bool)
    requires forall k :: 0 <= k < |fas| ==> fas[k] < |graph.edges|
    requires |graph.nodes| <= Placeholder
    requires IsTopologicalOrder(order, |graph.nodes|, ReverseArcs(graph.edges, graph.edges, fas))
    ensures fresh(lg) && lg.graph == graph
    ensures LayerAll(Layout([], map[]), order, ReverseArcs(graph.edges, graph.edges, fas)).Some?
    ensures var laid := LayerAll(Layout([], map[]), order, ReverseArcs(graph.edges, graph.edges, fas)).value;
      && lg.nodeToLayer == laid.nodeToLayer
      && (ok <==> Minimize(laid.layers, graph.edges).Some?)
      && (ok ==> lg.layers == Minimize(laid.layers, graph.edges).value)
  {
    var internal := ReverseFeedbackArcs(graph.edges, fas);
    lg := new LayeredGraph(graph);
    LayeringGood(Graph(graph.nodes, internal), order);
    var laidOut := AssignLayers(lg, internal, order);
    ok := lg.CrossingMinimization();
  }

  /**
   * An edge of the working graph that skips a layer puts a placeholder in
   * a layer below the top one, and the median pass then always panics:
   * the placeholder has no in-neighbours in the graph, so its median is
   * taken over an empty list.
   */
  lemma LongEdgeFails<T, E>(graph: Graph<T, E>, fas: seq<nat>, order: seq<nat>, e: Edge<E>)
    requires WellFormed(graph)
    requires forall k :: 0 <= k < |fas| ==> fas[k] < |graph.edges|
    requires |graph.nodes| <= Placeholder
    requires IsTopologicalOrder(order, |graph.nodes|, ReverseArcs(graph.edges, graph.edges, fas))
    requires e in ReverseArcs(graph.edges, graph.edges, fas)
    requires var laid := LayerAll(Layout([], map[]), order, ReverseArcs(graph.edges, graph.edges, fas));
      && laid.Some? && e.source in laid.value.nodeToLayer && e.target in laid.value.nodeToLayer
      && laid.value.nodeToLayer[e.source] + 1 < laid.value.nodeToLayer[e.target]
    ensures Minimize(LayerAll(Layout([], map[]), order, ReverseArcs(graph.edges, graph.edges, fas)).value.layers, graph.edges).None?
  {
    var internal := ReverseArcs(graph.edges, graph.edges, fas);
    var laid := LayerAll(Layout([], map[]), order, internal).value;
    LayeringGood(Graph(graph.nodes, internal), order);
    SkippedLayersHold(laid, (set v | v in order), internal);
    var i := laid.nodeToLayer[e.source] + 1;
    assert Holds(laid.layers, i, Placeholder);
    var slot :| slot in laid.layers[i] && laid.layers[i][slot] == Placeholder;
    PlaceholderFails(graph, laid.layers, i, slot);
  }

  /** Four boxes in a diamond: `0 -> 1`, `0 -> 2`, `1 -> 3` and `2 -> 3`. */
  function Diamond(): seq<Edge<Option<string>>> {
    [Edge(0, 1, None), Edge(0, 2, None), Edge(1, 3, None), Edge(2, 3, None)]
  }

  /**
   * The diamond is laid out in three layers: its top in layer 0, the two
   * middle boxes in layer 1 and its bottom in layer 2, so no edge skips a layer.
   */
  lemma DiamondLayers()
    ensures LayerAll(Layout([], map[]), [0, 1, 2, 3], Diamond()).Some?
    ensures var ntl := LayerAll(Layout([], map[]), [0, 1, 2, 3], Diamond()).value.nodeToLayer;
      && 0 in ntl && 1 in ntl && 2 in ntl && 3 in ntl
      && ntl[0] == 0 && ntl[1] == 1 && ntl[2] == 1 && ntl[3] == 2
  {
    DiamondOrder();
    DiamondNodes();
    DiamondIncoming();
    DiamondLayersAlong([0, 1, 2, 3], Diamond());
  }

  /** The diamond's layers, with the order and the edges as variables so that the layering is not unfolded on literals. */
  lemma DiamondLayersAlong(order: seq<nat>, edges: seq<Edge<Option<string>>>)
    requires IsTopologicalOrder(order, 4, edges) && (set v | v in order) == {0, 1, 2, 3}
    requires Incoming(edges, 0) == [] && Incoming(edges, 1) == [0] && Incoming(edges, 2) == [0]
    requires Incoming(edges, 3) == [1, 2]
    ensures LayerAll(Layout([], map[]), order, edges).Some?
    ensures var ntl := LayerAll(Layout([], map[]), order, edges).value.nodeToLayer;
      && 0 in ntl && 1 in ntl && 2 in ntl && 3 in ntl
      && ntl[0] == 0 && ntl[1] == 1 && ntl[2] == 1 && ntl[3] == 2
  {
    LayeringLayered(Graph(["n0", "n1", "n2", "n3"], edges), order);
    DiamondLayersOf(LayerAll(Layout([], map[]), order, edges).value, (set v | v in order), edges);
  }

  /** The layers that longest-path layering gives the diamond's four nodes. */
  lemma DiamondLayersOf(l: Layout, done: set<nat>, edges: seq<Edge<Option<string>>>)
    requires Layered(l, done, edges) && done == {0, 1, 2, 3}
    requires Incoming(edges, 0) == [] && Incoming(edges, 1) == [0] && Incoming(edges, 2) == [0]
    requires Incoming(edges, 3) == [1, 2]
    ensures 0 in l.nodeToLayer && 1 in l.nodeToLayer && 2 in l.nodeToLayer && 3 in l.nodeToLayer
    ensures l.nodeToLayer[0] == 0 && l.nodeToLayer[1] == 1 && l.nodeToLayer[2] == 1 && l.nodeToLayer[3] == 2
  {
    LayerOfNode(l, done, edges, 0);
    LayerOfNode(l, done, edges, 1);
    LayerOfNode(l, done, edges, 2);
    LayerOfNode(l, done, edges, 3);
    DiamondArithmetic(l.nodeToLayer);
  }

  /** Layer 0 for the top, one more for each middle box, and one more than the higher of them for the bottom. */
  lemma DiamondArithmetic(ntl: map<nat, nat>)
    requires 0 in ntl && 1 in ntl && 2 in ntl && 3 in ntl
    requires ntl[0] == 0 && ntl[1] == MaxLayer(ntl, [0]) + 1 && ntl[2] == MaxLayer(ntl, [0]) + 1
    requires ntl[3] == MaxLayer(ntl, [1, 2]) + 1
    ensures ntl[0] == 0 && ntl[1] == 1 && ntl[2] == 1 && ntl[3] == 2
  {
    assert [1, 2][1..] == [2];
  }

  /** `0, 1, 2, 3` is a topological order of the diamond. */
  lemma DiamondOrder()
    ensures IsTopologicalOrder([0, 1, 2, 3], 4, Diamond())
  {
    var edges := Diamond();
    CountingPositions();
    assert forall e :: e in edges ==> e == edges[0] || e == edges[1] || e == edges[2] || e == edges[3];
  }

  lemma DiamondNodes()
    ensures (set v | v in [0, 1, 2, 3]) == {0, 1, 2, 3}
  {
  }

  /** The in-neighbours of each node of the diamond, in edge order. */
  lemma DiamondIncoming()
    ensures Incoming(Diamond(), 0) == [] && Incoming(Diamond(), 1) == [0] && Incoming(Diamond(), 2) == [0]
    ensures Incoming(Diamond(), 3) == [1, 2]
  {
    var e0, e1, e2, e3 := Edge(0, 1, None), Edge(0, 2, None), Edge(1, 3, None), Edge(2, 3, None);
    assert Diamond() == [e0, e1, e2] + [e3];
    assert [e0, e1, e2] == [e0, e1] + [e2] && [e0, e1] == [e0] + [e1] && [e0] == [] + [e0];
    forall n: nat ensures Incoming(Diamond(), n) ==
      (if n == 1 then [0] else []) + (if n == 2 then [0] else []) + (if n == 3 then [1] else []) + (if n == 3 then [2] else [])
    {
      IncomingSnoc([], e0, n);
      IncomingSnoc([e0], e1, n);
      IncomingSnoc([e0, e1], e2, n);
      IncomingSnoc([e0, e1, e2], e3, n);
    }
  }

  /** One more edge adds its source to the in-neighbours of its target only. */
  lemma IncomingSnoc<E>(edges: seq<Edge<E>>, e: Edge<E>, n: nat)
    ensures Incoming(edges + [e], n) == Incoming(edges, n) + if e.target == n then [e.source] else []
  {
    assert (edges + [e])[..|edges|] == edges;
  }
}
