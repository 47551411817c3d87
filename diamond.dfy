/**
 * One whole run of `sugiyama_method` of src/sugiyama.rs, worked out: the
 * diamond `0 -> 1`, `0 -> 2`, `1 -> 3`, `2 -> 3` has no cycle, so no arc is
 * turned around; its layering needs no placeholder, and the median pass
 * runs to the end and leaves every layer as the layering built it.
 */
module DiamondRun {
  import opened Wrappers
  import opened Slots
  import opened Median
  import opened Graphs
  import opened Layers
  import opened Layering
  import opened Cycles
  import opened LayeredGraphs
  import opened Sugiyama

  /** The layers of the diamond: its top, its two middle boxes side by side, its bottom. */
  function DiamondLayout(): Layout {
    Layout([map[0 := 0], map[0 := 1, 1 := 2], map[0 := 3]], map[0 := 0, 1 := 1, 2 := 1, 3 := 2])
  }

  /** The layering loop is one step for the head of the order and then the loop over the rest. */
  lemma LayerAllStep<E>(l: Layout, order: seq<nat>, edges: seq<Edge<E>>, next: Layout)
    requires order != [] && PlaceNodeAt(l, order[0], edges) == Some(next)
    ensures LayerAll(l, order, edges) == LayerAll(next, order[1..], edges)
  {
  }

  /** A node without in-neighbours opens layer 0 of an empty layout. */
  lemma StepTop<E>(edges: seq<Edge<E>>, node: nat)
    requires Incoming(edges, node) == []
    ensures PlaceNodeAt(Layout([], map[]), node, edges) == Some(Layout([map[0 := node]], map[node := 0]))
  {
    var r := Place([], node, 0);
    assert NextSlot(map[]) == 0;
    assert r[0].Keys == {0};
    assert r == [map[0 := node]];
  }

  /** The first middle box opens layer 1 under the top. */
  lemma StepFirstMiddle<E>(edges: seq<Edge<E>>, top: nat, node: nat)
    requires Incoming(edges, node) == [top] && top != node
    ensures PlaceNodeAt(Layout([map[0 := top]], map[top := 0]), node, edges)
      == Some(Layout([map[0 := top], map[0 := node]], map[top := 0, node := 1]))
  {
    var l := Layout([map[0 := top]], map[top := 0]);
    assert MaxLayer(l.nodeToLayer, [top]) == 0;
    assert FillGaps(l, [top], 1) == l by {
      assert FillGap(l, 1, 1) == l;
    }
    var r := Place(l.layers, node, 1);
    assert NextSlot(map[]) == 0;
    assert r[1].Keys == {0};
    assert r == [map[0 := top], map[0 := node]];
  }

  /** The second middle box goes next to the first, at slot 1 of layer 1. */
  lemma StepSecondMiddle<E>(edges: seq<Edge<E>>, top: nat, m1: nat, m2: nat)
    requires Incoming(edges, m2) == [top] && top != m2 && top != m1 && m1 != m2
    ensures PlaceNodeAt(Layout([map[0 := top], map[0 := m1]], map[top := 0, m1 := 1]), m2, edges)
      == Some(Layout([map[0 := top], map[0 := m1, 1 := m2]], map[top := 0, m1 := 1, m2 := 1]))
  {
    var l := Layout([map[0 := top], map[0 := m1]], map[top := 0, m1 := 1]);
    assert MaxLayer(l.nodeToLayer, [top]) == 0;
    assert FillGaps(l, [top], 1) == l by {
      assert FillGap(l, 1, 1) == l;
    }
    var r := Place(l.layers, m2, 1);
    assert NextSlot(map[0 := m1]) == 1 by {
      assert map[0 := m1].Keys == {0};
    }
    assert r[1].Keys == {0, 1};
    assert r == [map[0 := top], map[0 := m1, 1 := m2]];
  }

  /** The bottom goes to layer 2, one below both middle boxes. */
  lemma StepBottom<E>(edges: seq<Edge<E>>, top: nat, m1: nat, m2: nat, bottom: nat)
    requires Incoming(edges, bottom) == [m1, m2]
    requires top != m1 && top != m2 && m1 != m2 && bottom != top && bottom != m1 && bottom != m2
    ensures PlaceNodeAt(Layout([map[0 := top], map[0 := m1, 1 := m2]], map[top := 0, m1 := 1, m2 := 1]), bottom, edges)
      == Some(Layout([map[0 := top], map[0 := m1, 1 := m2], map[0 := bottom]], map[top := 0, m1 := 1, m2 := 1, bottom := 2]))
  {
    var l := Layout([map[0 := top], map[0 := m1, 1 := m2]], map[top := 0, m1 := 1, m2 := 1]);
    assert [m1, m2][1..] == [m2];
    assert MaxLayer(l.nodeToLayer, [m1, m2]) == 1;
    assert FillGaps(l, [m1, m2], 2) == l by {
      assert FillGap(l, 2, 2) == l;
      assert FillGaps(l, [m2], 2) == l;
    }
    var r := Place(l.layers, bottom, 2);
    assert NextSlot(map[]) == 0;
    assert r[2].Keys == {0};
    assert r == [map[0 := top], map[0 := m1, 1 := m2], map[0 := bottom]];
  }

  /** The layering of the diamond along `0, 1, 2, 3`, slot by slot. */
  lemma DiamondLaidOut()
    ensures LayerAll(Layout([], map[]), [0, 1, 2, 3], Diamond()) == Some(DiamondLayout())
  {
    var d := Diamond();
    DiamondIncoming();
    StepTop(d, 0);
    StepFirstMiddle(d, 0, 1);
    StepSecondMiddle(d, 0, 1, 2);
    StepBottom(d, 0, 1, 2, 3);
    var l1 := Layout([map[0 := 0]], map[0 := 0]);
    var l2 := Layout([map[0 := 0], map[0 := 1]], map[0 := 0, 1 := 1]);
    var l3 := Layout([map[0 := 0], map[0 := 1, 1 := 2]], map[0 := 0, 1 := 1, 2 := 1]);
    var l4 := Layout([map[0 := 0], map[0 := 1, 1 := 2], map[0 := 3]], map[0 := 0, 1 := 1, 2 := 1, 3 := 2]);
    assert l4 == DiamondLayout();
    LayersAlong(d, l1, l2, l3, l4, [0, 1, 2, 3]);
  }

  lemma LayersAlong<E>(d: seq<Edge<E>>, l1: Layout, l2: Layout, l3: Layout, l4: Layout, order: seq<nat>)
    requires |order| == 4
    requires PlaceNodeAt(Layout([], map[]), order[0], d) == Some(l1)
    requires PlaceNodeAt(l1, order[1], d) == Some(l2)
    requires PlaceNodeAt(l2, order[2], d) == Some(l3)
    requires PlaceNodeAt(l3, order[3], d) == Some(l4)
    ensures LayerAll(Layout([], map[]), order, d) == Some(l4)
  {
    LayerAllStep(Layout([], map[]), order, d, l1);
    LayerAllStep(l1, order[1..], d, l2);
    LayerAllStep(l2, order[2..], d, l3);
    assert order[1..][1..] == order[2..] && order[2..][1..] == order[3..] && order[3..][1..] == [];
    LayerAllStep(l3, order[3..], d, l4);
  }

  /** The slots of a one-slot layer. */
  lemma AscendingOne(a: nat)
    ensures Ascending({a}) == [a]
  {
    assert MinOf({a}) == a;
    assert {a} - {a} == {};
  }

  /** The slots of a two-slot layer, smaller first. */
  lemma AscendingTwo(a: nat, b: nat)
    requires a < b
    ensures Ascending({a, b}) == [a, b]
  {
    assert MinOf({a, b}) == a;
    assert {a, b} - {a} == {b};
    AscendingOne(b);
  }

  /** A one-node layer is rearranged to the node's median slot. */
  lemma ReorderOne(curr: Layer, k: nat, x: nat, median: nat -> Option<nat>, m: nat)
    requires curr == map[k := x] && median(x) == Some(m)
    ensures ReorderWith(curr, median) == Some(map[m := x])
  {
    assert curr.Keys == {k};
    AscendingOne(k);
    var ks := Ascending(curr.Keys);
    assert |ks| == 1 && ks[0] == k;
    var empty: Layer := map[];
    FirstFreeIs(empty, m, m);
    PlaceFromStep(curr, ks, 0, empty, median);
  }

  /** Two nodes of a layer with the same median slot go to that slot and the one after it, in slot order. */
  lemma ReorderTwo(curr: Layer, k1: nat, k2: nat, x1: nat, x2: nat, median: nat -> Option<nat>, m: nat)
    requires k1 < k2 && curr == map[k1 := x1, k2 := x2] && median(x1) == Some(m) && median(x2) == Some(m)
    ensures ReorderWith(curr, median) == Some(map[m := x1, m + 1 := x2])
  {
    assert curr.Keys == {k1, k2};
    AscendingTwo(k1, k2);
    var ks := Ascending(curr.Keys);
    assert |ks| == 2 && ks[0] == k1 && ks[1] == k2;
    var empty: Layer := map[];
    var first := empty[m := x1];
    FirstFreeIs(empty, m, m);
    FirstFreeNext(first, m);
    PlaceFromStep(curr, ks, 0, empty, median);
    PlaceFromStep(curr, ks, 1, first, median);
    assert first[m + 1 := x2] == map[m := x1, m + 1 := x2];
  }

  /** The first free slot from a taken slot whose successor is free is that successor. */
  lemma FirstFreeNext(layer: Layer, p: nat)
    requires p in layer && p + 1 !in layer
    ensures FirstFree(layer, p) == p + 1
  {
    FirstFreeIs(layer, p, p + 1);
  }

  /** A node's median slot is the median of the slots of its in-neighbours in `prev`. */
  lemma MedianSlotIs<E>(prev: Layer, edges: seq<Edge<E>>, node: nat, slots: seq<nat>, m: nat)
    requires PrevSlots(prev, Ascending(prev.Keys), Neighbours(edges, node)) == slots
    requires ComputeMedian(slots) == Some(m)
    ensures MedianSlot(prev, edges, node) == Some(m)
  {
  }

  /** The median of one number is that number. */
  lemma MedianSingle(k: nat)
    ensures ComputeMedian([k]) == Some(k)
  {
    MedianOfSorted([k], [k]);
  }

  /** The median of two neighbouring numbers is the smaller one. */
  lemma MedianAdjacent(s: seq<nat>, a: nat)
    requires |s| == 2 && s[0] == a && s[1] == a + 1
    ensures ComputeMedian(s) == Some(a)
  {
    MedianTwo(s);
  }

  /** The median of two ordered numbers is the floor of their mean. */
  lemma MedianTwo(s: seq<nat>)
    requires |s| == 2 && s[0] <= s[1]
    ensures ComputeMedian(s) == Some((s[0] + s[1]) / 2)
  {
    SortedTwo(s);
    MedianOfSorted(s, s);
  }

  /** Two ordered numbers are sorted. */
  lemma SortedTwo(s: seq<nat>)
    requires |s| == 2 && s[0] <= s[1]
    ensures Sorted(s)
  {
  }

  /** In a one-slot layer holding `u`, the slots of `u` are that slot. */
  lemma SlotsOne(prev: Layer, k: nat, u: nat)
    requires prev == map[k := u]
    ensures PrevSlots(prev, Ascending(prev.Keys), {u}) == [k]
  {
    assert prev.Keys == {k};
    AscendingOne(k);
    assert [k][..0] == [];
  }

  /** In a two-slot layer holding `u1` and `u2`, the slots of `u1` and `u2` are both its slots, in order. */
  lemma SlotsTwo(prev: Layer, k1: nat, k2: nat, u1: nat, u2: nat)
    requires k1 < k2 && prev == map[k1 := u1, k2 := u2]
    ensures PrevSlots(prev, Ascending(prev.Keys), {u1, u2}) == [k1, k2]
  {
    assert prev.Keys == {k1, k2};
    AscendingTwo(k1, k2);
    assert [k1, k2][..1] == [k1] && [k1][..0] == [];
  }

  /** The in-neighbours of the diamond's boxes, as sets. */
  lemma DiamondNeighbours(d: seq<Edge<Option<string>>>)
    requires d == Diamond()
    ensures Neighbours(d, 1) == {0} && Neighbours(d, 2) == {0} && Neighbours(d, 3) == {1, 2}
  {
    DiamondIncoming();
  }

  /** The median pass leaves the diamond's layers as they are. */
  lemma DiamondMinimized()
    ensures Minimize(DiamondLayout().layers, Diamond()) == Some(DiamondLayout().layers)
  {
    DiamondNeighbours(Diamond());
    DiamondMinimizedAlong(map[0 := 0], map[0 := 1, 1 := 2], map[0 := 3], Diamond(), 0);
    assert DiamondLayout().layers == [map[0 := 0], map[0 := 1, 1 := 2], map[0 := 3]];
  }

  /**
   * The median pass on layers shaped like the diamond's, with the top at
   * slot `m` and the middle boxes at `m` and `m + 1`: each box's median
   * slot is `m`, so nothing moves.
   */
  lemma DiamondMinimizedAlong(l0: Layer, l1: Layer, l2: Layer, d: seq<Edge<Option<string>>>, m: nat)
    requires Neighbours(d, 1) == {0} && Neighbours(d, 2) == {0} && Neighbours(d, 3) == {1, 2}
    requires l0 == map[m := 0] && l1 == map[m := 1, m + 1 := 2] && l2 == map[m := 3]
    ensures Minimize([l0, l1, l2], d) == Some([l0, l1, l2])
  {
    MiddleMedian(l0, d, 1, m);
    MiddleMedian(l0, d, 2, m);
    BottomMedian(l1, d, m);
    MinimizeDiamondShape(l0, l1, l2, d, m);
  }

  /**
   * Layers shaped like the diamond's, where each node has median slot `m`
   * against the layer above and sits at `m` or just after it, come out of
   * the pass unchanged.
   */
  lemma MinimizeDiamondShape<E>(l0: Layer, l1: Layer, l2: Layer, d: seq<Edge<E>>, m: nat)
    requires l1 == map[m := 1, m + 1 := 2] && l2 == map[m := 3]
    requires MedianSlot(l0, d, 1) == Some(m) && MedianSlot(l0, d, 2) == Some(m) && MedianSlot(l1, d, 3) == Some(m)
    ensures Minimize([l0, l1, l2], d) == Some([l0, l1, l2])
  {
    ReorderMiddle(l0, l1, d, 1, 2, m);
    ReorderBottom(l1, l2, d, m);
    MinimizeThree(l0, l1, l2, d);
  }

  /** Two boxes at slots `m` and `m + 1`, both with median slot `m`, stay where they are. */
  lemma ReorderMiddle<E>(l0: Layer, l1: Layer, d: seq<Edge<E>>, x1: nat, x2: nat, m: nat)
    requires l1 == map[m := x1, m + 1 := x2] && MedianSlot(l0, d, x1) == Some(m) && MedianSlot(l0, d, x2) == Some(m)
    ensures ReorderLayer(l0, l1, d) == Some(l1)
  {
    ReorderTwo(l1, m, m + 1, x1, x2, MediansAgainst(l0, d), m);
  }

  /** The bottom, at its median slot `m`, stays there. */
  lemma ReorderBottom<E>(l1: Layer, l2: Layer, d: seq<Edge<E>>, m: nat)
    requires l2 == map[m := 3] && MedianSlot(l1, d, 3) == Some(m)
    ensures ReorderLayer(l1, l2, d) == Some(l2)
  {
    ReorderOne(l2, m, 3, MediansAgainst(l1, d), m);
  }

  /** Three layers that each stay as they are against the layer above come out of the pass unchanged. */
  lemma MinimizeThree<E>(l0: Layer, l1: Layer, l2: Layer, d: seq<Edge<E>>)
    requires ReorderLayer(l0, l1, d) == Some(l1) && ReorderLayer(l1, l2, d) == Some(l2)
    ensures Minimize([l0, l1, l2], d) == Some([l0, l1, l2])
  {
    MinimizeSteps(l0, l1, l2, MediansIn(d));
  }

  /** Each middle box has the top, at slot `m`, as its only in-neighbour: its median slot is `m`. */
  lemma MiddleMedian(l0: Layer, d: seq<Edge<Option<string>>>, node: nat, m: nat)
    requires Neighbours(d, node) == {0} && l0 == map[m := 0]
    ensures MedianSlot(l0, d, node) == Some(m)
  {
    SlotsOne(l0, m, 0);
    MedianSingle(m);
    MedianSlotIs(l0, d, node, [m], m);
  }

  /** The bottom has the middle boxes, at slots `a` and `a + 1`, as its in-neighbours: its median slot is `a`, the floor of their mean. */
  lemma BottomMedian(l1: Layer, d: seq<Edge<Option<string>>>, a: nat)
    requires Neighbours(d, 3) == {1, 2} && l1 == map[a := 1, a + 1 := 2]
    ensures MedianSlot(l1, d, 3) == Some(a)
  {
    var slots := [a, a + 1];
    SlotsTwo(l1, a, a + 1, 1, 2);
    MedianAdjacent(slots, a);
    MedianSlotIs(l1, d, 3, slots, a);
  }

  lemma MinimizeSteps(l0: Layer, l1: Layer, l2: Layer, medians: Layer -> (nat -> Option<nat>))
    requires ReorderWith(l1, medians(l0)) == Some(l1)
    requires ReorderWith(l2, medians(l1)) == Some(l2)
    ensures MinimizeFrom([l0, l1, l2], 1, medians) == Some([l0, l1, l2])
  {
    var ls := [l0, l1, l2];
    assert ls[1 := l1] == ls && ls[2 := l2] == ls;
    assert MinimizeFrom(ls, 3, medians) == Some(ls);
    assert MinimizeFrom(ls, 2, medians) == Some(ls);
  }

  /**
   * The whole of `sugiyama_method` on the diamond, with its empty feedback
   * arc set and the topological order `0, 1, 2, 3`: it runs to the end,
   * with the top in layer 0, the middle boxes side by side in layer 1 and
   * the bottom in layer 2.
   */
  method RunDiamond() returns (lg: LayeredGraph<string, Option<string>>, ok: bool)
    ensures ok
    ensures lg.layers == [map[0 := 0], map[0 := 1, 1 := 2], map[0 := 3]]
    ensures lg.nodeToLayer == map[0 := 0, 1 := 1, 2 := 1, 3 := 2]
  {
    var graph := Graph(["a0", "b1", "c2", "d3"], Diamond());
    DiamondOrder();
    DiamondLaidOut();
    DiamondMinimized();
    assert ReverseArcs(graph.edges, graph.edges, []) == Diamond();
    lg, ok := SugiyamaMethod(graph, [], [0, 1, 2, 3]);
  }
}
