/**
 * What the layers of a layout hold, counted: the layer assignment of
 * src/sugiyama.rs puts every node of the topological order into the layers
 * exactly once, and adds nothing else but placeholders.
 */
module LayerCounts {
  import opened Wrappers
  import opened Slots
  import opened Graphs
  import opened Layers
  import opened Layering

  /** The nodes of the layers below `n`, with multiplicity. */
  ghost function BagUpTo(layers: seq<Layer>, n: nat): multiset<nat> {
    if n == 0 then multiset{} else BagUpTo(layers, n - 1) + Bag(LayerAt(layers, n - 1))
  }

  /** The nodes of all layers, with multiplicity. */
  ghost function AllBag(layers: seq<Layer>): multiset<nat> {
    BagUpTo(layers, |layers|)
  }

  /** Every real node of `done` sits in the layers exactly once, and no other real node sits there. */
  ghost predicate Counted(l: Layout, done: set<nat>) {
    forall x :: x != Placeholder ==> AllBag(l.layers)[x] == if x in done then 1 else 0
  }

  /** Layers past the end are empty, so counting further adds nothing. */
  lemma {:induction false} BagUpToBeyond(layers: seq<Layer>, n: nat)
    requires |layers| <= n
    ensures BagUpTo(layers, n) == AllBag(layers)
    decreases n
  {
    if n > |layers| {
      assert Bag(LayerAt(layers, n - 1)) == multiset{};
      BagUpToBeyond(layers, n - 1);
    }
  }

  /** The layers below `n` agree when the layers `a` and `b` agree below `n`. */
  lemma {:induction false} BagUpToSame(a: seq<Layer>, b: seq<Layer>, n: nat)
    requires forall i: nat :: i < n ==> LayerAt(b, i) == LayerAt(a, i)
    ensures BagUpTo(b, n) == BagUpTo(a, n)
    decreases n
  {
    if n > 0 {
      BagUpToSame(a, b, n - 1);
      assert LayerAt(b, n - 1) == LayerAt(a, n - 1);
    }
  }

  /** Counting one layer further adds the differences of the prefix and of that layer. */
  lemma BagUpToStep(a: seq<Layer>, b: seq<Layer>, n: nat, e1: multiset<nat>, e2: multiset<nat>)
    requires n > 0
    requires BagUpTo(b, n - 1) == BagUpTo(a, n - 1) + e1
    requires Bag(LayerAt(b, n - 1)) == Bag(LayerAt(a, n - 1)) + e2
    ensures BagUpTo(b, n) == BagUpTo(a, n) + e1 + e2
  {
  }

  lemma BagUpToChangeLast(a: seq<Layer>, b: seq<Layer>, j: nat, extra: multiset<nat>)
    requires forall i: nat :: i < j ==> LayerAt(b, i) == LayerAt(a, i)
    requires Bag(LayerAt(b, j)) == Bag(LayerAt(a, j)) + extra
    ensures BagUpTo(b, j + 1) == BagUpTo(a, j + 1) + extra
  {
    BagUpToSame(a, b, j);
    BagUpToStep(a, b, j + 1, multiset{}, extra);
  }

  /** Changing one layer `j` by `extra` changes the count of every prefix that reaches past it by `extra`. */
  lemma {:induction false} BagUpToChange(a: seq<Layer>, b: seq<Layer>, j: nat, extra: multiset<nat>, n: nat)
    requires j < n
    requires forall i: nat :: i != j ==> LayerAt(b, i) == LayerAt(a, i)
    requires Bag(LayerAt(b, j)) == Bag(LayerAt(a, j)) + extra
    ensures BagUpTo(b, n) == BagUpTo(a, n) + extra
    decreases n
  {
    if n - 1 == j {
      BagUpToChangeLast(a, b, j, extra);
    } else {
      BagUpToChange(a, b, j, extra, n - 1);
      assert LayerAt(b, n - 1) == LayerAt(a, n - 1);
      BagUpToStep(a, b, n, extra, multiset{});
    }
  }

  /** `add_node_to_layer` adds exactly its node to the layers. */
  lemma PlaceAllBag(layers: seq<Layer>, node: nat, layer: nat)
    ensures AllBag(Place(layers, node, layer)) == AllBag(layers) + multiset{node}
  {
    var r := Place(layers, node, layer);
    PlaceKeeps(layers, node, layer);
    forall i: nat | i != layer ensures LayerAt(r, i) == LayerAt(layers, i) {
    }
    BagUpToChange(layers, r, layer, multiset{node}, |r|);
    BagUpToBeyond(layers, |r|);
  }

  /** Filling a gap adds placeholders only. */
  lemma {:induction false} FillGapCounts(l: Layout, from: nat, to: nat)
    ensures forall x :: x != Placeholder ==> AllBag(FillGap(l, from, to).layers)[x] == AllBag(l.layers)[x]
    decreases if from < to then to - from else 0
  {
    if from < to {
      PlaceAllBag(l.layers, Placeholder, from);
      FillGapCounts(AddNode(l, Placeholder, from), from + 1, to);
    }
  }

  /** Filling the gaps above all in-neighbours adds placeholders only. */
  lemma {:induction false} FillGapsCounts(l: Layout, ns: seq<nat>, top: nat)
    requires forall u :: u in ns ==> u in l.nodeToLayer
    ensures forall x :: x != Placeholder ==> AllBag(FillGaps(l, ns, top).layers)[x] == AllBag(l.layers)[x]
    decreases |ns|
  {
    if ns != [] {
      var next := FillGap(l, l.nodeToLayer[ns[0]] + 1, top);
      assert forall u :: u in ns[1..] ==> u in ns;
      FillGapCounts(l, l.nodeToLayer[ns[0]] + 1, top);
      FillGapsCounts(next, ns[1..], top);
    }
  }

  /** Adding a new real node to a counted layout counts it once. */
  lemma AddNodeCounted(l: Layout, done: set<nat>, node: nat, layer: nat)
    requires Counted(l, done) && node !in done && node != Placeholder
    ensures Counted(AddNode(l, node, layer), done + {node})
  {
    PlaceAllBag(l.layers, node, layer);
  }

  /** One iteration of the layering loop counts its node once and adds only placeholders besides. */
  lemma PlaceNodeAtCounted<E>(l: Layout, done: set<nat>, node: nat, edges: seq<Edge<E>>)
    requires Counted(l, done) && node !in done && node != Placeholder
    requires PlaceNodeAt(l, node, edges).Some?
    ensures Counted(PlaceNodeAt(l, node, edges).value, done + {node})
  {
    var ns := Incoming(edges, node);
    if ns == [] {
      AddNodeCounted(l, done, node, 0);
    } else {
      var top := MaxLayer(l.nodeToLayer, ns) + 1;
      var g := FillGaps(l, ns, top);
      FillGapsCounts(l, ns, top);
      assert Counted(g, done);
      AddNodeCounted(g, done, node, top);
    }
  }

  /** The layering loop counts every node of the order once, after those counted already. */
  lemma {:induction false} LayerAllCounted<E>(l: Layout, done: set<nat>, order: seq<nat>, edges: seq<Edge<E>>)
    requires Counted(l, done) && Ready(done, order, edges)
    requires LayerAll(l, order, edges).Some?
    ensures Counted(LayerAll(l, order, edges).value, done + (set v | v in order))
    decreases |order|
  {
    if order != [] {
      var node := order[0];
      ReadyStep(done, order, edges);
      PlaceNodeAtCounted(l, done, node, edges);
      LayerAllCounted(PlaceNodeAt(l, node, edges).value, done + {node}, order[1..], edges);
      MembersCons(done, order);
    }
  }

  /**
   * The layering of a graph along a topological order puts every node of
   * the order into the layers exactly once, and no other node but the
   * placeholder.
   */
  lemma LayeringCounted<T, E>(g: Graph<T, E>, order: seq<nat>)
    requires |g.nodes| <= Placeholder && IsTopologicalOrder(order, |g.nodes|, g.edges)
    ensures LayerAll(Layout([], map[]), order, g.edges).Some?
    ensures Counted(LayerAll(Layout([], map[]), order, g.edges).value, set v | v in order)
  {
    LayeringGood(g, order);
    TopologicalReady(order, |g.nodes|, g.edges);
    assert AllBag([]) == multiset{};
    LayerAllCounted(Layout([], map[]), {}, order, g.edges);
    assert {} + (set v | v in order) == set v | v in order;
  }
}
