/**
 * What the layout operations of src/sugiyama.rs do to the layers, as
 * functions on values: `Place` for `add_node_to_layer` and `Minimize` for
 * `crossing_minimization`, with the properties the methods of
 * `LayeredGraph` inherit from them.
 */
module Layers {
  import opened Wrappers
  import opened Slots
  import opened Median
  import opened Graphs

  /**
   * The id of every placeholder: `NodeIndex::new(usize::MAX)` with petgraph's
   * default 32-bit index type, which keeps the low 32 bits.
   */
  const Placeholder: nat := 0xFFFF_FFFF

  /** Layer `layer` of `layers`, or the empty layer that `resize` would create there. */
  function LayerAt(layers: seq<Layer>, layer: nat): Layer {
    if layer < |layers| then layers[layer] else map[]
  }

  /** The layers after `add_node_to_layer(node, layer)`. */
  function Place(layers: seq<Layer>, node: nat, layer: nat): (r: seq<Layer>)
    ensures |r| == if layer < |layers| then |layers| else layer + 1
    ensures forall i :: 0 <= i < |r| && i != layer ==> r[i] == LayerAt(layers, i)
    ensures var before, slot := LayerAt(layers, layer), NextSlot(LayerAt(layers, layer));
      && r[layer].Keys == before.Keys + {slot}
      && r[layer][slot] == node
      && forall k :: k in before ==> r[layer][k] == before[k]
  {
    var grown := if layer < |layers| then layers else layers + seq(layer + 1 - |layers|, _ => map[]);
    assert forall i :: 0 <= i < |grown| ==> grown[i] == LayerAt(layers, i);
    grown[layer := grown[layer][NextSlot(grown[layer]) := node]]
  }

  /** Placing a node keeps every node already placed, at its slot, and adds one to the bag of its layer. */
  lemma PlaceKeeps(layers: seq<Layer>, node: nat, layer: nat)
    ensures var r := Place(layers, node, layer);
      && (forall i, k :: 0 <= i < |layers| && k in layers[i] ==> k in r[i] && r[i][k] == layers[i][k])
      && Bag(r[layer]) == Bag(LayerAt(layers, layer)) + multiset{node}
  {
    var before := LayerAt(layers, layer);
    var r := Place(layers, node, layer);
    assert r[layer] == before[NextSlot(before) := node];
    BagInsert(before, NextSlot(before), node);
  }

  /** The in-neighbours of `node` in a graph with edges `edges`, as the `HashSet` of `crossing_minimization` holds them. */
  function Neighbours<E>(edges: seq<Edge<E>>, node: nat): (r: set<nat>)
    ensures forall u :: u in r <==> exists i :: 0 <= i < |edges| && edges[i].target == node && edges[i].source == u
  {
    IncomingMembers(edges, node);
    set u | u in Incoming(edges, node)
  }

  /**
   * The `filter_map` over the previous layer: the slots in `ks`, in order,
   * whose node is one of `nbrs`.
   */
  function PrevSlots(prev: Layer, ks: seq<nat>, nbrs: set<nat>): (r: seq<nat>)
    requires forall i :: 0 <= i < |ks| ==> ks[i] in prev
    ensures |r| <= |ks|
  {
    if ks == [] then []
    else PrevSlots(prev, ks[..|ks| - 1], nbrs) + if prev[ks[|ks| - 1]] in nbrs then [ks[|ks| - 1]] else []
  }

  /** The slots kept are exactly those of `ks` whose node is one of `nbrs`. */
  lemma {:induction false} PrevSlotsMembers(prev: Layer, ks: seq<nat>, nbrs: set<nat>)
    requires forall i :: 0 <= i < |ks| ==> ks[i] in prev
    ensures forall k :: k in PrevSlots(prev, ks, nbrs) <==> k in ks && prev[k] in nbrs
  {
    if ks != [] {
      var front, last := ks[..|ks| - 1], ks[|ks| - 1];
      assert ks == front + [last];
      PrevSlotsMembers(prev, front, nbrs);
    }
  }

  /** The median slot of the in-neighbours of `node` in `prev`; `None` where `compute_median` panics. */
  function MedianSlot<E>(prev: Layer, edges: seq<Edge<E>>, node: nat): Option<nat> {
    ComputeMedian(PrevSlots(prev, Ascending(prev.Keys), Neighbours(edges, node)))
  }

  /** The median slot of every node against the layer `prev`. */
  function MediansAgainst<E>(prev: Layer, edges: seq<Edge<E>>): nat -> Option<nat> {
    node => MedianSlot(prev, edges, node)
  }

  /**
   * The inner loop of `crossing_minimization` from position `j` of `ks`, the
   * slots of `curr` in ascending order, with `acc` holding the nodes placed
   * so far and `median` giving each node's median slot in the layer above.
   */
  function PlaceFrom(curr: Layer, ks: seq<nat>, j: nat, acc: Layer, median: nat -> Option<nat>): Option<Layer>
    requires j <= |ks|
    requires forall i :: 0 <= i < |ks| ==> ks[i] in curr
    decreases |ks| - j
  {
    if j == |ks| then Some(acc)
    else
      var node := curr[ks[j]];
      var m :- median(node);
      PlaceFrom(curr, ks, j + 1, acc[FirstFree(acc, m) := node], median)
  }

  /** Layer `curr` rearranged by the inner loop, with `median` giving each node's median slot. */
  function ReorderWith(curr: Layer, median: nat -> Option<nat>): Option<Layer> {
    PlaceFrom(curr, Ascending(curr.Keys), 0, map[], median)
  }

  /** Layer `curr` rearranged against the already rearranged layer `prev`. */
  function ReorderLayer<E>(prev: Layer, curr: Layer, edges: seq<Edge<E>>): Option<Layer> {
    ReorderWith(curr, MediansAgainst(prev, edges))
  }

  /**
   * The outer loop of `crossing_minimization` from layer `n` on, with
   * `medians(prev)` giving the median slots against the layer `prev`.
   */
  function MinimizeFrom(layers: seq<Layer>, n: nat, medians: Layer -> (nat -> Option<nat>)): Option<seq<Layer>>
    requires 1 <= n
    decreases |layers| - n
  {
    if n >= |layers| then Some(layers)
    else
      var m :- ReorderWith(layers[n], medians(layers[n - 1]));
      MinimizeFrom(layers[n := m], n + 1, medians)
  }

  /** The median slots against any layer, with the in-neighbours taken from `edges`. */
  function MediansIn<E>(edges: seq<Edge<E>>): Layer -> (nat -> Option<nat>) {
    prev => MediansAgainst(prev, edges)
  }

  /** `crossing_minimization`: every layer from 1 on, top-down, each against the one above it. */
  function Minimize<E>(layers: seq<Layer>, edges: seq<Edge<E>>): Option<seq<Layer>> {
    MinimizeFrom(layers, 1, MediansIn(edges))
  }

  /**
   * The outer loop keeps the number of layers and the layers before `n`, and
   * rearranges each later layer against the rearranged layer above it.
   */
  lemma {:induction false} MinimizeFromShape(layers: seq<Layer>, n: nat, medians: Layer -> (nat -> Option<nat>))
    requires 1 <= n && MinimizeFrom(layers, n, medians).Some?
    ensures var r := MinimizeFrom(layers, n, medians).value;
      && |r| == |layers|
      && (forall i :: 0 <= i < n && i < |layers| ==> r[i] == layers[i])
      && (forall i :: n <= i < |layers| ==> ReorderWith(layers[i], medians(r[i - 1])) == Some(r[i]))
    decreases |layers| - n
  {
    if n < |layers| {
      var m := ReorderWith(layers[n], medians(layers[n - 1])).value;
      var next := layers[n := m];
      var r := MinimizeFrom(layers, n, medians).value;
      assert MinimizeFrom(next, n + 1, medians) == Some(r);
      MinimizeFromShape(next, n + 1, medians);
      forall i | n <= i < |layers|
        ensures ReorderWith(layers[i], medians(r[i - 1])) == Some(r[i])
      {
        if i == n {
          assert r[n - 1] == layers[n - 1] && r[n] == m;
        } else {
          assert next[i] == layers[i];
        }
      }
    }
  }

  /**
   * `crossing_minimization` keeps the number of layers and layer 0, and
   * computes each layer `i >= 1` against the new arrangement of layer `i - 1`.
   */
  lemma MinimizeShape<E>(layers: seq<Layer>, edges: seq<Edge<E>>)
    requires Minimize(layers, edges).Some?
    ensures var r := Minimize(layers, edges).value;
      && |r| == |layers|
      && (|layers| > 0 ==> r[0] == layers[0])
      && (forall i :: 1 <= i < |layers| ==> ReorderLayer(r[i - 1], layers[i], edges) == Some(r[i]))
  {
    MinimizeFromShape(layers, 1, MediansIn(edges));
  }

  /** One step of the inner loop: fail without a median slot, otherwise place the node and go on. */
  lemma PlaceFromStep(curr: Layer, ks: seq<nat>, j: nat, acc: Layer, median: nat -> Option<nat>)
    requires j < |ks| && forall i :: 0 <= i < |ks| ==> ks[i] in curr
    ensures median(curr[ks[j]]).None? ==> PlaceFrom(curr, ks, j, acc, median).None?
    ensures median(curr[ks[j]]).Some? ==>
      var slot := FirstFree(acc, median(curr[ks[j]]).value);
      PlaceFrom(curr, ks, j, acc, median) == PlaceFrom(curr, ks, j + 1, acc[slot := curr[ks[j]]], median)
  {
  }

  /**
   * The inner loop keeps the nodes already placed at their slots and adds
   * each remaining node of `curr` at a slot of its own.
   */
  lemma {:induction false} PlaceFromKeeps(curr: Layer, ks: seq<nat>, j: nat, acc: Layer, median: nat -> Option<nat>)
    requires j <= |ks| && forall i :: 0 <= i < |ks| ==> ks[i] in curr
    requires PlaceFrom(curr, ks, j, acc, median).Some?
    ensures var r := PlaceFrom(curr, ks, j, acc, median).value;
      && (forall k :: k in acc ==> k in r && r[k] == acc[k])
      && |r.Keys| == |acc.Keys| + |ks| - j
    decreases |ks| - j
  {
    if j < |ks| {
      var node := curr[ks[j]];
      var slot := FirstFree(acc, median(node).value);
      var acc' := acc[slot := node];
      PlaceFromKeeps(curr, ks, j + 1, acc', median);
      assert acc'.Keys == acc.Keys + {slot};
    }
  }

  /** The inner loop adds the nodes at the remaining slots `ks[j..]` of `curr` to the bag, each once. */
  lemma {:induction false} PlaceFromBag(curr: Layer, ks: seq<nat>, j: nat, acc: Layer, median: nat -> Option<nat>)
    requires j <= |ks| && forall i :: 0 <= i < |ks| ==> ks[i] in curr
    requires PlaceFrom(curr, ks, j, acc, median).Some?
    ensures Bag(PlaceFrom(curr, ks, j, acc, median).value) == Bag(acc) + Along(curr, ks[j..])
    decreases |ks| - j
  {
    if j < |ks| {
      var node := curr[ks[j]];
      var slot := FirstFree(acc, median(node).value);
      PlaceFromStep(curr, ks, j, acc, median);
      PlaceFromBag(curr, ks, j + 1, acc[slot := node], median);
      BagInsert(acc, slot, node);
      AlongFrom(curr, ks, j);
    }
  }

  /**
   * Each node of the inner loop goes to the first slot, at or after its
   * median slot, that the nodes before it left free, and stays there.
   */
  lemma PlaceFromSlot(curr: Layer, ks: seq<nat>, j: nat, acc: Layer, median: nat -> Option<nat>)
    requires j < |ks| && forall i :: 0 <= i < |ks| ==> ks[i] in curr
    requires PlaceFrom(curr, ks, j, acc, median).Some?
    ensures median(curr[ks[j]]).Some?
    ensures var m := median(curr[ks[j]]).value;
      var slot := FirstFree(acc, m);
      var r := PlaceFrom(curr, ks, j, acc, median).value;
      && m <= slot && slot !in acc
      && (forall p :: m <= p < slot ==> p in acc)
      && slot in r && r[slot] == curr[ks[j]]
  {
    var node := curr[ks[j]];
    PlaceFromKeeps(curr, ks, j + 1, acc[FirstFree(acc, median(node).value) := node], median);
  }

  /** Every node that the inner loop reaches has a median slot. */
  lemma {:induction false} PlaceFromNeedsMedians(curr: Layer, ks: seq<nat>, j: nat, acc: Layer, median: nat -> Option<nat>, t: nat)
    requires j <= t < |ks| && forall i :: 0 <= i < |ks| ==> ks[i] in curr
    requires PlaceFrom(curr, ks, j, acc, median).Some?
    ensures median(curr[ks[t]]).Some?
    decreases t - j
  {
    if j < t {
      var node := curr[ks[j]];
      PlaceFromNeedsMedians(curr, ks, j + 1, acc[FirstFree(acc, median(node).value) := node], median, t);
    }
  }

  /**
   * A rearranged layer holds the same nodes, with multiplicity, at as many
   * distinct slots as before.
   */
  lemma ReorderKeeps(curr: Layer, median: nat -> Option<nat>)
    requires ReorderWith(curr, median).Some?
    ensures var r := ReorderWith(curr, median).value;
      && Bag(r) == Bag(curr)
      && |r.Keys| == |curr.Keys|
  {
    var ks := Ascending(curr.Keys);
    var empty: Layer := map[];
    var r := PlaceFrom(curr, ks, 0, empty, median).value;
    assert |r.Keys| == |curr.Keys| by {
      assert |empty.Keys| == 0 by {
        assert empty.Keys == {};
      }
      PlaceFromKeeps(curr, ks, 0, empty, median);
    }
    assert Bag(r) == Bag(curr) by {
      assert ks[0..] == ks;
      assert Bag(empty) == multiset{};
      PlaceFromBag(curr, ks, 0, empty, median);
      BagAscending(curr);
    }
  }

  /** No edge of a well-formed graph ends at the placeholder id. */
  lemma PlaceholderHasNoNeighbours<T, E>(g: Graph<T, E>, prev: Layer)
    requires WellFormed(g) && |g.nodes| <= Placeholder
    ensures MedianSlot(prev, g.edges, Placeholder).None?
  {
    assert Neighbours(g.edges, Placeholder) == {};
    PrevSlotsNone(prev, Ascending(prev.Keys));
  }

  lemma {:induction false} PrevSlotsNone(prev: Layer, ks: seq<nat>)
    requires forall i :: 0 <= i < |ks| ==> ks[i] in prev
    ensures PrevSlots(prev, ks, {}) == []
  {
    if ks != [] {
      PrevSlotsNone(prev, ks[..|ks| - 1]);
    }
  }

  /** A layer holding a node without a median slot cannot be rearranged. */
  lemma ReorderFails(curr: Layer, median: nat -> Option<nat>, slot: nat)
    requires slot in curr && median(curr[slot]).None?
    ensures ReorderWith(curr, median).None?
  {
    var ks := Ascending(curr.Keys);
    assert slot in ks;
    var t :| 0 <= t < |ks| && ks[t] == slot;
    if ReorderWith(curr, median).Some? {
      PlaceFromNeedsMedians(curr, ks, 0, map[], median, t);
      assert false;
    }
  }

  /** The outer loop fails when a layer it reaches holds a node that has a median slot against no layer. */
  lemma MinimizeFails(layers: seq<Layer>, medians: Layer -> (nat -> Option<nat>), n: nat, slot: nat)
    requires 1 <= n < |layers| && slot in layers[n]
    requires forall prev :: medians(prev)(layers[n][slot]).None?
    ensures MinimizeFrom(layers, 1, medians).None?
  {
    if MinimizeFrom(layers, 1, medians).Some? {
      var r := MinimizeFrom(layers, 1, medians).value;
      MinimizeFromShape(layers, 1, medians);
      ReorderFails(layers[n], medians(r[n - 1]), slot);
      assert false;
    }
  }

  /**
   * `crossing_minimization` fails (the source panics in `compute_median`)
   * whenever a layer below the first holds a placeholder: a placeholder has
   * no in-neighbours, so its list of neighbour slots is empty.
   */
  lemma PlaceholderFails<T, E>(g: Graph<T, E>, layers: seq<Layer>, n: nat, slot: nat)
    requires WellFormed(g) && |g.nodes| <= Placeholder
    requires 1 <= n < |layers| && slot in layers[n] && layers[n][slot] == Placeholder
    ensures Minimize(layers, g.edges).None?
  {
    var medians := MediansIn(g.edges);
    forall prev: Layer ensures medians(prev)(Placeholder).None? {
      PlaceholderHasNoNeighbours(g, prev);
    }
    MinimizeFails(layers, medians, n, slot);
  }

  /** The inner loop succeeds when every node it has still to place has a median slot. */
  lemma {:induction false} PlaceFromSucceeds(curr: Layer, ks: seq<nat>, j: nat, acc: Layer, median: nat -> Option<nat>)
    requires j <= |ks| && forall i :: 0 <= i < |ks| ==> ks[i] in curr
    requires forall t :: j <= t < |ks| ==> median(curr[ks[t]]).Some?
    ensures PlaceFrom(curr, ks, j, acc, median).Some?
    decreases |ks| - j
  {
    if j < |ks| {
      var node := curr[ks[j]];
      PlaceFromSucceeds(curr, ks, j + 1, acc[FirstFree(acc, median(node).value) := node], median);
    }
  }

  /** A layer can be rearranged exactly when every node in it has a median slot. */
  lemma ReorderSucceeds(curr: Layer, median: nat -> Option<nat>)
    ensures ReorderWith(curr, median).Some? <==> forall s :: s in curr ==> median(curr[s]).Some?
  {
    var ks := Ascending(curr.Keys);
    if forall s :: s in curr ==> median(curr[s]).Some? {
      forall t | 0 <= t < |ks| ensures median(curr[ks[t]]).Some? {
        assert ks[t] in ks;
      }
      PlaceFromSucceeds(curr, ks, 0, map[], median);
    } else {
      var s :| s in curr && median(curr[s]).None?;
      ReorderFails(curr, median, s);
    }
  }

  /**
   * `compute_median` has a list to work on, and so does not panic, exactly
   * when some edge into `node` comes from a node of the layer `prev`.
   */
  lemma MedianSlotSome<E>(prev: Layer, edges: seq<Edge<E>>, node: nat)
    ensures MedianSlot(prev, edges, node).Some? <==> exists e :: e in edges && e.target == node && e.source in prev.Values
  {
    var ks := Ascending(prev.Keys);
    var nbrs := Neighbours(edges, node);
    var ps := PrevSlots(prev, ks, nbrs);
    PrevSlotsMembers(prev, ks, nbrs);
    if exists e :: e in edges && e.target == node && e.source in prev.Values {
      var e :| e in edges && e.target == node && e.source in prev.Values;
      var k :| k in prev && prev[k] == e.source;
      var i :| 0 <= i < |edges| && edges[i] == e;
      assert e.source in nbrs;
      assert k in ps;
    }
    if ps != [] {
      var k := ps[0];
      assert k in ps;
      var i :| 0 <= i < |edges| && edges[i].target == node && edges[i].source == prev[k];
      assert edges[i] in edges && prev[k] in prev.Values;
    }
  }

  /** Every node of the layers `n` and on, except layer 0, has an edge into it from a node of the layer above. */
  ghost predicate FedFrom<E>(layers: seq<Layer>, edges: seq<Edge<E>>, n: nat) {
    forall i :: 1 <= i && n <= i < |layers| ==> LayerFed(layers[i - 1].Values, layers[i], edges)
  }

  /** A rearranged layer holds the same nodes. */
  lemma ReorderValues(curr: Layer, median: nat -> Option<nat>)
    requires ReorderWith(curr, median).Some?
    ensures ReorderWith(curr, median).value.Values == curr.Values
  {
    var r := ReorderWith(curr, median).value;
    ReorderKeeps(curr, median);
    BagValues(r);
    BagValues(curr);
  }

  /**
   * A layer all of whose nodes have an edge into them from the layer `prev`
   * can be rearranged against it, and keeps its nodes.
   */
  lemma ReorderLayerFed<E>(prev: Layer, curr: Layer, edges: seq<Edge<E>>)
    requires LayerFed(prev.Values, curr, edges)
    ensures ReorderLayer(prev, curr, edges).Some?
    ensures ReorderLayer(prev, curr, edges).value.Values == curr.Values
  {
    var median := MediansAgainst(prev, edges);
    forall s | s in curr ensures median(curr[s]).Some? {
      MedianSlotSome(prev, edges, curr[s]);
    }
    ReorderSucceeds(curr, median);
    ReorderValues(curr, median);
  }

  /** A layer rearranged against `prev` keeps its nodes. */
  lemma ReorderLayerValues<E>(prev: Layer, curr: Layer, edges: seq<Edge<E>>)
    requires ReorderLayer(prev, curr, edges).Some?
    ensures ReorderLayer(prev, curr, edges).value.Values == curr.Values
  {
    ReorderValues(curr, MediansAgainst(prev, edges));
  }

  /** Rearranging one layer keeps the layers after it fed from the layer above. */
  lemma FedAfter<E>(layers: seq<Layer>, n: nat, m: Layer, edges: seq<Edge<E>>)
    requires 1 <= n < |layers| && FedFrom(layers, edges, n) && m.Values == layers[n].Values
    ensures FedFrom(layers[n := m], edges, n + 1)
  {
    var next := layers[n := m];
    forall i | 1 <= i && n + 1 <= i < |next| ensures LayerFed(next[i - 1].Values, next[i], edges) {
      assert next[i] == layers[i];
      assert next[i - 1].Values == layers[i - 1].Values;
      assert LayerFed(layers[i - 1].Values, layers[i], edges);
    }
  }

  /** The outer loop from layer `n` on succeeds when every layer it reaches is fed from the layer above. */
  lemma {:induction false} MinimizeFromSucceeds<E>(layers: seq<Layer>, n: nat, edges: seq<Edge<E>>)
    requires 1 <= n && FedFrom(layers, edges, n)
    ensures MinimizeFrom(layers, n, MediansIn(edges)).Some?
    decreases |layers| - n
  {
    if n < |layers| {
      ReorderLayerFed(layers[n - 1], layers[n], edges);
      var m := ReorderLayer(layers[n - 1], layers[n], edges).value;
      assert ReorderWith(layers[n], MediansIn(edges)(layers[n - 1])) == Some(m);
      FedAfter(layers, n, m, edges);
      MinimizeFromSucceeds(layers[n := m], n + 1, edges);
    }
  }

  /** After a successful pass, layer `i` holds the same nodes as before. */
  lemma MinimizeValues<E>(layers: seq<Layer>, edges: seq<Edge<E>>, i: nat)
    requires Minimize(layers, edges).Some? && i < |layers|
    ensures i < |Minimize(layers, edges).value| && Minimize(layers, edges).value[i].Values == layers[i].Values
  {
    MinimizeFromValues(layers, 1, MediansIn(edges), i);
  }

  lemma MinimizeFromValues(layers: seq<Layer>, n: nat, medians: Layer -> (nat -> Option<nat>), i: nat)
    requires 1 <= n && MinimizeFrom(layers, n, medians).Some? && i < |layers|
    ensures i < |MinimizeFrom(layers, n, medians).value| && MinimizeFrom(layers, n, medians).value[i].Values == layers[i].Values
  {
    var r := MinimizeFrom(layers, n, medians).value;
    if i >= n {
      MinimizeFromAt(layers, n, medians, i);
      ReorderValues(layers[i], medians(r[i - 1]));
    } else {
      MinimizeFromBefore(layers, n, medians, i);
    }
  }

  /** The layers before the `n`th are not touched. */
  lemma MinimizeFromBefore(layers: seq<Layer>, n: nat, medians: Layer -> (nat -> Option<nat>), i: nat)
    requires 1 <= n && i < n && i < |layers| && MinimizeFrom(layers, n, medians).Some?
    ensures var r := MinimizeFrom(layers, n, medians).value;
      i < |r| && r[i] == layers[i]
  {
    MinimizeFromShape(layers, n, medians);
  }

  /**
   * `crossing_minimization` runs to the end, without a panic in
   * `compute_median`, exactly when every node of every layer but the first
   * has an edge of the graph into it from a node of the layer above.
   */
  lemma MinimizeSucceeds<E>(layers: seq<Layer>, edges: seq<Edge<E>>)
    ensures Minimize(layers, edges).Some? <==> FedFrom(layers, edges, 1)
  {
    if FedFrom(layers, edges, 1) {
      MinimizeFromSucceeds(layers, 1, edges);
    }
    if Minimize(layers, edges).Some? {
      forall i | 1 <= i < |layers| ensures LayerFed(layers[i - 1].Values, layers[i], edges) {
        MinimizeLayerFed(layers, edges, i);
      }
    }
  }

  /** Every node of `curr` has an edge into it from one of the nodes `above`. */
  ghost predicate LayerFed<E>(above: set<nat>, curr: Layer, edges: seq<Edge<E>>) {
    forall s :: s in curr ==> exists e :: e in edges && e.target == curr[s] && e.source in above
  }

  /** A layer that a successful pass rearranged is fed from the layer above it. */
  lemma MinimizeLayerFed<E>(layers: seq<Layer>, edges: seq<Edge<E>>, i: nat)
    requires Minimize(layers, edges).Some? && 1 <= i < |layers|
    ensures LayerFed(layers[i - 1].Values, layers[i], edges)
  {
    var medians := MediansIn(edges);
    var r := MinimizeFrom(layers, 1, medians).value;
    MinimizeFromValues(layers, 1, medians, i - 1);
    MinimizeFromAt(layers, 1, medians, i);
    assert medians(r[i - 1]) == MediansAgainst(r[i - 1], edges);
    ReorderLayerFedBy(r[i - 1], layers[i], edges);
    assert LayerFed(r[i - 1].Values, layers[i], edges);
    assert r[i - 1].Values == layers[i - 1].Values;
  }

  /** Layer `i` of a successful outer loop is layer `i` rearranged against the rearranged layer above. */
  lemma MinimizeFromAt(layers: seq<Layer>, n: nat, medians: Layer -> (nat -> Option<nat>), i: nat)
    requires 1 <= n <= i < |layers| && MinimizeFrom(layers, n, medians).Some?
    ensures var r := MinimizeFrom(layers, n, medians).value;
      i < |r| && ReorderWith(layers[i], medians(r[i - 1])) == Some(r[i])
  {
    MinimizeFromShape(layers, n, medians);
  }

  /** A layer that can be rearranged against `prev` is fed from `prev`. */
  lemma ReorderLayerFedBy<E>(prev: Layer, curr: Layer, edges: seq<Edge<E>>)
    requires ReorderLayer(prev, curr, edges).Some?
    ensures LayerFed(prev.Values, curr, edges)
  {
    forall s | s in curr ensures exists e :: e in edges && e.target == curr[s] && e.source in prev.Values {
      ReorderSucceeds(curr, MediansAgainst(prev, edges));
      MedianSlotSome(prev, edges, curr[s]);
    }
  }
}
