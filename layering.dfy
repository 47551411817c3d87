/**
 * Step 2 of `sugiyama_method` in src/sugiyama.rs, the layer assignment, as
 * functions on a `Layout` (the `layers` and `node_to_layer` fields of a
 * `LayeredGraph`): each node of a topological order goes one layer below
 * the lowest of its in-neighbours (layer 0 without any), and every layer
 * strictly between an in-neighbour and the node gets a placeholder.
 */
module Layering {
  import opened Wrappers
  import opened Slots
  import opened Graphs
  import opened Layers

  datatype Layout = Layout(layers: seq<Layer>, nodeToLayer: map<nat, nat>)

  /** `add_node_to_layer` on a layout. */
  function AddNode(l: Layout, node: nat, layer: nat): Layout {
    Layout(Place(l.layers, node, layer), l.nodeToLayer[node := layer])
  }

  /** Layer `i` exists and holds `x` at some slot. */
  predicate Holds(layers: seq<Layer>, i: nat, x: nat) {
    i < |layers| && x in layers[i].Values
  }

  /** Every node `layers` holds, `grown` holds in the same layer. */
  ghost predicate Grows(layers: seq<Layer>, grown: seq<Layer>) {
    forall i: nat, x: nat :: Holds(layers, i, x) ==> Holds(grown, i, x)
  }

  /** Adding a node keeps every node where it was and puts the new one in its layer. */
  lemma AddNodeGrows(l: Layout, node: nat, layer: nat)
    ensures Grows(l.layers, AddNode(l, node, layer).layers)
    ensures Holds(AddNode(l, node, layer).layers, layer, node)
  {
    var r := Place(l.layers, node, layer);
    var slot := NextSlot(LayerAt(l.layers, layer));
    assert r[layer][slot] == node;
    PlaceKeeps(l.layers, node, layer);
    forall i: nat, x: nat | Holds(l.layers, i, x) ensures Holds(r, i, x) {
      var k :| k in l.layers[i] && l.layers[i][k] == x;
      assert r[i][k] == x;
    }
  }

  /**
   * `.map(|n| node_to_layer.get(&n).unwrap()).max().unwrap()`: the highest
   * layer number among the nodes `ns`.
   */
  function MaxLayer(ntl: map<nat, nat>, ns: seq<nat>): nat
    requires ns != [] && forall u :: u in ns ==> u in ntl
  {
    if |ns| == 1 then ntl[ns[0]]
    else
      assert forall u :: u in ns[1..] ==> u in ns;
      var rest := MaxLayer(ntl, ns[1..]);
      if ntl[ns[0]] >= rest then ntl[ns[0]] else rest
  }

  /** `MaxLayer` is the highest layer among `ns`: no node of `ns` is higher, and one of them is that high. */
  lemma {:induction false} MaxLayerBounds(ntl: map<nat, nat>, ns: seq<nat>)
    requires ns != [] && forall u :: u in ns ==> u in ntl
    ensures forall u :: u in ns ==> ntl[u] <= MaxLayer(ntl, ns)
    ensures exists u :: u in ns && ntl[u] == MaxLayer(ntl, ns)
  {
    assert ns[0] in ns;
    if |ns| > 1 {
      assert forall u :: u in ns[1..] ==> u in ns;
      MaxLayerBounds(ntl, ns[1..]);
      assert forall u :: u in ns ==> u == ns[0] || u in ns[1..] by {
        assert ns == [ns[0]] + ns[1..];
      }
      var w :| w in ns[1..] && ntl[w] == MaxLayer(ntl, ns[1..]);
      assert w in ns;
    }
  }

  /** The highest layer depends only on the layers of the nodes asked about. */
  lemma {:induction false} MaxLayerSame(a: map<nat, nat>, b: map<nat, nat>, ns: seq<nat>)
    requires ns != [] && forall u :: u in ns ==> u in a && u in b && a[u] == b[u]
    ensures MaxLayer(a, ns) == MaxLayer(b, ns)
  {
    assert ns[0] in ns;
    if |ns| > 1 {
      assert forall u :: u in ns[1..] ==> u in ns;
      MaxLayerSame(a, b, ns[1..]);
    }
  }

  /** `for i in (neighbor_l + 1)..max_layer`: a placeholder in each layer from `from` up to `to`, exclusive. */
  function FillGap(l: Layout, from: nat, to: nat): (r: Layout)
    ensures r.nodeToLayer - {Placeholder} == l.nodeToLayer - {Placeholder}
    ensures l.nodeToLayer.Keys <= r.nodeToLayer.Keys
    decreases if from < to then to - from else 0
  {
    if from >= to then l
    else
      var next := AddNode(l, Placeholder, from);
      assert next.nodeToLayer - {Placeholder} == l.nodeToLayer - {Placeholder};
      FillGap(next, from + 1, to)
  }

  /**
   * The loop over the in-neighbours `ns`: for each, a placeholder in every
   * layer strictly between the neighbour's layer and `top`.
   */
  function FillGaps(l: Layout, ns: seq<nat>, top: nat): (r: Layout)
    requires forall u :: u in ns ==> u in l.nodeToLayer
    ensures r.nodeToLayer - {Placeholder} == l.nodeToLayer - {Placeholder}
    ensures l.nodeToLayer.Keys <= r.nodeToLayer.Keys
    decreases |ns|
  {
    if ns == [] then l
    else
      var next := FillGap(l, l.nodeToLayer[ns[0]] + 1, top);
      assert forall u :: u in ns[1..] ==> u in ns;
      FillGaps(next, ns[1..], top)
  }

  /**
   * One iteration of the loop over the topological order: layer 0 for a node
   * without in-neighbours; otherwise placeholders for every neighbour, then
   * the node one layer below the lowest neighbour. `None` where the source
   * panics, on an in-neighbour without a layer.
   */
  function PlaceNodeAt<E>(l: Layout, node: nat, edges: seq<Edge<E>>): Option<Layout> {
    var ns := Incoming(edges, node);
    if ns == [] then Some(AddNode(l, node, 0))
    else if exists u :: u in ns && u !in l.nodeToLayer then None
    else
      var top := MaxLayer(l.nodeToLayer, ns) + 1;
      Some(AddNode(FillGaps(l, ns, top), node, top))
  }

  /** The whole loop over the topological order `order`, from the layout `l`. */
  function LayerAll<E>(l: Layout, order: seq<nat>, edges: seq<Edge<E>>): Option<Layout>
    decreases |order|
  {
    if order == [] then Some(l)
    else
      var next :- PlaceNodeAt(l, order[0], edges);
      LayerAll(next, order[1..], edges)
  }

  /** Every node of `done` has a layer and sits in it. */
  ghost predicate Placed(l: Layout, done: set<nat>) {
    forall v :: v in done ==> v in l.nodeToLayer && Holds(l.layers, l.nodeToLayer[v], v)
  }

  /**
   * Longest-path layering: a node of `done` without in-neighbours is in
   * layer 0, any other one layer below the lowest of its in-neighbours.
   */
  ghost predicate Layered<E>(l: Layout, done: set<nat>, edges: seq<Edge<E>>) {
    forall v :: v in done ==>
      && v in l.nodeToLayer
      && (forall u :: u in Incoming(edges, v) ==> u in l.nodeToLayer)
      && l.nodeToLayer[v] == if Incoming(edges, v) == [] then 0 else MaxLayer(l.nodeToLayer, Incoming(edges, v)) + 1
  }

  /** Every layer strictly between a node of `done` and one of its in-neighbours holds a placeholder. */
  ghost predicate Bridged<E>(l: Layout, done: set<nat>, edges: seq<Edge<E>>) {
    forall v, u, i: nat ::
      (v in done && u in Incoming(edges, v) && v in l.nodeToLayer && u in l.nodeToLayer &&
       l.nodeToLayer[u] < i < l.nodeToLayer[v]) ==> Holds(l.layers, i, Placeholder)
  }

  /** The in-neighbours of every node of `done` are in `done`. */
  ghost predicate Closed<E>(done: set<nat>, edges: seq<Edge<E>>) {
    forall v, u :: v in done && u in Incoming(edges, v) ==> u in done
  }

  /** What the loop keeps true of the nodes `done` it has placed. */
  ghost predicate Good<E>(l: Layout, done: set<nat>, edges: seq<Edge<E>>) {
    && Placeholder !in done
    && Closed(done, edges)
    && Placed(l, done)
    && Layered(l, done, edges)
    && Bridged(l, done, edges)
  }

  /** Filling a gap keeps every node where it was, and the layer of every real node. */
  lemma {:induction false} FillGapGrows(l: Layout, from: nat, to: nat)
    ensures Grows(l.layers, FillGap(l, from, to).layers)
    ensures forall i: nat :: from <= i < to ==> Holds(FillGap(l, from, to).layers, i, Placeholder)
    decreases if from < to then to - from else 0
  {
    if from < to {
      var next := AddNode(l, Placeholder, from);
      AddNodeGrows(l, Placeholder, from);
      FillGapGrows(next, from + 1, to);
    }
  }

  /** Filling the gaps keeps every node where it was and puts a placeholder strictly between each neighbour and `top`. */
  lemma {:induction false} FillGapsGrows(l: Layout, ns: seq<nat>, top: nat)
    requires forall u :: u in ns ==> u in l.nodeToLayer && u != Placeholder
    ensures Grows(l.layers, FillGaps(l, ns, top).layers)
    ensures forall u, i: nat :: (u in ns && l.nodeToLayer[u] < i < top) ==> Holds(FillGaps(l, ns, top).layers, i, Placeholder)
    decreases |ns|
  {
    if ns != [] {
      var next := FillGap(l, l.nodeToLayer[ns[0]] + 1, top);
      assert forall u :: u in ns[1..] ==> u in ns;
      FillGapGrows(l, l.nodeToLayer[ns[0]] + 1, top);
      forall u | u in ns[1..] ensures u in next.nodeToLayer && next.nodeToLayer[u] == l.nodeToLayer[u] {
        assert (next.nodeToLayer - {Placeholder})[u] == (l.nodeToLayer - {Placeholder})[u];
      }
      FillGapsGrows(next, ns[1..], top);
      assert ns == [ns[0]] + ns[1..];
    }
  }

  lemma GrowsTrans(a: seq<Layer>, b: seq<Layer>, c: seq<Layer>)
    requires Grows(a, b) && Grows(b, c)
    ensures Grows(a, c)
  {
  }

  /** Placing `node` in a layout that keeps the placed nodes where they were keeps them placed. */
  lemma PlacedStep(l: Layout, r: Layout, done: set<nat>, node: nat)
    requires Placed(l, done)
    requires Grows(l.layers, r.layers)
    requires forall k :: k in done ==> k in r.nodeToLayer && r.nodeToLayer[k] == l.nodeToLayer[k]
    requires node in r.nodeToLayer && Holds(r.layers, r.nodeToLayer[node], node)
    ensures Placed(r, done + {node})
  {
    forall v | v in done + {node} ensures v in r.nodeToLayer && Holds(r.layers, r.nodeToLayer[v], v) {
      if v != node {
        assert Holds(l.layers, l.nodeToLayer[v], v);
      }
    }
  }

  /** Placing `node` at its longest-path layer, without moving the placed nodes, keeps the layering. */
  lemma LayeredStep<E>(l: Layout, r: Layout, done: set<nat>, node: nat, edges: seq<Edge<E>>)
    requires Layered(l, done, edges) && Closed(done, edges)
    requires forall u :: u in Incoming(edges, node) ==> u in done
    requires forall k :: k in done ==> k in r.nodeToLayer && r.nodeToLayer[k] == l.nodeToLayer[k]
    requires node in r.nodeToLayer
    requires r.nodeToLayer[node] == if Incoming(edges, node) == [] then 0 else MaxLayer(l.nodeToLayer, Incoming(edges, node)) + 1
    ensures Layered(r, done + {node}, edges)
  {
    forall v | v in done + {node}
      ensures v in r.nodeToLayer
      ensures forall u :: u in Incoming(edges, v) ==> u in r.nodeToLayer
      ensures r.nodeToLayer[v] == if Incoming(edges, v) == [] then 0 else MaxLayer(r.nodeToLayer, Incoming(edges, v)) + 1
    {
      var ns := Incoming(edges, v);
      assert forall u :: u in ns ==> u in done;
      if ns != [] {
        MaxLayerSame(l.nodeToLayer, r.nodeToLayer, ns);
      }
    }
  }

  /** Placing `node` after filling the gaps above it keeps every gap bridged. */
  lemma BridgedStep<E>(l: Layout, r: Layout, done: set<nat>, node: nat, edges: seq<Edge<E>>)
    requires Bridged(l, done, edges) && Closed(done, edges) && Placed(l, done)
    requires node !in done
    requires forall u :: u in Incoming(edges, node) ==> u in done
    requires Grows(l.layers, r.layers)
    requires forall k :: k in done ==> k in r.nodeToLayer && r.nodeToLayer[k] == l.nodeToLayer[k]
    requires node in r.nodeToLayer
    requires forall u, i: nat :: (u in Incoming(edges, node) && u in l.nodeToLayer && l.nodeToLayer[u] < i < r.nodeToLayer[node]) ==> Holds(r.layers, i, Placeholder)
    ensures Bridged(r, done + {node}, edges)
  {
    forall v, u, i: nat |
      v in done + {node} && u in Incoming(edges, v) && v in r.nodeToLayer && u in r.nodeToLayer &&
      r.nodeToLayer[u] < i < r.nodeToLayer[v]
      ensures Holds(r.layers, i, Placeholder)
    {
      assert u in done;
      if v != node {
        assert Holds(l.layers, i, Placeholder);
      }
    }
  }

  /** Adding a node whose in-neighbours are all done keeps `done` closed. */
  lemma ClosedStep<E>(done: set<nat>, node: nat, edges: seq<Edge<E>>)
    requires Closed(done, edges)
    requires forall u :: u in Incoming(edges, node) ==> u in done
    ensures Closed(done + {node}, edges)
  {
  }

  /** Placing a node without in-neighbours succeeds and keeps the invariant, with the node added. */
  lemma PlaceRootGood<E>(l: Layout, done: set<nat>, node: nat, edges: seq<Edge<E>>)
    requires Good(l, done, edges)
    requires node !in done && node != Placeholder
    requires Incoming(edges, node) == []
    ensures PlaceNodeAt(l, node, edges) == Some(AddNode(l, node, 0))
    ensures Good(PlaceNodeAt(l, node, edges).value, done + {node}, edges)
  {
    var r := PlaceNodeAt(l, node, edges).value;
    assert r == AddNode(l, node, 0);
    AddNodeGrows(l, node, 0);
    PlacedStep(l, r, done, node);
    LayeredStep(l, r, done, node, edges);
    BridgedStep(l, r, done, node, edges);
    ClosedStep(done, node, edges);
  }

  /**
   * Filling the gaps above `top` and then adding `node` there keeps every
   * node where it was and the layers of the nodes `keep`, and leaves a
   * placeholder strictly between each of `ns` and `top`.
   */
  lemma GapsThenNode(l: Layout, ns: seq<nat>, top: nat, node: nat, keep: set<nat>)
    requires forall u :: u in ns ==> u in l.nodeToLayer && u != Placeholder
    requires forall k :: k in keep ==> k in l.nodeToLayer && k != Placeholder && k != node
    ensures var r := AddNode(FillGaps(l, ns, top), node, top);
      && Grows(l.layers, r.layers)
      && node in r.nodeToLayer && r.nodeToLayer[node] == top && Holds(r.layers, top, node)
      && (forall k :: k in keep ==> k in r.nodeToLayer && r.nodeToLayer[k] == l.nodeToLayer[k])
      && (forall u, i: nat :: (u in ns && u in l.nodeToLayer && l.nodeToLayer[u] < i < top) ==> Holds(r.layers, i, Placeholder))
  {
    var g := FillGaps(l, ns, top);
    var r := AddNode(g, node, top);
    FillGapsGrows(l, ns, top);
    AddNodeGrows(g, node, top);
    GrowsTrans(l.layers, g.layers, r.layers);
    forall k | k in keep ensures k in r.nodeToLayer && r.nodeToLayer[k] == l.nodeToLayer[k] {
      assert (g.nodeToLayer - {Placeholder})[k] == (l.nodeToLayer - {Placeholder})[k];
    }
  }

  /** Placing a node whose in-neighbours are all placed, after filling the gaps, keeps the invariant. */
  lemma PlaceInnerGood<E>(l: Layout, done: set<nat>, node: nat, edges: seq<Edge<E>>)
    requires Good(l, done, edges)
    requires node !in done && node != Placeholder
    requires Incoming(edges, node) != []
    requires forall u :: u in Incoming(edges, node) ==> u in done
    ensures PlaceNodeAt(l, node, edges).Some?
    ensures Good(PlaceNodeAt(l, node, edges).value, done + {node}, edges)
  {
    var ns := Incoming(edges, node);
    assert forall u :: u in ns ==> u in l.nodeToLayer && u != Placeholder;
    var top := MaxLayer(l.nodeToLayer, ns) + 1;
    var r := PlaceNodeAt(l, node, edges).value;
    assert r == AddNode(FillGaps(l, ns, top), node, top);
    GapsThenNode(l, ns, top, node, done);
    PlacedStep(l, r, done, node);
    LayeredStep(l, r, done, node, edges);
    BridgedStep(l, r, done, node, edges);
    ClosedStep(done, node, edges);
  }

  /** Placing a node whose in-neighbours are all placed succeeds and keeps the invariant, with the node added. */
  lemma PlaceNodeAtGood<E>(l: Layout, done: set<nat>, node: nat, edges: seq<Edge<E>>)
    requires Good(l, done, edges)
    requires node !in done && node != Placeholder
    requires forall u :: u in Incoming(edges, node) ==> u in done
    ensures PlaceNodeAt(l, node, edges).Some?
    ensures Good(PlaceNodeAt(l, node, edges).value, done + {node}, edges)
  {
    if Incoming(edges, node) == [] {
      PlaceRootGood(l, done, node, edges);
    } else {
      PlaceInnerGood(l, done, node, edges);
    }
  }

  /**
   * `rest` can still be placed after `done`: its nodes are distinct real
   * nodes not yet placed, and each has its in-neighbours placed before it.
   */
  ghost predicate Ready<E>(done: set<nat>, rest: seq<nat>, edges: seq<Edge<E>>) {
    && (forall k :: 0 <= k < |rest| ==> rest[k] !in done && rest[k] != Placeholder)
    && (forall k, j :: 0 <= k < j < |rest| ==> rest[k] != rest[j])
    && (forall k, u :: 0 <= k < |rest| && u in Incoming(edges, rest[k]) ==> u in done || u in rest[..k])
  }

  /** Placing a ready sequence of nodes succeeds and keeps the invariant, with all of them added. */
  lemma {:induction false} LayerAllGood<E>(l: Layout, done: set<nat>, order: seq<nat>, edges: seq<Edge<E>>)
    requires Good(l, done, edges) && Ready(done, order, edges)
    ensures LayerAll(l, order, edges).Some?
    ensures Good(LayerAll(l, order, edges).value, done + (set v | v in order), edges)
    decreases |order|
  {
    if order != [] {
      var node := order[0];
      ReadyStep(done, order, edges);
      PlaceNodeAtGood(l, done, node, edges);
      LayerAllGood(PlaceNodeAt(l, node, edges).value, done + {node}, order[1..], edges);
      MembersCons(done, order);
    }
  }

  lemma MembersCons(done: set<nat>, order: seq<nat>)
    requires order != []
    ensures (done + {order[0]}) + (set v | v in order[1..]) == done + (set v | v in order)
  {
    assert order == [order[0]] + order[1..];
  }

  /** The head of a ready sequence can be placed now, and the rest is ready after it. */
  lemma ReadyStep<E>(done: set<nat>, order: seq<nat>, edges: seq<Edge<E>>)
    requires Ready(done, order, edges) && order != []
    ensures order[0] !in done && order[0] != Placeholder
    ensures forall u :: u in Incoming(edges, order[0]) ==> u in done
    ensures Ready(done + {order[0]}, order[1..], edges)
  {
    var node := order[0];
    assert forall u :: u in Incoming(edges, node) ==> u in done by {
      assert order[..0] == [];
    }
    var rest := order[1..];
    forall k, u | 0 <= k < |rest| && u in Incoming(edges, rest[k]) ensures u in done + {node} || u in rest[..k] {
      assert rest[k] == order[k + 1];
      assert order[..k + 1] == [node] + rest[..k];
    }
  }

  /** A topological order of a graph whose nodes are all real nodes is ready to be placed from scratch. */
  lemma TopologicalReady<E>(order: seq<nat>, n: nat, edges: seq<Edge<E>>)
    requires n <= Placeholder && IsTopologicalOrder(order, n, edges)
    ensures Ready({}, order, edges)
  {
    forall k, u | 0 <= k < |order| && u in Incoming(edges, order[k]) ensures u in order[..k] {
      IncomingMembers(edges, order[k]);
      var i :| 0 <= i < |edges| && edges[i].target == order[k] && edges[i].source == u;
      assert edges[i] in edges;
      var ku := IndexOf(order, u);
      assert IndexOf(order, order[k]) == k;
      assert order[..k][ku] == u;
    }
  }

  /** An empty layout keeps the invariant vacuously. */
  lemma EmptyGood<E>(edges: seq<Edge<E>>)
    ensures Good(Layout([], map[]), {}, edges)
  {
  }

  /**
   * The layering of a graph along a topological order: it succeeds, and
   * every node is in its layer, at layer 0 without in-neighbours and one
   * layer below the lowest in-neighbour otherwise, with a placeholder in
   * every layer an edge skips.
   */
  lemma LayeringGood<T, E>(g: Graph<T, E>, order: seq<nat>)
    requires |g.nodes| <= Placeholder && IsTopologicalOrder(order, |g.nodes|, g.edges)
    ensures LayerAll(Layout([], map[]), order, g.edges).Some?
    ensures Good(LayerAll(Layout([], map[]), order, g.edges).value, (set v | v in order), g.edges)
  {
    TopologicalReady(order, |g.nodes|, g.edges);
    EmptyGood(g.edges);
    LayerAllGood(Layout([], map[]), {}, order, g.edges);
    assert {} + (set v | v in order) == set v | v in order;
  }

  /** The layering of a graph along a topological order is a longest-path layering of all its nodes. */
  lemma LayeringLayered<T, E>(g: Graph<T, E>, order: seq<nat>)
    requires |g.nodes| <= Placeholder && IsTopologicalOrder(order, |g.nodes|, g.edges)
    ensures LayerAll(Layout([], map[]), order, g.edges).Some?
    ensures Layered(LayerAll(Layout([], map[]), order, g.edges).value, (set v | v in order), g.edges)
  {
    LayeringGood(g, order);
  }

  /** In a longest-path layering, the layer of one node. */
  lemma LayerOfNode<E>(l: Layout, done: set<nat>, edges: seq<Edge<E>>, v: nat)
    requires Layered(l, done, edges) && v in done
    ensures v in l.nodeToLayer && forall u :: u in Incoming(edges, v) ==> u in l.nodeToLayer
    ensures l.nodeToLayer[v] == if Incoming(edges, v) == [] then 0 else MaxLayer(l.nodeToLayer, Incoming(edges, v)) + 1
  {
  }

  /** Under the invariant, every edge into a placed node comes from a strictly lower layer number. */
  lemma EdgesGoUp<E>(l: Layout, done: set<nat>, edges: seq<Edge<E>>)
    requires Good(l, done, edges)
    ensures forall e :: e in edges && e.target in done ==>
      && e.source in done && e.source in l.nodeToLayer && e.target in l.nodeToLayer
      && l.nodeToLayer[e.source] < l.nodeToLayer[e.target]
  {
    forall e | e in edges && e.target in done
      ensures e.source in done && e.source in l.nodeToLayer && e.target in l.nodeToLayer
      ensures l.nodeToLayer[e.source] < l.nodeToLayer[e.target]
    {
      var k :| 0 <= k < |edges| && edges[k] == e;
      IncomingMembers(edges, e.target);
      assert e.source in Incoming(edges, e.target);
      MaxLayerBounds(l.nodeToLayer, Incoming(edges, e.target));
    }
  }

  /** Under the invariant, a placed node is in layer 0 exactly when no edge points to it. */
  lemma RootsAtZero<E>(l: Layout, done: set<nat>, edges: seq<Edge<E>>)
    requires Good(l, done, edges)
    ensures forall v :: v in done ==> v in l.nodeToLayer && (l.nodeToLayer[v] == 0 <==> forall e :: e in edges ==> e.target != v)
  {
    forall v | v in done ensures v in l.nodeToLayer && (l.nodeToLayer[v] == 0 <==> forall e :: e in edges ==> e.target != v) {
      IncomingMembers(edges, v);
      if Incoming(edges, v) != [] {
        var u := Incoming(edges, v)[0];
        assert u in Incoming(edges, v);
        var k :| 0 <= k < |edges| && edges[k].target == v && edges[k].source == u;
        assert edges[k] in edges;
      } else {
        forall e | e in edges ensures e.target != v {
          var k :| 0 <= k < |edges| && edges[k] == e;
          IncomingMembers(edges, e.target);
          assert e.source in Incoming(edges, e.target);
        }
      }
    }
  }

  /** Under the invariant, every layer an edge into a placed node skips holds a placeholder. */
  lemma SkippedLayersHold<E>(l: Layout, done: set<nat>, edges: seq<Edge<E>>)
    requires Good(l, done, edges)
    ensures forall e, i: nat ::
      (e in edges && e.target in done && e.source in l.nodeToLayer && e.target in l.nodeToLayer &&
       l.nodeToLayer[e.source] < i < l.nodeToLayer[e.target]) ==> Holds(l.layers, i, Placeholder)
  {
    forall e, i: nat | e in edges && e.target in done && e.source in l.nodeToLayer && e.target in l.nodeToLayer &&
      l.nodeToLayer[e.source] < i < l.nodeToLayer[e.target]
      ensures Holds(l.layers, i, Placeholder)
    {
      var k :| 0 <= k < |edges| && edges[k] == e;
      IncomingMembers(edges, e.target);
      assert e.source in Incoming(edges, e.target);
    }
  }
}
