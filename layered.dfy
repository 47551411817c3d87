/**
 * `LayeredGraph` of src/sugiyama.rs: the layers of a layout under
 * construction, each a map from slot to node, the layer of every node placed
 * so far, and the graph whose nodes are laid out.
 */
module LayeredGraphs {
  import opened Wrappers
  import opened Slots
  import opened Median
  import opened Graphs
  import opened Layers

  class LayeredGraph<T, E> {
    var layers: seq<Layer>
    var nodeToLayer: map<nat, nat>
    const graph: Graph<T, E>

    /** `LayeredGraph::new`: no layers and no node placed yet. */
    constructor (graph: Graph<T, E>)
      ensures this.graph == graph
      ensures layers == [] && nodeToLayer == map[]
    {
      this.graph := graph;
      layers := [];
      nodeToLayer := map[];
    }

    /**
     * `add_node_to_layer`: record the node's layer, growing the layers with
     * empty ones up to `layer`, and put the node after the last slot of its layer.
     */
    method AddNodeToLayer(node: nat, layer: nat)
      modifies this
      ensures nodeToLayer == old(nodeToLayer)[node := layer]
      ensures layers == Place(old(layers), node, layer)
    {
      nodeToLayer := nodeToLayer[node := layer];
      if layer >= |layers| {
        var empty: Layer := map[];
        layers := layers + seq(layer + 1 - |layers|, _ => empty);
      }
      var maxPos := NextSlot(layers[layer]);
      var filled: Layer := layers[layer][maxPos := node];
      layers := layers[layer := filled];
    }

    /** The `filter_map` over `prev`: its slots, in ascending order, whose node is one of `neighbours`. */
    static method NeighbourSlots(prev: Layer, neighbours: set<nat>) returns (prevIdx: seq<nat>)
      ensures prevIdx == PrevSlots(prev, Ascending(prev.Keys), neighbours)
    {
      var ks := Ascending(prev.Keys);
      prevIdx := [];
      for i := 0 to |ks|
        invariant prevIdx == PrevSlots(prev, ks[..i], neighbours)
      {
        assert ks[..i + 1][..i] == ks[..i];
        if prev[ks[i]] in neighbours {
          prevIdx := prevIdx + [ks[i]];
        }
      }
      assert ks[..|ks|] == ks;
    }

    /**
     * The median slot, in `prev`, of the in-neighbours of `node` in the
     * graph; `None` where `compute_median` panics on an empty list.
     */
    method MedianOf(prev: Layer, node: nat) returns (m: Option<nat>)
      ensures m == MediansAgainst(prev, graph.edges)(node)
    {
      var allNeighbours := Neighbours(graph.edges, node);
      var prevIdx := NeighbourSlots(prev, allNeighbours);
      m := ComputeMedian(prevIdx);
    }

    /** The `while new_pos.contains_key(&est_pos)` probe: the first slot at or after `start` that `newPos` leaves free. */
    static method Probe(newPos: Layer, start: nat) returns (estPos: nat)
      ensures estPos == FirstFree(newPos, start)
    {
      estPos := start;
      ghost var bound := if start < NextSlot(newPos) then NextSlot(newPos) else start;
      assert bound !in newPos;
      while estPos in newPos
        invariant start <= estPos <= bound
        invariant forall p :: start <= p < estPos ==> p in newPos
        decreases bound - estPos
      {
        estPos := estPos + 1;
      }
      FirstFreeIs(newPos, start, estPos);
    }

    /**
     * The body of the inner loop of `crossing_minimization`: put `node` in
     * `newPos` at the first free slot at or after its median slot against
     * `prev`. `ok` is false where the source panics, on a node with no
     * in-neighbour in `prev`.
     */
    method PlaceNode(prev: Layer, newPos: Layer, node: nat) returns (placed: Layer, ok: bool)
      ensures var m := MediansAgainst(prev, graph.edges)(node);
        && (ok <==> m.Some?)
        && (ok ==> placed == newPos[FirstFree(newPos, m.value) := node])
    {
      var m := MedianOf(prev, node);
      if m.None? {
        return newPos, false;
      }
      var estPos := Probe(newPos, m.value);
      placed := newPos[estPos := node];
      ok := true;
    }

    /**
     * The body of the outer loop of `crossing_minimization`: place the nodes
     * of `curr`, in slot order, each at the first free slot at or after the
     * median slot of its in-neighbours in `prev`. `ok` is false where the
     * source panics.
     */
    method Rearrange(prev: Layer, curr: Layer) returns (newPos: Layer, ok: bool)
      ensures ok <==> ReorderLayer(prev, curr, graph.edges).Some?
      ensures ok ==> newPos == ReorderLayer(prev, curr, graph.edges).value
    {
      var ks := Ascending(curr.Keys);
      ghost var median := MediansAgainst(prev, graph.edges);
      newPos := map[];
      for j := 0 to |ks|
        invariant PlaceFrom(curr, ks, j, newPos, median) == ReorderLayer(prev, curr, graph.edges)
      {
        PlaceFromStep(curr, ks, j, newPos, median);
        var placed, done := PlaceNode(prev, newPos, curr[ks[j]]);
        if !done {
          return newPos, false;
        }
        newPos := placed;
      }
      return newPos, true;
    }

    /**
     * `crossing_minimization`: rearrange every layer from 1 on, top-down,
     * each against the new arrangement of the layer above it. `ok` is false
     * where the source panics.
     */
    method CrossingMinimization() returns (ok: bool)
      modifies this
      ensures nodeToLayer == old(nodeToLayer)
      ensures ok <==> Minimize(old(layers), graph.edges).Some?
      ensures ok ==> layers == Minimize(old(layers), graph.edges).value
    {
      var layerN := 1;
      while layerN < |layers|
        invariant 1 <= layerN
        invariant nodeToLayer == old(nodeToLayer)
        invariant MinimizeFrom(layers, layerN, MediansIn(graph.edges)) == Minimize(old(layers), graph.edges)
        decreases |layers| - layerN
      {
        var newPos, done := Rearrange(layers[layerN - 1], layers[layerN]);
        if !done {
          return false;
        }
        layers := layers[layerN := newPos];
        layerN := layerN + 1;
      }
      return true;
    }
  }
}
