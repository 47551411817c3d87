/**
 * The directed graph the pipeline works on, as petgraph's `DiGraph` stores
 * it: node weights in insertion order (a node's index is its position) and
 * edges in insertion order, each with a source, a target and a weight.
 */
module Graphs {

  /** An edge `source -> target` carrying `weight`. */
  datatype Edge<E> = Edge(source: nat, target: nat, weight: E)

  datatype Graph<T, E> = Graph(nodes: seq<T>, edges: seq<Edge<E>>)

  /** Every edge joins two existing nodes. */
  ghost predicate WellFormed<T, E>(g: Graph<T, E>) {
    forall i :: 0 <= i < |g.edges| ==> g.edges[i].source < |g.nodes| && g.edges[i].target < |g.nodes|
  }

  /** The same edge pointing the other way, with the same weight. */
  function Reversed<E>(e: Edge<E>): Edge<E> {
    Edge(e.target, e.source, e.weight)
  }

  /**
   * The sources of the edges into `n`, one per edge (parallel edges give
   * repeated sources), in edge order.
   */
  function Incoming<E>(edges: seq<Edge<E>>, n: nat): (r: seq<nat>)
    ensures |r| <= |edges|
  {
    if edges == [] then []
    else
      var front := Incoming(edges[..|edges| - 1], n);
      var last := edges[|edges| - 1];
      if last.target == n then front + [last.source] else front
  }

  /** The in-neighbours of `n` are exactly the sources of the edges into `n`. */
  lemma {:induction false} IncomingMembers<E>(edges: seq<Edge<E>>, n: nat)
    ensures forall u :: u in Incoming(edges, n) <==> exists i :: 0 <= i < |edges| && edges[i].target == n && edges[i].source == u
  {
    if edges != [] {
      var front := edges[..|edges| - 1];
      IncomingMembers(front, n);
      assert forall i :: 0 <= i < |edges| - 1 ==> front[i] == edges[i];
      assert edges[|edges| - 1] == edges[|edges| - 1];
    }
  }

  /** The position of `v` in `order`, when it occurs there. */
  function IndexOf(order: seq<nat>, v: nat): (k: nat)
    requires v in order
    ensures k < |order| && order[k] == v
    ensures forall j :: 0 <= j < k ==> order[j] != v
  {
    if order[0] == v then 0 else 1 + IndexOf(order[1..], v)
  }

  /**
   * What `toposort` returns on an acyclic graph of `n` nodes: every node
   * exactly once, and every edge from an earlier node to a later one.
   */
  ghost predicate IsTopologicalOrder<E>(order: seq<nat>, n: nat, edges: seq<Edge<E>>) {
    && |order| == n
    && (forall i, j :: 0 <= i < j < |order| ==> order[i] != order[j])
    && (forall i :: 0 <= i < |order| ==> order[i] < n)
    && (forall v :: 0 <= v < n ==> v in order)
    && (forall e :: e in edges ==> e.source in order && e.target in order && IndexOf(order, e.source) < IndexOf(order, e.target))
  }
}
