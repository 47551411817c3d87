/**
 * Step 1 of `sugiyama_method` in src/sugiyama.rs, the cycle removal: every
 * edge of the feedback arc set is replaced by the same edge pointing the
 * other way, with the same weight. The edges are identified by their
 * indices in the original graph.
 */
module Cycles {
  import opened Graphs

  /**
   * petgraph's `remove_edge`: the last edge moves into the freed index, so
   * the index of the edge that was last changes.
   */
  function SwapRemove<E>(edges: seq<Edge<E>>, id: nat): (r: seq<Edge<E>>)
    requires id < |edges|
    ensures |r| == |edges| - 1
    ensures forall i :: 0 <= i < |r| && i != id ==> r[i] == edges[i]
    ensures id < |r| ==> r[id] == edges[|edges| - 1]
  {
    var last := |edges| - 1;
    if id == last then edges[..last] else edges[..last][id := edges[last]]
  }

  /**
   * The reversal loop as written: the indices `fas` come from the original
   * graph `original` and are used on `internal`, whose indices the earlier
   * removals have moved.
   */
  function ReverseArcsAsWritten<E>(internal: seq<Edge<E>>, original: seq<Edge<E>>, fas: seq<nat>): (r: seq<Edge<E>>)
    requires |internal| == |original|
    requires forall k :: 0 <= k < |fas| ==> fas[k] < |original|
    ensures |r| == |original|
    decreases |fas|
  {
    if fas == [] then internal
    else
      var e := original[fas[0]];
      ReverseArcsAsWritten(SwapRemove(internal, fas[0]) + [Reversed(e)], original, fas[1..])
  }

  /** The reversal as intended: the edge at each index of `fas` becomes its reverse, in place. */
  function ReverseArcs<E>(internal: seq<Edge<E>>, original: seq<Edge<E>>, fas: seq<nat>): (r: seq<Edge<E>>)
    requires |internal| == |original|
    requires forall k :: 0 <= k < |fas| ==> fas[k] < |original|
    ensures |r| == |original|
    decreases |fas|
  {
    if fas == [] then internal
    else ReverseArcs(internal[fas[0] := Reversed(original[fas[0]])], original, fas[1..])
  }

  /**
   * The intended reversal keeps the number of edges, turns every feedback
   * arc around with its weight, and leaves every other edge alone.
   */
  lemma {:induction false} ReverseArcsPointwise<E>(internal: seq<Edge<E>>, original: seq<Edge<E>>, fas: seq<nat>)
    requires |internal| == |original|
    requires forall k :: 0 <= k < |fas| ==> fas[k] < |original|
    ensures forall i :: 0 <= i < |original| ==>
      ReverseArcs(internal, original, fas)[i] == if i in fas then Reversed(original[i]) else internal[i]
    decreases |fas|
  {
    if fas != [] {
      var next := internal[fas[0] := Reversed(original[fas[0]])];
      ReverseArcsPointwise(next, original, fas[1..]);
      forall i | 0 <= i < |original|
        ensures ReverseArcs(internal, original, fas)[i] == if i in fas then Reversed(original[i]) else internal[i]
      {
        assert i in fas <==> i == fas[0] || i in fas[1..] by {
          assert fas == [fas[0]] + fas[1..];
        }
      }
    }
  }

  /** A graph with edges both ways between two nodes has no topological order. */
  lemma TwoCycleHasNoOrder<E>(order: seq<nat>, n: nat, edges: seq<Edge<E>>, a: nat, b: nat)
    requires exists e :: e in edges && e.source == a && e.target == b
    requires exists e :: e in edges && e.source == b && e.target == a
    ensures !IsTopologicalOrder(order, n, edges)
  {
  }

  /** Two 2-cycles, `0 <-> 1` and `2 <-> 3`, whose edges `1 -> 0` and `3 -> 2` form a feedback arc set. */
  function TwoCycles(): seq<Edge<string>> {
    [Edge(0, 1, "a"), Edge(1, 0, "b"), Edge(2, 3, "c"), Edge(3, 2, "d")]
  }

  /**
   * As written, the second removal takes out the edge the first reversal
   * has just added, so `3 -> 2` stays and the cycle `2 <-> 3` survives:
   * no topological order exists and `toposort(..).unwrap()` panics.
   */
  lemma AsWrittenKeepsCycle()
    ensures ReverseArcsAsWritten(TwoCycles(), TwoCycles(), [1, 3]) ==
      [Edge(0, 1, "a"), Edge(3, 2, "d"), Edge(2, 3, "c"), Edge(2, 3, "d")]
    ensures forall order :: !IsTopologicalOrder(order, 4, ReverseArcsAsWritten(TwoCycles(), TwoCycles(), [1, 3]))
  {
    var g := TwoCycles();
    var first := SwapRemove(g, 1) + [Reversed(g[1])];
    assert first == [Edge(0, 1, "a"), Edge(3, 2, "d"), Edge(2, 3, "c"), Edge(0, 1, "b")];
    var second := SwapRemove(first, 3) + [Reversed(g[3])];
    assert second == [Edge(0, 1, "a"), Edge(3, 2, "d"), Edge(2, 3, "c"), Edge(2, 3, "d")];
    assert ReverseArcsAsWritten(first, g, [3]) == ReverseArcsAsWritten(second, g, []);
    forall order | true ensures !IsTopologicalOrder(order, 4, second) {
      assert second[1] in second && second[2] in second;
      TwoCycleHasNoOrder(order, 4, second, 2, 3);
    }
  }

  /** Reversed in place, the same feedback arc set leaves an acyclic graph with a topological order. */
  lemma IntendedBreaksCycles()
    ensures ReverseArcs(TwoCycles(), TwoCycles(), [1, 3]) ==
      [Edge(0, 1, "a"), Edge(0, 1, "b"), Edge(2, 3, "c"), Edge(2, 3, "d")]
    ensures IsTopologicalOrder([0, 1, 2, 3], 4, ReverseArcs(TwoCycles(), TwoCycles(), [1, 3]))
  {
    var g := TwoCycles();
    var r := [Edge(0, 1, "a"), Edge(0, 1, "b"), Edge(2, 3, "c"), Edge(2, 3, "d")];
    assert ReverseArcs(g, g, [1, 3]) == r;
    InOrderAlongEdges(r);
  }

  /** `0, 1, 2, 3` is a topological order of the edges `0 -> 1` and `2 -> 3`. */
  lemma InOrderAlongEdges(r: seq<Edge<string>>)
    requires r == [Edge(0, 1, "a"), Edge(0, 1, "b"), Edge(2, 3, "c"), Edge(2, 3, "d")]
    ensures IsTopologicalOrder([0, 1, 2, 3], 4, r)
  {
    var order := [0, 1, 2, 3];
    CountingPositions();
    assert forall e :: e in r ==> e == r[0] || e == r[1] || e == r[2] || e == r[3];
  }

  lemma CountingPositions()
    ensures IndexOf([0, 1, 2, 3], 0) == 0 && IndexOf([0, 1, 2, 3], 1) == 1
    ensures IndexOf([0, 1, 2, 3], 2) == 2 && IndexOf([0, 1, 2, 3], 3) == 3
  {
    assert [0, 1, 2, 3][1..] == [1, 2, 3] && [1, 2, 3][1..] == [2, 3] && [2, 3][1..] == [3];
  }
}
