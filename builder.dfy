/**
 * `parse_to_graph` of src/parse.rs: parse a document with `all_relations`,
 * then turn the relationships into a graph with one node per distinct box
 * name and one labelled edge per relationship.
 */
module GraphBuilder {
  import opened Wrappers
  import opened Grammar
  import opened Graphs

  /** The box names in the order the builder meets them: source, then target, relationship by relationship. */
  function Names(arrows: seq<CArrow>): (r: seq<string>)
    ensures |r| == 2 * |arrows|
  {
    if arrows == [] then []
    else
      var last := arrows[|arrows| - 1];
      Names(arrows[..|arrows| - 1]) + [last.from.name, last.to.name]
  }

  /** The distinct elements of `xs`, each where it first occurs. */
  function Dedup(xs: seq<string>): (r: seq<string>)
    ensures forall x :: x in r <==> x in xs
    ensures forall i, j :: 0 <= i < j < |r| ==> r[i] != r[j]
  {
    if xs == [] then []
    else
      var d := Dedup(xs[..|xs| - 1]);
      var x := xs[|xs| - 1];
      assert forall y :: y in xs <==> y in xs[..|xs| - 1] || y == x by {
        assert xs == xs[..|xs| - 1] + [x];
      }
      if x in d then d else d + [x]
  }

  lemma DedupSnoc(xs: seq<string>, x: string)
    ensures Dedup(xs + [x]) == if x in Dedup(xs) then Dedup(xs) else Dedup(xs) + [x]
  {
    assert (xs + [x])[..|xs|] == xs;
  }

  /** The number of distinct names: one node per name. */
  lemma {:induction false} DedupCount(xs: seq<string>)
    ensures |Dedup(xs)| == |set x | x in xs|
  {
    if xs != [] {
      var front, x := xs[..|xs| - 1], xs[|xs| - 1];
      assert xs == front + [x];
      DedupCount(front);
      DedupSnoc(front, x);
      assert (set y | y in xs) == (set y | y in front) + {x};
    }
  }

  /**
   * Nodes are created in first-occurrence order and never reordered: the
   * distinct names of any prefix are a prefix of the distinct names of the whole.
   */
  lemma {:induction false} DedupPrefix(xs: seq<string>, n: nat)
    requires n <= |xs|
    ensures Dedup(xs[..n]) <= Dedup(xs)
    decreases |xs| - n
  {
    if n < |xs| {
      DedupPrefix(xs, n + 1);
      assert xs[..n + 1] == xs[..n] + [xs[n]];
      DedupSnoc(xs[..n], xs[n]);
    } else {
      assert xs[..n] == xs;
    }
  }

  /** What `parse_to_graph` builds from the relationships `arrows`. */
  ghost predicate Builds(arrows: seq<CArrow>, g: Graph<string, Option<string>>) {
    && g.nodes == Dedup(Names(arrows))
    && |g.edges| == |arrows|
    && WellFormed(g)
    && forall i :: 0 <= i < |arrows| ==>
         && g.nodes[g.edges[i].source] == arrows[i].from.name
         && g.nodes[g.edges[i].target] == arrows[i].to.name
         && g.edges[i].weight == arrows[i].name
  }

  /** `nodes_seen` maps each name of `nodes` to its index, and nothing else. */
  ghost predicate Indexes(seen: map<string, nat>, nodes: seq<string>) {
    && (forall k :: k in seen <==> k in nodes)
    && (forall k :: k in seen ==> seen[k] < |nodes| && nodes[seen[k]] == k)
  }

  /** The lookup-or-insert of one name in `nodes_seen`, adding a node for a new name. */
  method NodeFor(nodes: seq<string>, seen: map<string, nat>, name: string)
    returns (id: nat, nodes': seq<string>, seen': map<string, nat>)
    requires Indexes(seen, nodes)
    ensures nodes' == if name in nodes then nodes else nodes + [name]
    ensures Indexes(seen', nodes')
    ensures id < |nodes'| && nodes'[id] == name
  {
    if name in seen {
      id, nodes', seen' := seen[name], nodes, seen;
    } else {
      id := |nodes|;
      nodes' := nodes + [name];
      seen' := seen[name := id];
    }
  }

  /** Edge `j` of `edges` joins the nodes named by relationship `j` and carries its label. */
  ghost predicate EdgesMatch(arrows: seq<CArrow>, nodes: seq<string>, edges: seq<Edge<Option<string>>>, n: nat)
    requires n <= |arrows| && n <= |edges|
  {
    forall j :: 0 <= j < n ==>
      && edges[j].source < |nodes| && edges[j].target < |nodes|
      && nodes[edges[j].source] == arrows[j].from.name
      && nodes[edges[j].target] == arrows[j].to.name
      && edges[j].weight == arrows[j].name
  }

  /** Adding nodes and then the edge of relationship `n` keeps the earlier edges matching. */
  lemma EdgesMatchStep(arrows: seq<CArrow>, nodes: seq<string>, nodes': seq<string>,
                       edges: seq<Edge<Option<string>>>, n: nat, f: nat, t: nat)
    requires n < |arrows| && n == |edges|
    requires EdgesMatch(arrows, nodes, edges, n) && nodes <= nodes'
    requires f < |nodes'| && nodes'[f] == arrows[n].from.name
    requires t < |nodes'| && nodes'[t] == arrows[n].to.name
    ensures EdgesMatch(arrows, nodes', edges + [Edge(f, t, arrows[n].name)], n + 1)
  {
    var edges' := edges + [Edge(f, t, arrows[n].name)];
    forall j | 0 <= j < n + 1
      ensures edges'[j].source < |nodes'| && edges'[j].target < |nodes'|
      ensures nodes'[edges'[j].source] == arrows[j].from.name
      ensures nodes'[edges'[j].target] == arrows[j].to.name
      ensures edges'[j].weight == arrows[j].name
    {
      if j < n {
        assert edges'[j] == edges[j];
        assert nodes[edges[j].source] == nodes'[edges[j].source];
        assert nodes[edges[j].target] == nodes'[edges[j].target];
      }
    }
  }

  lemma NamesSnoc(arrows: seq<CArrow>, i: nat)
    requires i < |arrows|
    ensures Names(arrows[..i + 1]) == Names(arrows[..i]) + [arrows[i].from.name] + [arrows[i].to.name]
  {
    assert arrows[..i + 1][..i] == arrows[..i];
  }

  /** The distinct names after relationship `i`: those before, then its source and target if new. */
  lemma DedupStep(arrows: seq<CArrow>, i: nat)
    requires i < |arrows|
    ensures var d := Dedup(Names(arrows[..i]));
      var d' := if arrows[i].from.name in d then d else d + [arrows[i].from.name];
      Dedup(Names(arrows[..i + 1])) == if arrows[i].to.name in d' then d' else d' + [arrows[i].to.name]
  {
    var ar := arrows[i];
    NamesSnoc(arrows, i);
    DedupSnoc(Names(arrows[..i]), ar.from.name);
    DedupSnoc(Names(arrows[..i]) + [ar.from.name], ar.to.name);
  }

  /**
   * The `for_each` loop of `parse_to_graph`: look each name up in
   * `nodes_seen`, adding a node the first time, then add the edge.
   */
  method BuildGraph(arrows: seq<CArrow>) returns (g: Graph<string, Option<string>>)
    ensures Builds(arrows, g)
  {
    var nodes: seq<string> := [];
    var edges: seq<Edge<Option<string>>> := [];
    var seen: map<string, nat> := map[];
    for i := 0 to |arrows|
      invariant nodes == Dedup(Names(arrows[..i]))
      invariant Indexes(seen, nodes)
      invariant |edges| == i
      invariant EdgesMatch(arrows, nodes, edges, i)
    {
      var ar := arrows[i];
      DedupStep(arrows, i);
      ghost var before := nodes;
      var f, t;
      f, nodes, seen := NodeFor(nodes, seen, ar.from.name);
      t, nodes, seen := NodeFor(nodes, seen, ar.to.name);
      EdgesMatchStep(arrows, before, nodes, edges, i, f, t);
      edges := edges + [Edge(f, t, ar.name)];
    }
    FinishedBuilds(arrows, nodes, edges);
    g := Graph(nodes, edges);
  }

  /** Once every relationship is processed, the nodes and edges are what `parse_to_graph` promises. */
  lemma FinishedBuilds(arrows: seq<CArrow>, nodes: seq<string>, edges: seq<Edge<Option<string>>>)
    requires nodes == Dedup(Names(arrows[..|arrows|]))
    requires |edges| == |arrows| && EdgesMatch(arrows, nodes, edges, |arrows|)
    ensures Builds(arrows, Graph(nodes, edges))
  {
    assert arrows[..|arrows|] == arrows;
  }

  /** `parse_to_graph`: `None` exactly when `all_relations` rejects the text. */
  method ParseToGraph(text: string) returns (r: Option<Graph<string, Option<string>>>)
    ensures r.None? <==> ParseAllRelations(text).None?
    ensures r.Some? ==> Builds(ParseAllRelations(text).value, r.value)
  {
    var relationships := ParseAllRelations(text);
    if relationships.None? {
      return None;
    }
    var g := BuildGraph(relationships.value);
    return Some(g);
  }
}
