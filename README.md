# code-as-c4: the parser and the Sugiyama layout, in Dafny

code-as-c4 reads a small text language of boxes and arrows and draws the
resulting diagram. This project models the two parts of it that compute
something:

- **The `c4lang` grammar and `parse_to_graph`** (src/parse.rs). This is a
  rust-peg grammar whose rules are `identifier`, `string`, `whitespaces`,
  `all_ws`, `name_assignment`, `point_to`, `relationship` and
  `all_relations`. A document such as `cow ---hoho----> fresh` becomes a
  list of `CArrow`s. `parse_to_graph` turns that list into a petgraph
  `DiGraph` with one node per distinct box name, in first-seen order, and
  one edge per relationship, labelled with the arrow's optional name.
- **The Sugiyama layout** (src/sugiyama.rs). A `LayeredGraph` holds a
  sequence of layers, each a `BTreeMap` from slot to node, plus the layer of
  every placed node. `sugiyama_method` then runs three steps:
  - It reverses a feedback arc set of a copy of the graph.
  - It places the nodes layer by layer along a topological order of that
    copy: each node goes one layer below its lowest in-neighbour, and a
    placeholder node goes into every layer an edge skips.
  - It runs one top-down median pass, `crossing_minimization`. Each node of
    layer `i` moves to the first free slot at or after the median slot of
    its in-neighbours in layer `i - 1`.

Modules:

| file | module | what it holds |
|---|---|---|
| wrappers.dfy | `Wrappers` | `Option` with `:-` |
| grammar.dfy | `Grammar` | one function per grammar rule, from the input to `None` or to the value and the rest of the input |
| grammar_properties.dfy | `GrammarProperties` | what each rule accepts; a printer whose documents `all_relations` reads back; the `test_parser` examples |
| graphs.dfy | `Graphs` | `DiGraph` as a node sequence and an edge sequence; in-neighbours; topological orders |
| builder.dfy | `GraphBuilder` | `parse_to_graph` as methods with loops, proved against `Builds` |
| median.dfy | `Median` | `compute_median` |
| slots.dfy | `Slots` | a layer as `map<nat, nat>`: next slot, first free slot, ascending slots, multiset of nodes |
| layers.dfy | `Layers` | `add_node_to_layer` and `crossing_minimization` as functions on values, with their properties |
| layered.dfy | `LayeredGraphs` | the `LayeredGraph` class; its methods update `layers` and `nodeToLayer` in place and are proved against `Layers` |
| layering.dfy | `Layering` | the layer-assignment loop as functions, and the invariant it keeps |
| cycles.dfy | `Cycles` | reversing the feedback arc set, as written and as intended |
| layer_counts.dfy | `LayerCounts` | the layer assignment counted: each node of the order is placed exactly once |
| sugiyama.dfy | `Sugiyama` | `sugiyama_method` as methods on a `LayeredGraph`, proved against `Layering` and `Layers` |
| diamond.dfy | `DiamondRun` | `sugiyama_method` run to the end on the diamond graph, with its concrete layers |

Behaviours of the code worth knowing:

- **Placeholders share one id.** Every placeholder is
  `NodeIndex::new(usize::MAX)`. With petgraph's default 32-bit index this is
  `0xFFFF_FFFF` (`Layers.Placeholder`), not a distinct node per gap.
- **A placeholder below layer 0 always makes the median pass panic.** A
  placeholder has no in-neighbours, so `compute_median` indexes an empty
  vector (`Layers.PlaceholderFails`).
- **Consequence for the whole pipeline.** Any edge of the working graph that
  spans more than one layer makes `sugiyama_method` panic
  (`Sugiyama.LongEdgeFails`).
- **A node with no in-neighbour in the layer above also panics.** The code
  does not fall back to slot 0. Every panic is a `None` or an `ok == false`
  in the model. Conversely, the pass runs to the end exactly when every node
  below layer 0 has an in-neighbour in the layer above
  (`Layers.MinimizeSucceeds`); the diamond `0 -> 1, 0 -> 2, 1 -> 3, 2 -> 3`
  is such a graph (`DiamondRun.RunDiamond`).
- **Identifiers need at least two characters.** A one-letter box name such
  as `a` in `a --> b` is rejected (`GrammarProperties.OneLetterNamesRejected`).
- **Identifiers may start with almost anything.** The first character may
  be any non-digit, a space or a `-` included.

## Model

| member | source | states |
|---|---|---|
| Grammar.Span | src/parse.rs:17 | greedy repetition `[p]*` consumes the longest prefix whose characters all satisfy `p`, stopping at the first that does not |
| Grammar.Identifier | src/parse.rs:6-7 | `identifier` matches exactly when the input starts with a non-digit followed by a character of `[0-9a-zA-Z_]`; the value is a non-digit and one or more such characters, and it consumes the whole run of them |
| Grammar.Whitespaces | src/parse.rs:16-17 | `whitespaces` never fails, consumes only spaces and stops at the first non-space |
| Grammar.AllWs | src/parse.rs:19-20 | `all_ws` never fails, consumes only spaces, newlines and tabs and stops at the first other character |
| Grammar.StringLiteral | src/parse.rs:12-14 | `string` fails exactly on empty input or input starting with a space, and consumes at least one character otherwise |
| Grammar.NameAssignment | src/parse.rs:22-25 | `name_assignment` yields an identifier as the box and consumes input |
| Grammar.PointTo | src/parse.rs:26-28 | `point_to` starts with a dash, consumes input, and any label it yields is an identifier |
| Grammar.Relationship | src/parse.rs:30-36 | `relationship` consumes input and both box names it yields are identifiers |
| Grammar.Relations | src/parse.rs:38 | `relationship() ++ "\n"` yields at least one relationship |
| Grammar.AllRelations | src/parse.rs:38 | `all_relations` yields at least one relationship |
| Grammar.Complete | src/parse.rs:55 | a rule called from Rust succeeds exactly when it matches and leaves no input, and returns the rule's value |
| GrammarProperties.IdentifierOf | src/parse.rs:6-7 | every identifier text followed by a non-identifier character is read back as itself |
| GrammarProperties.IdentifierRejectsLeadingDigit | src/parse.rs:7 | input starting with a digit is never an identifier |
| GrammarProperties.StringQuoted | src/parse.rs:13 | a quoted run of non-quote characters yields the text between the quotes, spaces included |
| GrammarProperties.StringBare | src/parse.rs:14 | an unquoted run of non-space characters up to a space or the end yields that run |
| GrammarProperties.NameAssignmentOf | src/parse.rs:22-25 | `id.name = "text"` yields the pair (id, text) |
| GrammarProperties.PointToLabelled | src/parse.rs:27 | dashes, a label, dashes and `>` yield that label, whatever the numbers of dashes |
| GrammarProperties.PointToUnlabelled | src/parse.rs:28 | dashes and `>` yield no label when what follows cannot continue a label |
| GrammarProperties.ArrowOf | src/parse.rs:26-28 | every printed arrow, with or without a label, is read back with its label |
| GrammarProperties.RelationshipOf | src/parse.rs:30-36 | every printed `from arrow to` is read back as the same `CArrow` |
| GrammarProperties.RelationshipRejectsBlank | src/parse.rs:30 | a run of blanks is not a relationship |
| GrammarProperties.AllRelationsRoundTrip | src/parse.rs:38 | `all_relations` reads any printed list of relationships back exactly, in order, whatever blanks surround it |
| GrammarProperties.AllRelationsRejectsTrailing | src/parse.rs:38 | a document whose last line does not start a relationship is rejected as a whole |
| GrammarProperties.ExampleIdentifierRejected | src/parse.rs:89 | `11aa2` is not an identifier |
| GrammarProperties.ExampleQuotedString | src/parse.rs:90-93 | the quoted test string yields its text without the quotes |
| GrammarProperties.ExampleBareString | src/parse.rs:94-97 | the unquoted test string yields itself |
| GrammarProperties.ExamplePlainRelationship | src/parse.rs:98-110 | `from -------> to` yields an unlabelled arrow between the two names |
| GrammarProperties.ExampleLabelledRelationship | src/parse.rs:112-116 | `from ---hoho----> to` yields the arrow labelled `hoho` |
| GrammarProperties.ExampleUnclosedQuote | src/parse.rs:12-14 | an opening quote with no closing one falls through to the bare-word alternative, which keeps the quote |
| GrammarProperties.ExampleAllRelations | src/parse.rs:127-135 | the indented two-line test document yields the arrows `cow -> fresh` and `cow2 -> fresh2`, both labelled `hoho`, in that order |
| GrammarProperties.OneLetterNamesRejected | src/parse.rs:6-7 | a document with one-letter box names, `a --> b`, is rejected |
| GraphBuilder.Dedup | src/parse.rs:59-78 | the node names are exactly the names met, each once |
| GraphBuilder.DedupCount | src/parse.rs:59-78 | the graph has one node per distinct box name |
| GraphBuilder.DedupPrefix | src/parse.rs:64-78 | nodes are only ever appended: the nodes after any prefix of the relationships are a prefix of the final nodes |
| GraphBuilder.NodeFor | src/parse.rs:64-78 | the `nodes_seen` lookup returns the index of the named node, adds a node exactly when the name is new, and keeps `nodes_seen` mapping every name to its index |
| GraphBuilder.BuildGraph | src/parse.rs:56-81 | the graph has the distinct names in first-seen order as nodes and one edge per relationship, in order, from the node of its source name to the node of its target name, with its label |
| GraphBuilder.ParseToGraph | src/parse.rs:54-85 | `parse_to_graph` returns `None` exactly when `all_relations` rejects the text, and otherwise the graph `BuildGraph` describes |
| Median.Sort | src/sugiyama.rs:83 | the result is sorted and a permutation of the input |
| Median.ComputeMedian | src/sugiyama.rs:82-96 | `None` (a panic) exactly on an empty list; otherwise a value between the least and the greatest number, and one of the numbers when their count is odd |
| Median.MedianOfSorted | src/sugiyama.rs:83-95 | the median is the middle element of the sorted numbers for an odd count, and the floor of the mean of the two middle elements for an even count |
| Median.MedianSplits | src/sugiyama.rs:82-96 | at most half of the numbers lie strictly below the median and at most half strictly above it |
| Slots.NextSlot | src/sugiyama.rs:33-37 | the slot after the largest one is free and above every used slot, and is 0 in an empty layer |
| Slots.FirstFree | src/sugiyama.rs:73-75 | the probe ends at a free slot at or after its start, and every slot it passes is taken |
| Slots.Ascending | src/sugiyama.rs:55 | a `BTreeMap` is iterated over all its slots, each once |
| Slots.AscendingSorted | src/sugiyama.rs:55 | a `BTreeMap` is iterated in strictly increasing slot order |
| Layers.Place | src/sugiyama.rs:28-39 | `add_node_to_layer` grows the layers to include `layer`, leaves every other layer alone, and adds the node at the slot after the last one of its layer, keeping the other slots |
| Layers.PlaceKeeps | src/sugiyama.rs:28-39 | placing a node keeps every placed node at its slot and adds exactly one copy of the node to its layer |
| Layers.Neighbours | src/sugiyama.rs:56-59 | the neighbour set is exactly the sources of the edges into the node |
| Layers.PrevSlotsMembers | src/sugiyama.rs:61-70 | the slots kept from the previous layer are exactly those holding an in-neighbour |
| Layers.MinimizeShape | src/sugiyama.rs:49-79 | the median pass keeps the number of layers and layer 0, and rearranges each later layer against the already rearranged layer above it |
| Layers.PlaceFromSlot | src/sugiyama.rs:72-76 | each node goes to the first slot at or after its median that the nodes before it left free, and stays there |
| Layers.PlaceFromNeedsMedians | src/sugiyama.rs:72 | a layer is rearranged only if every node in it has a median against the layer above |
| Layers.ReorderKeeps | src/sugiyama.rs:54-78 | a rearranged layer holds the same nodes, with multiplicity, in as many distinct slots |
| Layers.ReorderSucceeds | src/sugiyama.rs:55-77 | the inner loop over a layer runs to the end exactly when every node of the layer has a median |
| Layers.MedianSlotSome | src/sugiyama.rs:56-72 | a node has a median slot exactly when some edge into it comes from a node of the layer above |
| Layers.ReorderValues | src/sugiyama.rs:54-78 | a rearranged layer holds the same set of nodes |
| Layers.MinimizeSucceeds | src/sugiyama.rs:49-79 | the median pass runs to the end exactly when every node of every layer but the first has an in-neighbour in the layer above |
| Layers.MinimizeValues | src/sugiyama.rs:49-79 | after the median pass every layer holds the same set of nodes as before |
| Layers.PlaceholderHasNoNeighbours | src/sugiyama.rs:138 | the placeholder id has no in-neighbours in a graph whose ids are all real, so it has no median |
| Layers.PlaceholderFails | src/sugiyama.rs:56-72 | the median pass panics whenever a layer below the first holds a placeholder |
| LayeredGraphs.LayeredGraph.constructor | src/sugiyama.rs:18-26 | a new layered graph has no layers, no placed nodes and the given graph |
| LayeredGraphs.LayeredGraph.AddNodeToLayer | src/sugiyama.rs:28-39 | records the node's layer and updates `layers` as `Layers.Place` says |
| LayeredGraphs.LayeredGraph.NeighbourSlots | src/sugiyama.rs:61-70 | the `filter_map` yields the slots of the previous layer holding a neighbour, in ascending order |
| LayeredGraphs.LayeredGraph.MedianOf | src/sugiyama.rs:56-72 | a node's median slot against the previous layer, `None` where the source panics |
| LayeredGraphs.LayeredGraph.Probe | src/sugiyama.rs:73-75 | the `while` probe stops at the first free slot at or after the median |
| LayeredGraphs.LayeredGraph.PlaceNode | src/sugiyama.rs:72-76 | a node lands at the first free slot at or after its median, and the step fails exactly when it has no median |
| LayeredGraphs.LayeredGraph.Rearrange | src/sugiyama.rs:54-78 | the inner loop fails exactly when the rearrangement of the layer fails, and otherwise yields it |
| LayeredGraphs.LayeredGraph.CrossingMinimization | src/sugiyama.rs:41-80 | the median pass leaves `node_to_layer` alone, fails exactly when the pass on the layers fails, and otherwise leaves its result in `layers` |
| Layering.MaxLayerBounds | src/sugiyama.rs:127-132 | the highest layer among the in-neighbours is no lower than any of theirs and is one of theirs |
| Layering.FillGap | src/sugiyama.rs:137-140 | filling a gap changes only the placeholder's entry in `node_to_layer` |
| Layering.FillGapGrows | src/sugiyama.rs:137-140 | filling a gap keeps every node where it was and puts a placeholder in every layer of the gap |
| Layering.FillGapsGrows | src/sugiyama.rs:134-142 | filling the gaps puts a placeholder in every layer strictly between each in-neighbour and the node's layer |
| Layering.PlaceNodeAtGood | src/sugiyama.rs:120-145 | placing a node whose in-neighbours are all placed succeeds and keeps the layering invariant |
| Layering.LayerAllGood | src/sugiyama.rs:119-146 | the loop over an order in which every node follows its in-neighbours succeeds and keeps the invariant |
| Layering.TopologicalReady | src/sugiyama.rs:117-119 | a topological order lists every node after all its in-neighbours |
| Layering.LayeringGood | src/sugiyama.rs:117-146 | along a topological order, layer assignment never panics; every node sits in its layer; roots are in layer 0; every other node is one layer below its lowest in-neighbour; every skipped layer holds a placeholder |
| Layering.LayeringLayered | src/sugiyama.rs:117-146 | the assignment along a topological order is a longest-path layering of all nodes |
| LayerCounts.LayeringCounted | src/sugiyama.rs:119-146 | along a topological order, every node of the order sits in the layers exactly once, and no other node but the placeholder sits there |
| Layering.EdgesGoUp | src/sugiyama.rs:127-144 | every edge goes from a strictly lower layer number to a higher one |
| Layering.RootsAtZero | src/sugiyama.rs:124-125 | a node is in layer 0 exactly when no edge points to it |
| Layering.SkippedLayersHold | src/sugiyama.rs:134-142 | every layer strictly between the ends of an edge holds a placeholder |
| Cycles.SwapRemove | src/sugiyama.rs:112 | `remove_edge` drops one edge, keeps the others at their indices except the last, and moves the last edge into the freed index |
| Cycles.ReverseArcsAsWritten | src/sugiyama.rs:111-114 | the reversal loop as written keeps the number of edges |
| Cycles.AsWrittenKeepsCycle | src/sugiyama.rs:111-117 | as written, reversing the feedback arcs `1 -> 0` and `3 -> 2` of two 2-cycles leaves the cycle `2 <-> 3`, so no topological order exists |
| Cycles.ReverseArcsPointwise | src/sugiyama.rs:110-114 | the intended reversal turns exactly the feedback arcs around, keeping their weights, and leaves every other edge at its index |
| Cycles.IntendedBreaksCycles | src/sugiyama.rs:110-117 | the intended reversal of the same arcs leaves an acyclic graph with the topological order `0, 1, 2, 3` |
| Cycles.TwoCycleHasNoOrder | src/sugiyama.rs:117 | a graph with edges both ways between two nodes has no topological order |
| Sugiyama.ReverseFeedbackArcs | src/sugiyama.rs:110-114 | the working edges are the original ones with every feedback arc reversed in place |
| Sugiyama.HighestLayer | src/sugiyama.rs:127-132 | finds the highest layer among the in-neighbours, and fails exactly when one of them has no layer yet |
| Sugiyama.FillGapOf | src/sugiyama.rs:136-141 | the placeholder loop for one in-neighbour updates the layered graph as `Layering.FillGap` says |
| Sugiyama.FillGapsOf | src/sugiyama.rs:134-142 | the loop over all in-neighbours updates the layered graph as `Layering.FillGaps` says |
| Sugiyama.PlaceNodeOf | src/sugiyama.rs:120-145 | one iteration of the layering loop fails exactly when the function form fails, and otherwise leaves its result in the layered graph |
| Sugiyama.AssignLayers | src/sugiyama.rs:119-146 | the whole layering loop fails exactly when the function form fails, and otherwise leaves its result |
| Sugiyama.SugiyamaMethod | src/sugiyama.rs:99-154 | given a topological order of the graph with the feedback arcs reversed: layering succeeds; `node_to_layer` is its result; the method panics exactly when the median pass on those layers fails, and otherwise leaves that pass's result in `layers` |
| Sugiyama.LongEdgeFails | src/sugiyama.rs:134-149 | if any edge of the working graph spans more than one layer, `sugiyama_method` panics in the median pass |
| Sugiyama.DiamondLayers | src/sugiyama.rs:119-146 | the diamond `0 -> 1, 0 -> 2, 1 -> 3, 2 -> 3` is laid out with the top in layer 0, the middle nodes in layer 1 and the bottom in layer 2 |
| DiamondRun.DiamondLaidOut | src/sugiyama.rs:119-146 | the layer assignment of the diamond yields the layers `{0: 0}`, `{0: 1, 1: 2}`, `{0: 3}` |
| DiamondRun.DiamondMinimized | src/sugiyama.rs:49-79 | on those layers both middle nodes have median slot 0, so the second is pushed to slot 1, and the bottom's median is the floor of 1/2, 0: the pass leaves the layers as they are |
| DiamondRun.RunDiamond | src/sugiyama.rs:99-154 | `sugiyama_method` on the diamond with an empty feedback arc set runs to the end, with those layers and the layer of each node |

## Left out

- src/main.rs, src/ui.rs and the rest of the program (window, drawing, camera) are not part of this model.
- `greedy_feedback_arc_set` and `toposort` are petgraph code. Their results are inputs of `Sugiyama.SugiyamaMethod`: a feedback arc set as edge indices, and a topological order of the graph with those arcs reversed, as a precondition. The panic of `toposort(..).unwrap()` on a cyclic graph is shown on one example only (`Cycles.AsWrittenKeepsCycle`).
- Sugiyama.ReverseFeedbackArcs: replaces each feedback arc by its reverse at the arc's own index, as intended (see Findings). The source removes the arc and appends the reverse at the end (src/sugiyama.rs:110-114), so the working graph's edge order differs from the model's. Edge order only decides the order in which in-neighbours are visited (next line). The as-written removal is modelled apart, in `Cycles.ReverseArcsAsWritten`.
- Sugiyama.SugiyamaMethod: petgraph yields in-neighbours newest edge first; the model takes them in edge order. This changes only which layer `node_to_layer` records last for the shared placeholder id. The layers themselves are the same, because all placeholders are the same value.
- Median.ComputeMedian: returns the floor of the `f64` mean of the two middle values, because the only caller converts it with `as usize`. Floating point is not modelled.
- Median.ComputeMedian: the in-place `sort` of the vector is modelled on values.
- Grammar.ParseAllRelations: rust-peg's error values (position and expected tokens) are collapsed to `None`.
- The unused rules `quoted_string` and `non_ws` (src/parse.rs:9-10) are not modelled.
- `test_sugiyama` reads a file and prints; it is not modelled.
- Layering.LayeringGood: states that a placeholder is in every skipped layer, not how many placeholders a layer holds; `LayerCounts.LayeringCounted` counts the real nodes only.
- `NodeIndex` is 32 bits wide. The model uses natural numbers and assumes fewer than `0xFFFF_FFFF` nodes.
- Layer numbers, slots and `usize` arithmetic do not overflow in the model.
- `HashMap`, `HashSet` and `BTreeMap` are Dafny maps and sets; only `BTreeMap`'s iteration order matters, and it is modelled (`Slots.Ascending`).

## Findings

| source | as written | input that shows it | evidently intended | confidence | as-written member | corrected member |
|---|---|---|---|---|---|---|
| src/sugiyama.rs:111-114 | each feedback arc is removed from the working copy by its index in the original graph; petgraph's `remove_edge` moves the last edge into the freed index, so after the first removal a later index can name a different edge, here the reversed edge just added | edges `0 -> 1`, `1 -> 0`, `2 -> 3`, `3 -> 2` with the feedback arc set {edge 1, edge 3}: the second removal deletes the new `0 -> 1` instead of `3 -> 2`, the cycle `2 <-> 3` survives, and `toposort(..).unwrap()` panics | every feedback arc is replaced by its reverse, so that the working graph is acyclic | not executed; the defect needs a feedback arc set whose later arc ids are stale, which depends on the arcs petgraph's heuristic returns | Cycles.AsWrittenKeepsCycle | Cycles.IntendedBreaksCycles |
