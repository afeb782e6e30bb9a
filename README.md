# prospect: graph validation and work units, modelled in Dafny

This project models the core of `prospect_core`, a Python library for typed
directed acyclic graphs. The model covers two files.

- `graph.py`. A `Graph` is built from nodes, edges and two registries of
  method keys. Construction validates the node list and the edge list:
  - ids and names are unique;
  - no edge pair is duplicated or reversed.

  It then runs the graph-level checks in order:
  - every pull and aggregation key resolves;
  - every edge endpoint is a node id;
  - an orphan-node advisory is produced;
  - the graph is acyclic.

  A valid graph offers derived indices: sorted ids, lookup maps, root and leaf
  nodes, and the ancestors and descendants of every node.
- `work_unit.py`. A `WorkUnit` has a probability of success and two values.
  Construction checks the probability range and the ordering of the values.
  The unit computes a risk-weighted expected value.

Modules, one per concern:

- `Wrappers` (`wrappers.dfy`): `Option`, `Result` and `Outcome`, a pass or a failure carrying an error.
- `Seqs` (`seqs.dfy`): stand-ins for the Python list idioms the code uses:
  - comprehension with a condition (`Filter`);
  - `sorted` (`Sort`);
  - `sorted(set(...))` (`SortedDistinct`);
  - dict comprehension (`ToMap`).
- `Entities` (`entities.dfy`): `Node`, `Edge`, the `Direction` tag, and the self-loop check on edge construction.
- `Uniqueness` (`uniqueness.dfy`): the id/name uniqueness check shared by nodes and edges.
- `EdgePairs` (`edge_pairs.dfy`): the same-direction and bidirectional edge check.
- `GraphChecks` (`graph_checks.dfy`): the pull-key, aggregation-key and edge-node-id validators, and the orphan advisory.
- `Paths` (`paths.dfy`): the reference definitions of the graph structure:
  - walks;
  - reachability (`Reaches`);
  - acyclicity (`Acyclic`);
  - depth bounds (`Bounded`).
- `Discovery` (`discovery.dfy`): the recursive ancestor and descendant traversal, and the acyclicity validator built on it.
- `Graphs` (`graph.dfy`): the `Graph` value, its derived indices, and the whole construction pipeline (`NewGraph`).
- `WorkUnits` (`work_unit.dfy`): the work unit, its construction and its value.
- `Scenarios` (`scenarios.dfy`): concrete graphs from the project's tests, and what the model computes for them.

The `upstream`/`downstream` twins of the source become a single definition
parametrised by `Direction`. This applies to method keys, aggregation keys,
edge endpoints and traversals. A traversal toward `FromUpstream` follows
edges from their downstream end to their upstream end.

Every check is a method whose loops mirror the source. Each method is proved
against a specification function, and the specification function carries an
independent characterisation lemma. For example, an edge appears in
`SameDirectionDuplicates` exactly when an earlier edge has the same pair.

## Model

| member | source | states |
|---|---|---|
| Entities.NewEdge | prospect_core/prospect_core/core/graph.py:265-270 | construction fails exactly when the upstream and downstream ids coincide, reporting the edge's `(id, name)`; otherwise it returns the edge with exactly the given fields |
| Entities.Endpoints | prospect_core/prospect_core/core/graph.py:399-402 | the set collected from the edges holds both ends of every edge and nothing else |
| Uniqueness.GroupById | prospect_core/prospect_core/core/graph.py:90-92 | every id present maps to all pairs carrying it, in input order |
| Uniqueness.GroupByName | prospect_core/prospect_core/core/graph.py:95-97 | every name present maps to all pairs carrying it, in input order |
| Uniqueness.DuplicatedIdsExact | prospect_core/prospect_core/core/graph.py:93 | an id is reported as duplicated exactly when two different positions carry it |
| Uniqueness.DuplicatedNamesExact | prospect_core/prospect_core/core/graph.py:98 | a name is reported as duplicated exactly when two different positions carry it |
| Uniqueness.NoDuplicatesIffUnique | prospect_core/prospect_core/core/graph.py:100-111 | both duplicate groupings are empty exactly when every id and every name is unique |
| Uniqueness.ValidateIdAndNameUnique | prospect_core/prospect_core/core/graph.py:78-111 | passes exactly when ids and names are all unique; a failure carries both the duplicated-id and the duplicated-name groups |
| EdgePairs.SameDirectionDuplicatesExact | prospect_core/prospect_core/core/graph.py:135-145 | an edge is listed as a same-direction duplicate exactly when an earlier edge has the same `(upstream, downstream)` pair |
| EdgePairs.BidirectionalEdgesExact | prospect_core/prospect_core/core/graph.py:147-149 | an edge is listed as bidirectional exactly when an edge at or before it has its reversed pair (a self-loop matches itself) |
| EdgePairs.OnlyLaterOfReversedPair | prospect_core/prospect_core/core/graph.py:147-149 | without self-loops, only the later edge of a reversed pair is listed |
| EdgePairs.NoDuplicatesIffDistinctPairs | prospect_core/prospect_core/core/graph.py:151-161 | both lists are empty exactly when no pair repeats and no edge's reversed pair is the pair of any edge |
| EdgePairs.ValidateNoDupedEdges | prospect_core/prospect_core/core/graph.py:114-161 | the single pass over the edges produces exactly the two specified lists; it passes exactly when both are empty |
| GraphChecks.PullKeysResolveIffNoneMissing | prospect_core/prospect_core/core/graph.py:330 | every edge's two pull keys are registered exactly when both missing-key lists are empty |
| GraphChecks.ValidatePullMethodKeys | prospect_core/prospect_core/core/graph.py:316-338 | passes exactly when every pull key resolves; a failure carries the edges missing their upstream key and, separately, those missing their downstream key, in edge order |
| GraphChecks.AggKeysResolveIffNoneMissing | prospect_core/prospect_core/core/graph.py:358 | every node's two aggregation keys are registered exactly when both missing-key lists are empty |
| GraphChecks.ValidateAggMethodKeys | prospect_core/prospect_core/core/graph.py:340-366 | passes exactly when every aggregation key resolves; a failure carries the nodes missing their downstream key and, separately, those missing their upstream key, in node order |
| GraphChecks.EndpointsExistIffNoneInvalid | prospect_core/prospect_core/core/graph.py:382-385 | every edge end names a node exactly when both invalid-id lists are empty |
| GraphChecks.ValidateEdgeNodeIds | prospect_core/prospect_core/core/graph.py:368-393 | passes exactly when every edge end is a node id; a failure carries the edges with an unknown upstream id and, separately, those with an unknown downstream id, in edge order |
| GraphChecks.OrphanedNodesExact | prospect_core/prospect_core/core/graph.py:404-410 | a node is an orphan exactly when it is listed and no edge touches it at either end |
| GraphChecks.FindOrphanedNodes | prospect_core/prospect_core/core/graph.py:395-420 | the advisory is exactly the nodes, in node order, that no edge touches; it never fails |
| Paths.ReachesStep | prospect_core/prospect_core/core/graph.py:209-215 | reachability unfolds at the first edge: `y` is reached from `x` exactly when some edge leaving `x` ends at `y` or at a node reaching `y` |
| Paths.BoundedStep | prospect_core/prospect_core/core/graph.py:209-215 | a depth bound `f` holds at `x` exactly when every edge leaving `x` needs `f > 0` and a bound of `f - 1` at its other end |
| Paths.ReachesReverse | prospect_core/prospect_core/core/graph.py:194-240 | `x` reaches `y` walking one way exactly when `y` reaches `x` walking the other way |
| Paths.CycleUnbounded | prospect_core/prospect_core/core/graph.py:433-447 | a node on a cycle satisfies no depth bound, so every traversal from it exhausts any budget |
| Paths.AcyclicBounded | prospect_core/prospect_core/core/graph.py:433-447 | in an acyclic graph whose endpoints lie in `ids`, every walk has at most `\|ids\|` edges |
| Discovery.EdgesFrom | prospect_core/prospect_core/core/graph.py:209 | the edges selected are exactly those leaving the node toward the traversal direction |
| Discovery.Discover | prospect_core/prospect_core/core/graph.py:194-240 | the traversal succeeds exactly when the depth budget bounds every walk; it then returns a strictly ascending list holding exactly the nodes reached |
| Discovery.DiscoverAll | prospect_core/prospect_core/core/graph.py:495-503 | succeeds exactly when a budget of the node count bounds every node; the map is keyed by every node id, and each entry is strictly ascending and holds exactly the reached nodes |
| Discovery.AcyclicIffBounded | prospect_core/prospect_core/core/graph.py:422-449 | when every endpoint is a node id, the graph is acyclic exactly when the node-count budget suffices from every node, in either direction |
| Discovery.ValidateAcyclic | prospect_core/prospect_core/core/graph.py:422-449 | ancestors are computed first, then descendants; the check passes exactly when the graph is acyclic and otherwise reports a cycle |
| Graphs.Graph.NodeIds | prospect_core/prospect_core/core/graph.py:451-454 | ascending, a permutation of the node ids, holding exactly the ids of the nodes |
| Graphs.Graph.EdgeIds | prospect_core/prospect_core/core/graph.py:456-459 | ascending, a permutation of the edge ids, holding exactly the ids of the edges |
| Graphs.NodeIdsOrderIndependent | prospect_core/prospect_core/core/graph.py:451-454 | reordering the nodes leaves `node_ids` unchanged |
| Graphs.EdgeIdsOrderIndependent | prospect_core/prospect_core/core/graph.py:456-459 | reordering the edges leaves `edge_ids` unchanged |
| Graphs.Graph.NodesAsDict | prospect_core/prospect_core/core/graph.py:461-466 | keyed by exactly the node ids; each entry is a node carrying that id |
| Graphs.NodesAsDictFindsEachNode | prospect_core/prospect_core/core/graph.py:461-466 | with unique node ids, every node is found under its own id |
| Graphs.Graph.EdgesAsDict | prospect_core/prospect_core/core/graph.py:468-471 | keyed by exactly the edge ids; each entry is an edge carrying that id |
| Graphs.EdgesAsDictFindsEachEdge | prospect_core/prospect_core/core/graph.py:468-471 | with unique edge ids, every edge is found under its own id |
| Graphs.Graph.RootNodes | prospect_core/prospect_core/core/graph.py:473-482 | a node is a root exactly when it is listed and its id is the downstream end of no edge |
| Graphs.Graph.LeafNodes | prospect_core/prospect_core/core/graph.py:484-493 | a node is a leaf exactly when it is listed and its id is the upstream end of no edge |
| Graphs.TerminalIffReachesNothing | prospect_core/prospect_core/core/graph.py:473-493 | no edge leaves a node toward `d` exactly when it reaches nothing toward `d` |
| Graphs.RootIffNoAncestors | prospect_core/prospect_core/core/graph.py:473-482 | the roots are exactly the nodes without ancestors |
| Graphs.LeafIffNoDescendants | prospect_core/prospect_core/core/graph.py:484-493 | the leaves are exactly the nodes without descendants |
| Graphs.RootExists | prospect_core/prospect_core/core/graph.py:473-482 | a valid graph with a node has a root |
| Graphs.LeafExists | prospect_core/prospect_core/core/graph.py:484-493 | a valid graph with a node has a leaf |
| Graphs.Graph.UpstreamNodeIds | prospect_core/prospect_core/core/graph.py:495-498 | on an acyclic graph whose endpoints are node ids: keyed by every node id, each entry strictly ascending and exactly the node's ancestors |
| Graphs.Graph.DownstreamNodeIds | prospect_core/prospect_core/core/graph.py:500-503 | the same for descendants |
| Graphs.AncestorIffDescendant | prospect_core/prospect_core/core/graph.py:194-240 | `x` is an ancestor of `n` exactly when `n` is a descendant of `x` |
| Graphs.DirectNeighbourReached | prospect_core/prospect_core/core/graph.py:209-215 | the other end of every edge leaving a node is among the nodes it reaches |
| Graphs.AcyclicNoSelfReach | prospect_core/prospect_core/core/graph.py:194-240 | in an acyclic graph no node is its own ancestor or descendant |
| Graphs.NewGraph | prospect_core/prospect_core/core/graph.py:296-449 | succeeds exactly when every invariant holds, returning the graph unchanged; list-level violations are reported together; each later check reports alone when it is the first to fail; the orphan advisory accompanies every run that reaches it |
| Scenarios.DuplicatedNodeId | prospect_core/tests/test_core/test_graph/test_graph.py:49-96 | node 0 copied under the name "node1000" gives the one id group `0: [(0, 'node00'), (0, 'node1000')]` |
| Scenarios.NoDuplicatedNodeName | prospect_core/tests/test_core/test_graph/test_graph.py:49-96 | the same list has no duplicated name, so only ids are reported |
| Scenarios.DuplicateAndReversedEdges | prospect_core/tests/test_core/test_graph/test_graph.py:169-252 | adding a duplicate 0→1 edge (20) and a reversed 1→0 edge (30) lists `(20, 'edge_node00->node01_dup')` as same-direction and `(30, 'edge_node01->node00')` as bidirectional |
| Scenarios.LoneNodeIsOrphan | prospect_core/tests/test_core/test_graph/test_graph.py:437-469 | a single node with no edges is the one orphan |
| Scenarios.NodeIdsOfReversedInput | prospect_core/tests/test_core/test_graph/test_graph.py:472-499 | nodes given as 2, 1, 0 have `node_ids` `[0, 1, 2]`: the order-independence the reversed case is named for (the test's fixtures rebuild the list in fixture order) |
| Scenarios.EdgeIdsOfReversedInput | prospect_core/tests/test_core/test_graph/test_graph.py:472-499 | edges given as 30, 10 have `edge_ids` `[10, 30]`: the order-independence the reversed case is named for (the test's fixtures rebuild the list in fixture order) |
| Scenarios.OneRootTwoLeaves | prospect_core/tests/test_core/test_graph/test_graph.py:533-571 | edges 0→1 and 0→2 give roots `[node00]` and leaves `[node01, node02]` |
| Scenarios.TwoRootsOneLeaf | prospect_core/tests/test_core/test_graph/test_graph.py:533-571 | edges 0→2 and 1→2 give roots `[node00, node01]` and leaves `[node02]` |
| Scenarios.OneRootOneLeaf | prospect_core/tests/test_core/test_graph/test_graph.py:533-571 | edges 0→1 and 1→2 give root `[node00]` and leaf `[node02]` |
| Scenarios.ThreeNodeCycle | prospect_core/tests/test_core/test_graph/conftest.py:77-126 | the edges 0→1, 1→2 and 2→0 of the fixtures form a cycle, so such a graph is not acyclic |
| WorkUnits.NewWorkUnit | prospect_core/prospect_core/core/work_unit.py:31-51 | succeeds exactly when the probability lies in 0..100 and the success value is at least the unconditional value; an out-of-range probability is reported before the value ordering |
| WorkUnits.NewWorkUnitRejections | prospect_core/tests/test_core/test_work_unit.py:8-52 | success 60 below unconditional 61 is refused for its ordering; probabilities -1 and 101 are refused for their range |
| WorkUnits.WorkUnit.RiskWeightedValue | prospect_core/prospect_core/core/work_unit.py:53-70 | a hundred times the value is `100·uv + (sv − uv)·p`, i.e. the value is `uv + (sv − uv)·p/100` exactly |
| WorkUnits.RiskWeightedValueBounds | prospect_core/prospect_core/core/work_unit.py:38-70 | for a valid unit the value lies between the unconditional and the success value |
| WorkUnits.RiskWeightedValueAtExtremes | prospect_core/prospect_core/core/work_unit.py:68-70 | at probability 0 the value is the unconditional value; at 100 it is the success value |
| WorkUnits.RiskWeightedValueMonotonic | prospect_core/tests/test_core/test_work_unit.py:87-95 | with both values fixed and success worth at least as much, a higher probability never lowers the value |
| WorkUnits.RiskWeightedValueExamples | prospect_core/tests/test_core/test_work_unit.py:55-107 | with values 30 and 60 the value is 36, 45 and 57 at probabilities 20, 50 and 90 |

## Behaviour of the code the model keeps

- **Reporting.** Construction reports the list-level violations together:
  node uniqueness, edge uniqueness and edge pairs. It then stops at the first
  graph-level check that fails. `NewGraph` states this. Edge pairs are
  checked only when edge ids and names are unique, because the edge list's
  two validators are chained.
- **Cycle detection.** The code has no explicit cycle search. It lets an
  unbounded recursion run into the interpreter's recursion limit and turns
  the resulting error into a cycle report. The model replaces that limit
  with a depth budget equal to the number of nodes, for which detection is
  exact (`AcyclicIffBounded`). With the real limit, about a thousand frames,
  the code also rejects an acyclic graph whose longest path is deeper than
  the limit.
- **Order of roots and leaves.** Which nodes `root_nodes` and `leaf_nodes`
  contain is independent of the order of the input. The lists themselves
  follow node order, and the model keeps that order.
- **The orphan advisory.** The code emits the advisory as soon as the orphan
  validator runs, even when the acyclicity check then fails. `NewGraph`
  returns it in that case too.
- **A self-loop in the edge list.** This can arise only from building or
  changing an edge without running its validator. The duplicate-edge check
  then lists it as bidirectional, since its reversed pair is its own pair.
  The model keeps that behaviour.

## Left out

- **Error message text.** This includes the wording and formatting of every message. The messages after the upstream and downstream acyclicity passes name the wrong direction. The `WorkUnit` message says "greater than" although the check accepts equality. The model keeps the structured contents of each error instead.
- **Python dict key order in the duplicate groups.** The groups are Dafny maps. Key order affects only message text.
- **`warnings.warn`.** The orphan advisory is returned as a value instead.
- **Pydantic machinery.** This covers field type coercion, `model_config` and `Field(exclude=True)`. Validator orchestration is modelled only as the order and short-circuiting that `NewGraph` states.
- **Callable registries.** The `PullMethod`/`AggregationMethod` protocols and the registries' callables are reduced to the registries' key sets; nothing calls them structurally.
- **Payload fields.** `base_variables`, `pulled_variables`, `metadata`, `global_variables`, the `pulled_from_*` flags and the generic type parameters are left out. No check reads them.
- **`@cached_property` memoisation.** The indices are recomputed functions of the nodes and edges.
- **The dictionary of seen edge pairs.** Its values are never read; the model keeps only its key set.
- **The recursion limit.** It is replaced by the node-count depth budget described above.
- Discovery.Discover: requires every edge endpoint to be a node id. The source would raise a `KeyError` on an unknown endpoint. That cannot happen in the pipeline, because the endpoint validator runs before the acyclicity check.
- Graphs.Graph.UpstreamNodeIds: requires an acyclic graph whose endpoints are node ids, the state every constructed graph is in. `Graphs.Graph.DownstreamNodeIds` does the same.
- WorkUnits.WorkUnit.RiskWeightedValue: computed over exact reals rather than binary floating point, so rounding is not modelled.
