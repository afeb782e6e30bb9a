/**
 * Concrete graphs from the project's own test suite, and what the model
 * computes for them.
 */
module Scenarios {
  import opened Seqs
  import opened Uniqueness
  import opened Entities
  import opened EdgePairs
  import opened GraphChecks
  import opened Paths
  import opened Graphs

  function FixtureNode(id: int, name: string): Node {
    Node(id, name, "pass_through", "pass_through")
  }

  function FixtureEdge(id: int, name: string, upstream: int, downstream: int): Edge {
    Edge(id, name, downstream, upstream, "get", "get")
  }

  function Node00(): Node { FixtureNode(0, "node00") }
  function Node01(): Node { FixtureNode(1, "node01") }
  function Node02(): Node { FixtureNode(2, "node02") }

  function Edge00To01(): Edge { FixtureEdge(10, "edge_node00->node01", 0, 1) }
  function Edge01To02(): Edge { FixtureEdge(20, "edge_node01->node02", 1, 2) }
  function Edge00To02(): Edge { FixtureEdge(30, "edge_node00->node02", 0, 2) }
  function Edge02To00(): Edge { FixtureEdge(40, "edge_node02->node00", 2, 0) }

  function Sample(edges: seq<Edge>): Graph {
    Graph([Node00(), Node01(), Node02()], edges, {"get"}, {"pass_through"})
  }

  /** Filtering three elements keeps those that pass, in order. */
  lemma FilterThree<T>(a: T, b: T, c: T, p: T -> bool)
    ensures Filter([a, b, c], p) ==
            (if p(a) then [a] else []) + (if p(b) then [b] else []) + (if p(c) then [c] else [])
  {
    assert [a, b, c][..2] == [a, b];
    assert [a, b][..1] == [a];
    assert [a][..0] == [];
    assert Filter([a], p) == (if p(a) then [a] else []);
    assert Filter([a, b], p) == Filter([a], p) + (if p(b) then [b] else []);
    assert Filter([a, b, c], p) == Filter([a, b], p) + (if p(c) then [c] else []);
  }

  /** The roots of the sample graph with the given edges, found by their ids. */
  lemma SampleRoots(edges: seq<Edge>, rootIds: set<int>)
    requires rootIds == {0, 1, 2} - set e | e in edges :: e.downstreamNodeId
    ensures Sample(edges).RootNodes() ==
            (if 0 in rootIds then [Node00()] else []) +
            (if 1 in rootIds then [Node01()] else []) +
            (if 2 in rootIds then [Node02()] else [])
  {
    var g := Sample(edges);
    assert (set x | x in g.NodeIds()) == {0, 1, 2} by {
      assert NodeIdSet(g.nodes) == {0, 1, 2};
    }
    FilterThree(Node00(), Node01(), Node02(), (n: Node) => n.id in rootIds);
  }

  /** The leaves of the sample graph with the given edges, found by their ids. */
  lemma SampleLeaves(edges: seq<Edge>, leafIds: set<int>)
    requires leafIds == {0, 1, 2} - set e | e in edges :: e.upstreamNodeId
    ensures Sample(edges).LeafNodes() ==
            (if 0 in leafIds then [Node00()] else []) +
            (if 1 in leafIds then [Node01()] else []) +
            (if 2 in leafIds then [Node02()] else [])
  {
    var g := Sample(edges);
    assert (set x | x in g.NodeIds()) == {0, 1, 2} by {
      assert NodeIdSet(g.nodes) == {0, 1, 2};
    }
    FilterThree(Node00(), Node01(), Node02(), (n: Node) => n.id in leafIds);
  }

  lemma EndpointIdsOfTwo(edges: seq<Edge>)
    requires |edges| == 2
    ensures (set e | e in edges :: e.downstreamNodeId) == {edges[0].downstreamNodeId, edges[1].downstreamNodeId}
    ensures (set e | e in edges :: e.upstreamNodeId) == {edges[0].upstreamNodeId, edges[1].upstreamNodeId}
  {
    assert edges == [edges[0], edges[1]];
  }

  /** Roots and leaves of the sample graph with two edges, by comparing ids with both edge ends. */
  lemma SampleOfTwo(edges: seq<Edge>, down0: int, down1: int, up0: int, up1: int)
    requires |edges| == 2
    requires edges[0].downstreamNodeId == down0 && edges[1].downstreamNodeId == down1
    requires edges[0].upstreamNodeId == up0 && edges[1].upstreamNodeId == up1
    ensures Sample(edges).RootNodes() ==
            (if 0 != down0 && 0 != down1 then [Node00()] else []) +
            (if 1 != down0 && 1 != down1 then [Node01()] else []) +
            (if 2 != down0 && 2 != down1 then [Node02()] else [])
    ensures Sample(edges).LeafNodes() ==
            (if 0 != up0 && 0 != up1 then [Node00()] else []) +
            (if 1 != up0 && 1 != up1 then [Node01()] else []) +
            (if 2 != up0 && 2 != up1 then [Node02()] else [])
  {
    var rootIds := {0, 1, 2} - {down0, down1};
    var leafIds := {0, 1, 2} - {up0, up1};
    assert (0 in rootIds) == (0 != down0 && 0 != down1);
    assert (1 in rootIds) == (1 != down0 && 1 != down1);
    assert (2 in rootIds) == (2 != down0 && 2 != down1);
    assert (0 in leafIds) == (0 != up0 && 0 != up1);
    assert (1 in leafIds) == (1 != up0 && 1 != up1);
    assert (2 in leafIds) == (2 != up0 && 2 != up1);
    EndpointIdsOfTwo(edges);
    SampleRoots(edges, rootIds);
    SampleLeaves(edges, leafIds);
  }

  /** The ways of keeping some of three elements, in order. */
  lemma Concat3<T>(a: T, b: T, c: T)
    ensures [a] + [] + [] == [a] && [] + [b] + [] == [b] && [] + [] + [c] == [c]
    ensures [a] + [b] + [] == [a, b] && [a] + [] + [c] == [a, c] && [] + [b] + [c] == [b, c]
  {
  }

  /** One root and two leaves: edges 0->1 and 0->2. */
  lemma OneRootTwoLeaves(edges: seq<Edge>)
    requires edges == [Edge00To01(), Edge00To02()]
    ensures Sample(edges).RootNodes() == [Node00()]
    ensures Sample(edges).LeafNodes() == [Node01(), Node02()]
  {
    assert edges[0] == Edge00To01() && edges[1] == Edge00To02();
    SampleOfTwo(edges, 1, 2, 0, 0);
    Concat3(Node00(), Node01(), Node02());
  }

  /** Two roots and one leaf: edges 0->2 and 1->2. */
  lemma TwoRootsOneLeaf(edges: seq<Edge>)
    requires edges == [Edge00To02(), Edge01To02()]
    ensures Sample(edges).RootNodes() == [Node00(), Node01()]
    ensures Sample(edges).LeafNodes() == [Node02()]
  {
    assert edges[0] == Edge00To02() && edges[1] == Edge01To02();
    SampleOfTwo(edges, 2, 2, 0, 1);
    Concat3(Node00(), Node01(), Node02());
  }

  /** One root and one leaf: the chain 0->1->2. */
  lemma OneRootOneLeaf(edges: seq<Edge>)
    requires edges == [Edge00To01(), Edge01To02()]
    ensures Sample(edges).RootNodes() == [Node00()]
    ensures Sample(edges).LeafNodes() == [Node02()]
  {
    assert edges[0] == Edge00To01() && edges[1] == Edge01To02();
    SampleOfTwo(edges, 1, 2, 0, 1);
    Concat3(Node00(), Node01(), Node02());
  }

  lemma NodeIdsAre(g: Graph, expected: seq<int>)
    requires Sorted(expected) && multiset(MapInt(g.nodes, NodeId)) == multiset(expected)
    ensures g.NodeIds() == expected
  {
    SortedPermutationsEqual(g.NodeIds(), expected);
  }

  lemma EdgeIdsAre(g: Graph, expected: seq<int>)
    requires Sorted(expected) && multiset(MapInt(g.edges, EdgeId)) == multiset(expected)
    ensures g.EdgeIds() == expected
  {
    SortedPermutationsEqual(g.EdgeIds(), expected);
  }

  lemma ThreeReordered(a: int, b: int, c: int)
    ensures multiset([a, b, c]) == multiset([c, b, a])
  {
    assert multiset([a, b, c]) == multiset{a, b, c};
    assert multiset([c, b, a]) == multiset{c, b, a};
  }

  lemma ReversedNodeIds(nodes: seq<Node>)
    requires nodes == [Node02(), Node01(), Node00()]
    ensures multiset(MapInt(nodes, NodeId)) == multiset([0, 1, 2])
  {
    assert MapInt(nodes, NodeId) == [2, 1, 0];
    ThreeReordered(2, 1, 0);
  }

  /** Node ids come out ascending whatever the input order. */
  lemma NodeIdsOfReversedInput(g: Graph)
    requires g.nodes == [Node02(), Node01(), Node00()]
    ensures g.NodeIds() == [0, 1, 2]
  {
    ReversedNodeIds(g.nodes);
    NodeIdsAre(g, [0, 1, 2]);
  }

  lemma TwoReordered(a: int, b: int)
    ensures multiset([a, b]) == multiset([b, a])
  {
    assert multiset([a, b]) == multiset{a, b};
    assert multiset([b, a]) == multiset{b, a};
  }

  lemma ReversedEdgeIds(edges: seq<Edge>)
    requires edges == [Edge00To02(), Edge00To01()]
    ensures multiset(MapInt(edges, EdgeId)) == multiset([10, 30])
  {
    assert MapInt(edges, EdgeId) == [30, 10];
    TwoReordered(30, 10);
  }

  /** Edge ids come out ascending whatever the input order. */
  lemma EdgeIdsOfReversedInput(g: Graph)
    requires g.edges == [Edge00To02(), Edge00To01()]
    ensures g.EdgeIds() == [10, 30]
  {
    ReversedEdgeIds(g.edges);
    EdgeIdsAre(g, [10, 30]);
  }

  /** A lone node with no edges is the one orphan. */
  lemma LoneNodeIsOrphan()
    ensures OrphanedNodes([Node00()], []) == [Node00()]
  {
    assert Endpoints([]) == {};
    assert [Node00()][..0] == [];
  }

  /** A duplicate 0->1 edge and a reversed 1->0 edge are each listed once. */
  lemma DuplicateAndReversedEdges()
    ensures SameDirectionDuplicates([Edge00To01(), FixtureEdge(20, "edge_node00->node01_dup", 0, 1),
                                     FixtureEdge(30, "edge_node01->node00", 1, 0)])
            == [IdName(20, "edge_node00->node01_dup")]
    ensures BidirectionalEdges([Edge00To01(), FixtureEdge(20, "edge_node00->node01_dup", 0, 1),
                                FixtureEdge(30, "edge_node01->node00", 1, 0)])
            == [IdName(30, "edge_node01->node00")]
  {
    var a, b, c := Edge00To01(), FixtureEdge(20, "edge_node00->node01_dup", 0, 1), FixtureEdge(30, "edge_node01->node00", 1, 0);
    assert [a, b, c][..2] == [a, b];
    assert [a, b][..1] == [a];
    assert [a][..0] == [];
    var edges := [a, b, c];
    assert edges[..0] == [] && edges[..1] == [a] && edges[..2] == [a, b] && edges[..3] == edges;
    assert PairsOf([]) == {};
    PairsOfSnoc(edges, 0);
    PairsOfSnoc(edges, 1);
    PairsOfSnoc(edges, 2);
    assert PairsOf([a]) == {(0, 1)};
    assert PairsOf([a, b]) == {(0, 1)};
    assert PairsOf([a, b, c]) == {(0, 1), (1, 0)};
    assert SameDirectionDuplicates([a]) == [];
    assert SameDirectionDuplicates([a, b]) == [b.Key()];
    assert SameDirectionDuplicates([a, b, c]) == [b.Key()];
    assert BidirectionalEdges([a]) == [];
    assert BidirectionalEdges([a, b]) == [];
    assert BidirectionalEdges([a, b, c]) == [c.Key()];
  }

  /** The three-node cycle 0->1->2->0 is not acyclic. */
  lemma ThreeNodeCycle()
    ensures !Acyclic([Edge00To01(), Edge01To02(), Edge02To00()])
  {
    var edges := [Edge00To01(), Edge01To02(), Edge02To00()];
    var w := [0, 1, 2, 0];
    assert Step(edges[0], FromDownstream, 0, 1);
    assert Step(edges[1], FromDownstream, 1, 2);
    assert Step(edges[2], FromDownstream, 2, 0);
    assert IsWalk(edges, FromDownstream, w);
    assert Reaches(edges, FromDownstream, 0, 0);
  }

  lemma WithIdThree(a: IdName, b: IdName, c: IdName, k: int)
    ensures WithId([a, b, c], k) ==
            (if a.id == k then [a] else []) + (if b.id == k then [b] else []) + (if c.id == k then [c] else [])
  {
    FilterThree(a, b, c, (x: IdName) => x.id == k);
  }

  lemma WithNameThree(a: IdName, b: IdName, c: IdName, k: string)
    ensures WithName([a, b, c], k) ==
            (if a.name == k then [a] else []) + (if b.name == k then [b] else []) + (if c.name == k then [c] else [])
  {
    FilterThree(a, b, c, (x: IdName) => x.name == k);
  }

  /** The keys of the node list of the duplicated-id test: node 0 copied and renamed "node1000". */
  function RenamedCopy(): seq<IdName> {
    [IdName(0, "node00"), IdName(1, "node01"), IdName(0, "node1000")]
  }

  /** That list has one duplicated-id group, holding both pairs with id 0 in input order. */
  lemma DuplicatedNodeId(items: seq<IdName>)
    requires items == RenamedCopy()
    ensures DuplicatedIds(items) == map[0 := [IdName(0, "node00"), IdName(0, "node1000")]]
  {
    assert items == [items[0], items[1], items[2]];
    assert IdsOf(items) == {0, 1};
    WithIdThree(items[0], items[1], items[2], 0);
    WithIdThree(items[0], items[1], items[2], 1);
    assert WithId(items, 0) == [IdName(0, "node00"), IdName(0, "node1000")];
    assert |WithId(items, 1)| == 1;
    var m := DuplicatedIds(items);
    assert m.Keys == {0};
    assert m[0] == [IdName(0, "node00"), IdName(0, "node1000")];
  }

  /** That list has no duplicated name. */
  lemma NoDuplicatedNodeName(items: seq<IdName>)
    requires items == RenamedCopy()
    ensures DuplicatedNames(items) == map[]
  {
    assert items == [items[0], items[1], items[2]];
    forall k | k in NamesOf(items) ensures |WithName(items, k)| <= 1 {
      WithNameThree(items[0], items[1], items[2], k);
    }
    assert DuplicatedNames(items).Keys == {};
  }
}
