/**
 * The graph: its derived indices (sorted ids, lookup maps, roots, leaves,
 * ancestors and descendants) and the construction pipeline that accepts a
 * graph only when every structural check passes.
 */
module Graphs {
  import opened Wrappers
  import opened Seqs
  import opened Entities
  import opened Uniqueness
  import opened EdgePairs
  import opened GraphChecks
  import opened Paths
  import opened Discovery

  /** The id of a node; also the key of the node lookup map. */
  function NodeId(n: Node): int { n.id }

  /** The id of an edge; also the key of the edge lookup map. */
  function EdgeId(e: Edge): int { e.id }

  /** A graph over nodes and edges, with the keys of its two method registries. */
  datatype Graph = Graph(nodes: seq<Node>, edges: seq<Edge>, pullMethods: set<string>, aggMethods: set<string>)
  {
    /** Every structural requirement a constructed graph meets. */
    ghost predicate Valid() {
      && AllUnique(NodeKeys(nodes))
      && AllUnique(EdgeKeys(edges))
      && NoDuplicatedPairs(edges)
      && PullKeysResolve(edges, pullMethods)
      && AggKeysResolve(nodes, aggMethods)
      && EndpointsExist(nodes, edges)
      && Acyclic(edges)
    }

    /** The node ids, ascending. */
    function NodeIds(): (r: seq<int>)
      ensures Sorted(r) && multiset(r) == multiset(MapInt(nodes, NodeId))
      ensures forall x :: x in r <==> x in NodeIdSet(nodes)
    {
      var r := Sort(MapInt(nodes, NodeId));
      assert forall x :: x in r <==> x in multiset(MapInt(nodes, NodeId));
      r
    }

    /** The edge ids, ascending. */
    function EdgeIds(): (r: seq<int>)
      ensures Sorted(r) && multiset(r) == multiset(MapInt(edges, EdgeId))
      ensures forall x :: x in r <==> exists e :: e in edges && e.id == x
    {
      var r := Sort(MapInt(edges, EdgeId));
      assert forall x :: x in r <==> x in multiset(MapInt(edges, EdgeId));
      r
    }

    /** The nodes by id; when ids repeat, the last node with that id wins. */
    function NodesAsDict(): (m: map<int, Node>)
      ensures m.Keys == NodeIdSet(nodes)
      ensures forall k :: k in m ==> m[k] in nodes && m[k].id == k
    {
      var m := ToMap(nodes, NodeId);
      assert m.Keys == NodeIdSet(nodes);
      m
    }

    /** The edges by id; when ids repeat, the last edge with that id wins. */
    function EdgesAsDict(): (m: map<int, Edge>)
      ensures forall k :: k in m <==> exists e :: e in edges && e.id == k
      ensures forall k :: k in m ==> m[k] in edges && m[k].id == k
    {
      ToMap(edges, EdgeId)
    }

    /** The nodes, in node order, whose id is the downstream end of no edge. */
    function RootNodes(): (r: seq<Node>)
      ensures forall n :: n in r ==> n in nodes && forall e :: e in edges ==> e.downstreamNodeId != n.id
      ensures forall n :: n in nodes && (forall e :: e in edges ==> e.downstreamNodeId != n.id) ==> n in r
    {
      var nonRootIds := set e | e in edges :: e.downstreamNodeId;
      var rootIds := (set x | x in NodeIds()) - nonRootIds;
      Filter(nodes, (n: Node) => n.id in rootIds)
    }

    /** The nodes, in node order, whose id is the upstream end of no edge. */
    function LeafNodes(): (r: seq<Node>)
      ensures forall n :: n in r ==> n in nodes && forall e :: e in edges ==> e.upstreamNodeId != n.id
      ensures forall n :: n in nodes && (forall e :: e in edges ==> e.upstreamNodeId != n.id) ==> n in r
    {
      var nonLeafIds := set e | e in edges :: e.upstreamNodeId;
      var leafIds := (set x | x in NodeIds()) - nonLeafIds;
      Filter(nodes, (n: Node) => n.id in leafIds)
    }

    /** The ancestors of every node: the ids it reaches walking upstream, ascending. */
    method UpstreamNodeIds() returns (r: map<int, seq<int>>)
      requires EndpointsExist(nodes, edges) && Acyclic(edges)
      ensures r.Keys == NodeIdSet(nodes)
      ensures forall x :: x in r ==> StrictlyIncreasing(r[x])
      ensures forall x, y :: x in r ==> (y in r[x] <==> Reaches(edges, FromUpstream, x, y))
    {
      AcyclicIffBounded(nodes, edges, FromUpstream);
      var found := DiscoverAll(nodes, edges, FromUpstream);
      r := found.value;
    }

    /** The descendants of every node: the ids it reaches walking downstream, ascending. */
    method DownstreamNodeIds() returns (r: map<int, seq<int>>)
      requires EndpointsExist(nodes, edges) && Acyclic(edges)
      ensures r.Keys == NodeIdSet(nodes)
      ensures forall x :: x in r ==> StrictlyIncreasing(r[x])
      ensures forall x, y :: x in r ==> (y in r[x] <==> Reaches(edges, FromDownstream, x, y))
    {
      AcyclicIffBounded(nodes, edges, FromDownstream);
      var found := DiscoverAll(nodes, edges, FromDownstream);
      r := found.value;
    }
  }

  /** The sorted node ids do not depend on the order of the nodes. */
  lemma NodeIdsOrderIndependent(g: Graph, h: Graph)
    requires multiset(g.nodes) == multiset(h.nodes)
    ensures g.NodeIds() == h.NodeIds()
  {
    MapIntPermutation(g.nodes, h.nodes, NodeId);
    SortedPermutationsEqual(g.NodeIds(), h.NodeIds());
  }

  /** The sorted edge ids do not depend on the order of the edges. */
  lemma EdgeIdsOrderIndependent(g: Graph, h: Graph)
    requires multiset(g.edges) == multiset(h.edges)
    ensures g.EdgeIds() == h.EdgeIds()
  {
    MapIntPermutation(g.edges, h.edges, EdgeId);
    SortedPermutationsEqual(g.EdgeIds(), h.EdgeIds());
  }

  /** With unique node ids, the lookup map returns each node under its own id. */
  lemma NodesAsDictFindsEachNode(g: Graph)
    requires AllUnique(NodeKeys(g.nodes))
    ensures forall n :: n in g.nodes ==> g.NodesAsDict()[n.id] == n
  {
    var m := ToMap(g.nodes, NodeId);
    forall i | 0 <= i < |g.nodes| ensures g.nodes[i].id in m && m[g.nodes[i].id] == g.nodes[i] {
      forall j | i < j < |g.nodes| ensures NodeId(g.nodes[j]) != NodeId(g.nodes[i]) {
        assert NodeKeys(g.nodes)[i].id == g.nodes[i].id;
        assert NodeKeys(g.nodes)[j].id == g.nodes[j].id;
      }
      ToMapLastWins(g.nodes, NodeId, i);
    }
  }

  /** With unique edge ids, the lookup map returns each edge under its own id. */
  lemma EdgesAsDictFindsEachEdge(g: Graph)
    requires AllUnique(EdgeKeys(g.edges))
    ensures forall e :: e in g.edges ==> g.EdgesAsDict()[e.id] == e
  {
    var m := ToMap(g.edges, EdgeId);
    forall i | 0 <= i < |g.edges| ensures g.edges[i].id in m && m[g.edges[i].id] == g.edges[i] {
      forall j | i < j < |g.edges| ensures EdgeId(g.edges[j]) != EdgeId(g.edges[i]) {
        assert EdgeKeys(g.edges)[i].id == g.edges[i].id;
        assert EdgeKeys(g.edges)[j].id == g.edges[j].id;
      }
      ToMapLastWins(g.edges, EdgeId, i);
    }
  }

  /** The nodes from which no edge leaves toward `d`. */
  ghost predicate Terminal(edges: seq<Edge>, d: Direction, x: int) {
    forall e :: e in edges ==> e.Endpoint(d.Opposite()) != x
  }

  /** A node reaches nothing toward `d` exactly when no edge leaves it toward `d`. */
  lemma TerminalIffReachesNothing(edges: seq<Edge>, d: Direction, x: int)
    ensures Terminal(edges, d, x) <==> forall y :: !Reaches(edges, d, x, y)
  {
    if Terminal(edges, d, x) {
      forall y ensures !Reaches(edges, d, x, y) {
        ReachesStep(edges, d, x, y);
      }
    } else {
      var e :| e in edges && e.Endpoint(d.Opposite()) == x;
      ReachesStep(edges, d, x, e.Endpoint(d));
    }
  }

  /** A root is exactly a node without ancestors. */
  lemma RootIffNoAncestors(g: Graph, n: Node)
    ensures n in g.RootNodes() <==> n in g.nodes && forall y :: !Reaches(g.edges, FromUpstream, n.id, y)
  {
    TerminalIffReachesNothing(g.edges, FromUpstream, n.id);
  }

  /** A leaf is exactly a node without descendants. */
  lemma LeafIffNoDescendants(g: Graph, n: Node)
    ensures n in g.LeafNodes() <==> n in g.nodes && forall y :: !Reaches(g.edges, FromDownstream, n.id, y)
  {
    TerminalIffReachesNothing(g.edges, FromDownstream, n.id);
  }

  /** Walking toward `d` from a node with a depth bound ends at a terminal node. */
  lemma {:induction false} WalkEndsAtTerminal(nodes: seq<Node>, edges: seq<Edge>, d: Direction, x: int, f: nat)
    requires EndpointsExist(nodes, edges) && x in NodeIdSet(nodes) && Bounded(edges, d, x, f)
    ensures exists n :: n in nodes && Terminal(edges, d, n.id)
    decreases f
  {
    if Terminal(edges, d, x) {
      var n :| n in nodes && n.id == x;
      assert Terminal(edges, d, n.id);
    } else {
      var e :| e in edges && e.Endpoint(d.Opposite()) == x;
      BoundedStep(edges, d, x, f);
      assert e.Endpoint(d) in NodeIdSet(nodes) by {
        match d
        case FromUpstream =>
        case FromDownstream =>
      }
      WalkEndsAtTerminal(nodes, edges, d, e.Endpoint(d), f - 1);
    }
  }

  lemma TerminalUpstreamIsRoot(g: Graph, n: Node)
    requires n in g.nodes && Terminal(g.edges, FromUpstream, n.id)
    ensures n in g.RootNodes()
  {
    forall e | e in g.edges ensures e.downstreamNodeId != n.id {
      assert e.Endpoint(FromUpstream.Opposite()) != n.id;
    }
  }

  lemma TerminalDownstreamIsLeaf(g: Graph, n: Node)
    requires n in g.nodes && Terminal(g.edges, FromDownstream, n.id)
    ensures n in g.LeafNodes()
  {
    forall e | e in g.edges ensures e.upstreamNodeId != n.id {
      assert e.Endpoint(FromDownstream.Opposite()) != n.id;
    }
  }

  /** A valid graph with at least one node has a root. */
  lemma RootExists(g: Graph)
    requires g.Valid() && g.nodes != []
    ensures g.RootNodes() != []
  {
    var x := g.nodes[0].id;
    EndpointsExistAsSubset(g.nodes, g.edges);
    AcyclicBounded(g.edges, FromUpstream, x, NodeIdSet(g.nodes));
    WalkEndsAtTerminal(g.nodes, g.edges, FromUpstream, x, |NodeIdSet(g.nodes)|);
    var root :| root in g.nodes && Terminal(g.edges, FromUpstream, root.id);
    TerminalUpstreamIsRoot(g, root);
  }

  /** A valid graph with at least one node has a leaf. */
  lemma LeafExists(g: Graph)
    requires g.Valid() && g.nodes != []
    ensures g.LeafNodes() != []
  {
    var x := g.nodes[0].id;
    EndpointsExistAsSubset(g.nodes, g.edges);
    AcyclicBounded(g.edges, FromDownstream, x, NodeIdSet(g.nodes));
    WalkEndsAtTerminal(g.nodes, g.edges, FromDownstream, x, |NodeIdSet(g.nodes)|);
    var leaf :| leaf in g.nodes && Terminal(g.edges, FromDownstream, leaf.id);
    TerminalDownstreamIsLeaf(g, leaf);
  }

  /** `x` is an ancestor of `n` exactly when `n` is a descendant of `x`. */
  lemma AncestorIffDescendant(edges: seq<Edge>, n: int, x: int)
    ensures Reaches(edges, FromUpstream, n, x) <==> Reaches(edges, FromDownstream, x, n)
  {
    ReachesReverse(edges, FromUpstream, n, x);
  }

  /** Each end of an edge is among the nodes the other end reaches toward it. */
  lemma DirectNeighbourReached(edges: seq<Edge>, e: Edge, d: Direction)
    requires e in edges
    ensures Reaches(edges, d, e.Endpoint(d.Opposite()), e.Endpoint(d))
  {
    ReachesStep(edges, d, e.Endpoint(d.Opposite()), e.Endpoint(d));
  }

  /** In an acyclic graph no node is its own ancestor or descendant. */
  lemma AcyclicNoSelfReach(edges: seq<Edge>, d: Direction, x: int)
    requires Acyclic(edges)
    ensures !Reaches(edges, d, x, x)
  {
    if d == FromUpstream {
      ReachesReverse(edges, FromUpstream, x, x);
    }
  }

  /** One reported violation: a list-level check, or the first failing graph-level check. */
  datatype Violation =
    | NodeIdentifiers(duplicates: Duplicates)
    | EdgeIdentifiers(duplicates: Duplicates)
    | EdgePairing(pairs: DuplicateEdges)
    | Structure(error: ModelError)

  /** The node list and the edge list each pass their own checks. */
  ghost predicate FieldsValid(nodes: seq<Node>, edges: seq<Edge>) {
    AllUnique(NodeKeys(nodes)) && AllUnique(EdgeKeys(edges)) && NoDuplicatedPairs(edges)
  }

  /**
   * The violations of the list-level checks, node list first. The edge-pair
   * check only runs on an edge list whose ids and names are unique.
   */
  ghost function FieldViolations(nodes: seq<Node>, edges: seq<Edge>): seq<Violation> {
    (if AllUnique(NodeKeys(nodes)) then []
     else [NodeIdentifiers(Duplicates(DuplicatedIds(NodeKeys(nodes)), DuplicatedNames(NodeKeys(nodes))))])
    +
    (if !AllUnique(EdgeKeys(edges)) then
       [EdgeIdentifiers(Duplicates(DuplicatedIds(EdgeKeys(edges)), DuplicatedNames(EdgeKeys(edges))))]
     else if !NoDuplicatedPairs(edges) then
       [EdgePairing(DuplicateEdges(SameDirectionDuplicates(edges), BidirectionalEdges(edges)))]
     else [])
  }

  /**
   * Graph construction. The node and edge lists are checked first and all
   * their violations are reported together; only when both pass do the
   * graph-level checks run, in order, and the first to fail is reported.
   * The orphan advisory is produced when the checks before it have passed,
   * whether or not the acyclicity check after it passes.
   */
  method NewGraph(nodes: seq<Node>, edges: seq<Edge>, pullMethods: set<string>, aggMethods: set<string>)
    returns (r: Result<Graph, seq<Violation>>, orphans: seq<Node>)
    ensures r.Success? <==> Graph(nodes, edges, pullMethods, aggMethods).Valid()
    ensures r.Success? ==> r.value == Graph(nodes, edges, pullMethods, aggMethods)
    ensures !FieldsValid(nodes, edges) ==> r == Failure(FieldViolations(nodes, edges)) && FieldViolations(nodes, edges) != []
    ensures FieldsValid(nodes, edges) && !PullKeysResolve(edges, pullMethods) ==>
              r == Failure([Structure(MissingPullKeys(EdgesMissingPullKey(edges, pullMethods, FromUpstream),
                                                      EdgesMissingPullKey(edges, pullMethods, FromDownstream)))])
    ensures FieldsValid(nodes, edges) && PullKeysResolve(edges, pullMethods) && !AggKeysResolve(nodes, aggMethods) ==>
              r == Failure([Structure(MissingAggKeys(NodesMissingAggKey(nodes, aggMethods, FromDownstream),
                                                     NodesMissingAggKey(nodes, aggMethods, FromUpstream)))])
    ensures FieldsValid(nodes, edges) && PullKeysResolve(edges, pullMethods) && AggKeysResolve(nodes, aggMethods) &&
            !EndpointsExist(nodes, edges) ==>
              r == Failure([Structure(InvalidNodeIds(EdgesWithInvalidNodeId(edges, NodeIdSet(nodes), FromUpstream),
                                                     EdgesWithInvalidNodeId(edges, NodeIdSet(nodes), FromDownstream)))])
    ensures FieldsValid(nodes, edges) && PullKeysResolve(edges, pullMethods) && AggKeysResolve(nodes, aggMethods) &&
            EndpointsExist(nodes, edges) && !Acyclic(edges) ==>
              r == Failure([Structure(CycleDetected)])
    ensures orphans == if FieldsValid(nodes, edges) && PullKeysResolve(edges, pullMethods) &&
                          AggKeysResolve(nodes, aggMethods) && EndpointsExist(nodes, edges)
                       then OrphanedNodes(nodes, edges) else []
  {
    orphans := [];
    var fieldErrors: seq<Violation> := [];
    var nodeCheck := ValidateIdAndNameUnique(NodeKeys(nodes));
    if nodeCheck.Fail? {
      fieldErrors := fieldErrors + [NodeIdentifiers(nodeCheck.error)];
    }
    var edgeErrors: seq<Violation> := [];
    var edgeCheck := ValidateIdAndNameUnique(EdgeKeys(edges));
    if edgeCheck.Fail? {
      edgeErrors := [EdgeIdentifiers(edgeCheck.error)];
    } else {
      var pairCheck := ValidateNoDupedEdges(edges);
      if pairCheck.Fail? {
        edgeErrors := [EdgePairing(pairCheck.error)];
      }
    }
    fieldErrors := fieldErrors + edgeErrors;
    assert fieldErrors == FieldViolations(nodes, edges);
    if fieldErrors != [] {
      return Failure(fieldErrors), orphans;
    }
    var pullCheck := ValidatePullMethodKeys(edges, pullMethods);
    if pullCheck.Fail? {
      return Failure([Structure(pullCheck.error)]), orphans;
    }
    var aggCheck := ValidateAggMethodKeys(nodes, aggMethods);
    if aggCheck.Fail? {
      return Failure([Structure(aggCheck.error)]), orphans;
    }
    var idCheck := ValidateEdgeNodeIds(nodes, edges);
    if idCheck.Fail? {
      return Failure([Structure(idCheck.error)]), orphans;
    }
    orphans := FindOrphanedNodes(nodes, edges);
    var acyclicCheck := ValidateAcyclic(nodes, edges);
    if acyclicCheck.Fail? {
      return Failure([Structure(acyclicCheck.error)]), orphans;
    }
    r := Success(Graph(nodes, edges, pullMethods, aggMethods));
  }
}
