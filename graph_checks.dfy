/**
 * The graph-level checks that run once both lists passed their own checks:
 * pull-method keys, aggregation keys, edge endpoint ids, and the orphan advisory.
 */
module GraphChecks {
  import opened Wrappers
  import opened Seqs
  import opened Entities

  /** The failures of the graph-level checks, each list in input order. */
  datatype ModelError =
    | MissingPullKeys(upstream: seq<Edge>, downstream: seq<Edge>)
    | MissingAggKeys(downstreamNodes: seq<Node>, upstreamNodes: seq<Node>)
    | InvalidNodeIds(upstream: seq<Edge>, downstream: seq<Edge>)
    | CycleDetected

  /** The edges whose pull-method key for end `d` is not registered. */
  function EdgesMissingPullKey(edges: seq<Edge>, keys: set<string>, d: Direction): seq<Edge> {
    Filter(edges, (e: Edge) => e.MethodKey(d) !in keys)
  }

  /** The nodes whose aggregation key for direction `d` is not registered. */
  function NodesMissingAggKey(nodes: seq<Node>, keys: set<string>, d: Direction): seq<Node> {
    Filter(nodes, (n: Node) => n.AggKey(d) !in keys)
  }

  /** The edges whose end `d` names no node id in `ids`. */
  function EdgesWithInvalidNodeId(edges: seq<Edge>, ids: set<int>, d: Direction): seq<Edge> {
    Filter(edges, (e: Edge) => e.Endpoint(d) !in ids)
  }

  /** The nodes that are an endpoint of no edge, in node order. */
  function OrphanedNodes(nodes: seq<Node>, edges: seq<Edge>): seq<Node> {
    Filter(nodes, (n: Node) => n.id !in Endpoints(edges))
  }

  ghost predicate PullKeysResolve(edges: seq<Edge>, keys: set<string>) {
    forall e :: e in edges ==> e.upstreamMethodKey in keys && e.downstreamMethodKey in keys
  }

  ghost predicate AggKeysResolve(nodes: seq<Node>, keys: set<string>) {
    forall n :: n in nodes ==> n.pullFromDownstreamAggKey in keys && n.pullFromUpstreamAggKey in keys
  }

  /** Both ends of every edge are ids of nodes of the list. */
  ghost predicate EndpointsExist(nodes: seq<Node>, edges: seq<Edge>) {
    forall e :: e in edges ==> e.upstreamNodeId in NodeIdSet(nodes) && e.downstreamNodeId in NodeIdSet(nodes)
  }

  lemma EndpointsExistAsSubset(nodes: seq<Node>, edges: seq<Edge>)
    ensures EndpointsExist(nodes, edges) <==> Endpoints(edges) <= NodeIdSet(nodes)
  {
    if EndpointsExist(nodes, edges) {
      forall x | x in Endpoints(edges) ensures x in NodeIdSet(nodes) {
        var e, d :| e in edges && e.Endpoint(d) == x;
      }
    }
  }

  /** Every pull key resolves exactly when neither missing-key list has an edge. */
  lemma PullKeysResolveIffNoneMissing(edges: seq<Edge>, keys: set<string>)
    ensures PullKeysResolve(edges, keys) <==>
            EdgesMissingPullKey(edges, keys, FromUpstream) == [] && EdgesMissingPullKey(edges, keys, FromDownstream) == []
  {
    var up, down := EdgesMissingPullKey(edges, keys, FromUpstream), EdgesMissingPullKey(edges, keys, FromDownstream);
    if up != [] || down != [] {
      var e := if up != [] then up[0] else down[0];
      assert e in edges && (e.MethodKey(FromUpstream) !in keys || e.MethodKey(FromDownstream) !in keys);
    } else {
      assert forall e :: e in edges ==> e.MethodKey(FromUpstream) in keys && e.MethodKey(FromDownstream) in keys;
    }
  }

  /** Every aggregation key resolves exactly when neither missing-key list has a node. */
  lemma AggKeysResolveIffNoneMissing(nodes: seq<Node>, keys: set<string>)
    ensures AggKeysResolve(nodes, keys) <==>
            NodesMissingAggKey(nodes, keys, FromDownstream) == [] && NodesMissingAggKey(nodes, keys, FromUpstream) == []
  {
    var down, up := NodesMissingAggKey(nodes, keys, FromDownstream), NodesMissingAggKey(nodes, keys, FromUpstream);
    if down != [] || up != [] {
      var n := if down != [] then down[0] else up[0];
      assert n in nodes && (n.AggKey(FromUpstream) !in keys || n.AggKey(FromDownstream) !in keys);
    } else {
      assert forall n :: n in nodes ==> n.AggKey(FromUpstream) in keys && n.AggKey(FromDownstream) in keys;
    }
  }

  /** Every endpoint names a node exactly when neither invalid-id list has an edge. */
  lemma EndpointsExistIffNoneInvalid(nodes: seq<Node>, edges: seq<Edge>)
    ensures EndpointsExist(nodes, edges) <==>
            EdgesWithInvalidNodeId(edges, NodeIdSet(nodes), FromUpstream) == [] &&
            EdgesWithInvalidNodeId(edges, NodeIdSet(nodes), FromDownstream) == []
  {
    var ids := NodeIdSet(nodes);
    var up, down := EdgesWithInvalidNodeId(edges, ids, FromUpstream), EdgesWithInvalidNodeId(edges, ids, FromDownstream);
    if up != [] || down != [] {
      var e := if up != [] then up[0] else down[0];
      assert e in edges && (e.Endpoint(FromUpstream) !in ids || e.Endpoint(FromDownstream) !in ids);
    } else {
      assert forall e :: e in edges ==> e.Endpoint(FromUpstream) in ids && e.Endpoint(FromDownstream) in ids;
    }
  }

  /** Pull-method keys: both lists of offending edges are reported together. */
  method ValidatePullMethodKeys(edges: seq<Edge>, keys: set<string>) returns (r: Outcome<ModelError>)
    ensures r.Pass? <==> PullKeysResolve(edges, keys)
    ensures r.Fail? ==> r.error == MissingPullKeys(EdgesMissingPullKey(edges, keys, FromUpstream),
                                                   EdgesMissingPullKey(edges, keys, FromDownstream))
  {
    var missingUpstream: seq<Edge> := [];
    for i := 0 to |edges|
      invariant missingUpstream == EdgesMissingPullKey(edges[..i], keys, FromUpstream)
    {
      assert edges[..i + 1][..i] == edges[..i];
      if edges[i].upstreamMethodKey !in keys {
        missingUpstream := missingUpstream + [edges[i]];
      }
    }
    var missingDownstream: seq<Edge> := [];
    for i := 0 to |edges|
      invariant missingDownstream == EdgesMissingPullKey(edges[..i], keys, FromDownstream)
    {
      assert edges[..i + 1][..i] == edges[..i];
      if edges[i].downstreamMethodKey !in keys {
        missingDownstream := missingDownstream + [edges[i]];
      }
    }
    assert edges[..|edges|] == edges;
    PullKeysResolveIffNoneMissing(edges, keys);
    if missingUpstream != [] || missingDownstream != [] {
      r := Fail(MissingPullKeys(missingUpstream, missingDownstream));
    } else {
      r := Pass;
    }
  }

  /** Aggregation keys: both lists of offending nodes are reported together. */
  method ValidateAggMethodKeys(nodes: seq<Node>, keys: set<string>) returns (r: Outcome<ModelError>)
    ensures r.Pass? <==> AggKeysResolve(nodes, keys)
    ensures r.Fail? ==> r.error == MissingAggKeys(NodesMissingAggKey(nodes, keys, FromDownstream),
                                                  NodesMissingAggKey(nodes, keys, FromUpstream))
  {
    var missingDownstream: seq<Node> := [];
    for i := 0 to |nodes|
      invariant missingDownstream == NodesMissingAggKey(nodes[..i], keys, FromDownstream)
    {
      assert nodes[..i + 1][..i] == nodes[..i];
      if nodes[i].pullFromDownstreamAggKey !in keys {
        missingDownstream := missingDownstream + [nodes[i]];
      }
    }
    var missingUpstream: seq<Node> := [];
    for i := 0 to |nodes|
      invariant missingUpstream == NodesMissingAggKey(nodes[..i], keys, FromUpstream)
    {
      assert nodes[..i + 1][..i] == nodes[..i];
      if nodes[i].pullFromUpstreamAggKey !in keys {
        missingUpstream := missingUpstream + [nodes[i]];
      }
    }
    assert nodes[..|nodes|] == nodes;
    AggKeysResolveIffNoneMissing(nodes, keys);
    if missingDownstream != [] || missingUpstream != [] {
      r := Fail(MissingAggKeys(missingDownstream, missingUpstream));
    } else {
      r := Pass;
    }
  }

  /** Edge endpoints: both lists of edges naming an unknown node are reported together. */
  method ValidateEdgeNodeIds(nodes: seq<Node>, edges: seq<Edge>) returns (r: Outcome<ModelError>)
    ensures r.Pass? <==> EndpointsExist(nodes, edges)
    ensures r.Fail? ==> r.error == InvalidNodeIds(EdgesWithInvalidNodeId(edges, NodeIdSet(nodes), FromUpstream),
                                                  EdgesWithInvalidNodeId(edges, NodeIdSet(nodes), FromDownstream))
  {
    var nodeIds := set n | n in nodes :: n.id;
    var invalidUpstream: seq<Edge> := [];
    for i := 0 to |edges|
      invariant invalidUpstream == EdgesWithInvalidNodeId(edges[..i], nodeIds, FromUpstream)
    {
      assert edges[..i + 1][..i] == edges[..i];
      if edges[i].upstreamNodeId !in nodeIds {
        invalidUpstream := invalidUpstream + [edges[i]];
      }
    }
    var invalidDownstream: seq<Edge> := [];
    for i := 0 to |edges|
      invariant invalidDownstream == EdgesWithInvalidNodeId(edges[..i], nodeIds, FromDownstream)
    {
      assert edges[..i + 1][..i] == edges[..i];
      if edges[i].downstreamNodeId !in nodeIds {
        invalidDownstream := invalidDownstream + [edges[i]];
      }
    }
    assert edges[..|edges|] == edges;
    EndpointsExistIffNoneInvalid(nodes, edges);
    if invalidUpstream != [] || invalidDownstream != [] {
      r := Fail(InvalidNodeIds(invalidUpstream, invalidDownstream));
    } else {
      r := Pass;
    }
  }

  /** A node is an orphan exactly when it is listed and no edge touches it at either end. */
  lemma OrphanedNodesExact(nodes: seq<Node>, edges: seq<Edge>, n: Node)
    ensures n in OrphanedNodes(nodes, edges) <==>
            n in nodes && forall e :: e in edges ==> e.upstreamNodeId != n.id && e.downstreamNodeId != n.id
  {
    if n in nodes && n !in OrphanedNodes(nodes, edges) {
      assert n.id in Endpoints(edges);
    }
  }

  /**
   * The orphan advisory: collects every endpoint id, then keeps the nodes
   * that are none of them. It never fails.
   */
  method FindOrphanedNodes(nodes: seq<Node>, edges: seq<Edge>) returns (orphans: seq<Node>)
    ensures orphans == OrphanedNodes(nodes, edges)
    ensures forall n :: n in orphans <==>
              n in nodes && forall e :: e in edges ==> e.upstreamNodeId != n.id && e.downstreamNodeId != n.id
  {
    var nodesWithEdges: set<int> := {};
    for i := 0 to |edges|
      invariant nodesWithEdges == Endpoints(edges[..i])
    {
      assert edges[..i + 1] == edges[..i] + [edges[i]];
      nodesWithEdges := nodesWithEdges + {edges[i].upstreamNodeId};
      nodesWithEdges := nodesWithEdges + {edges[i].downstreamNodeId};
    }
    assert edges[..|edges|] == edges;
    orphans := [];
    for i := 0 to |nodes|
      invariant orphans == OrphanedNodes(nodes[..i], edges)
    {
      assert nodes[..i + 1][..i] == nodes[..i];
      if nodes[i].id !in nodesWithEdges {
        orphans := orphans + [nodes[i]];
      }
    }
    assert nodes[..|nodes|] == nodes;
    forall n ensures n in orphans <==>
              n in nodes && forall e :: e in edges ==> e.upstreamNodeId != n.id && e.downstreamNodeId != n.id
    {
      OrphanedNodesExact(nodes, edges, n);
    }
  }
}
