/**
 * The value entities of the graph: nodes, edges and the direction tag.
 * Only the fields the structural checks read are kept; the payload mappings
 * (base, pulled and metadata variables) and the pulled flags are left out.
 */
module Entities {
  import opened Wrappers

  /** Which end of an edge a pull (or a traversal) goes toward. */
  datatype Direction = FromUpstream | FromDownstream {
    function Opposite(): (r: Direction)
      ensures r != this
    {
      match this
      case FromUpstream => FromDownstream
      case FromDownstream => FromUpstream
    }
  }

  /** The `(id, name)` pair by which nodes and edges are reported. */
  datatype IdName = IdName(id: int, name: string)

  datatype Node = Node(
    id: int,
    name: string,
    pullFromDownstreamAggKey: string,
    pullFromUpstreamAggKey: string)
  {
    function Key(): IdName {
      IdName(id, name)
    }

    /** The aggregation key used when this node pulls from direction `d`. */
    function AggKey(d: Direction): string {
      match d
      case FromUpstream => pullFromUpstreamAggKey
      case FromDownstream => pullFromDownstreamAggKey
    }
  }

  datatype Edge = Edge(
    id: int,
    name: string,
    downstreamNodeId: int,
    upstreamNodeId: int,
    downstreamMethodKey: string,
    upstreamMethodKey: string)
  {
    function Key(): IdName {
      IdName(id, name)
    }

    /** The id of the node at end `d` of this edge. */
    function Endpoint(d: Direction): int {
      match d
      case FromUpstream => upstreamNodeId
      case FromDownstream => downstreamNodeId
    }

    /** The pull-method key used when pulling from end `d` of this edge. */
    function MethodKey(d: Direction): string {
      match d
      case FromUpstream => upstreamMethodKey
      case FromDownstream => downstreamMethodKey
    }
  }

  datatype EdgeError = SelfLoop(edge: IdName)

  /**
   * Edge construction: an edge from a node to itself is refused,
   * any other edge is returned with exactly the given fields.
   */
  function NewEdge(
    id: int, name: string,
    downstreamNodeId: int, upstreamNodeId: int,
    downstreamMethodKey: string, upstreamMethodKey: string): (r: Result<Edge, EdgeError>)
    ensures r.Failure? <==> upstreamNodeId == downstreamNodeId
    ensures r.Failure? ==> r.error == SelfLoop(IdName(id, name))
    ensures r.Success? ==> r.value == Edge(id, name, downstreamNodeId, upstreamNodeId,
                                             downstreamMethodKey, upstreamMethodKey)
    ensures r.Success? ==> r.value.Endpoint(FromUpstream) != r.value.Endpoint(FromDownstream)
  {
    var e := Edge(id, name, downstreamNodeId, upstreamNodeId, downstreamMethodKey, upstreamMethodKey);
    if e.downstreamNodeId == e.upstreamNodeId then Failure(SelfLoop(e.Key())) else Success(e)
  }

  /** Every node id that some edge touches, at either end. */
  function Endpoints(edges: seq<Edge>): (s: set<int>)
    ensures forall e, d :: e in edges ==> e.Endpoint(d) in s
    ensures forall x :: x in s ==> exists e, d :: e in edges && e.Endpoint(d) == x
  {
    var s := (set e | e in edges :: e.upstreamNodeId) + (set e | e in edges :: e.downstreamNodeId);
    assert forall e :: e in edges ==> e.Endpoint(FromUpstream) in s && e.Endpoint(FromDownstream) in s;
    assert forall x :: x in s ==> exists e :: e in edges && (e.Endpoint(FromUpstream) == x || e.Endpoint(FromDownstream) == x);
    s
  }

  /** The set of ids of the nodes. */
  function NodeIdSet(nodes: seq<Node>): set<int> {
    set n | n in nodes :: n.id
  }

  /** The `(id, name)` pairs of a list of items, position by position. */
  function KeysOf<T>(items: seq<T>, key: T -> IdName): (r: seq<IdName>)
    ensures |r| == |items| && forall i :: 0 <= i < |items| ==> r[i] == key(items[i])
  {
    seq(|items|, i requires 0 <= i < |items| => key(items[i]))
  }

  function NodeKeys(nodes: seq<Node>): seq<IdName> {
    KeysOf(nodes, (n: Node) => n.Key())
  }

  function EdgeKeys(edges: seq<Edge>): seq<IdName> {
    KeysOf(edges, (e: Edge) => e.Key())
  }
}
