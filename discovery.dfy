/**
 * Discovery of the ancestors and descendants of nodes, and the acyclicity
 * check built on it. The traversal recurses along edges without remembering
 * visited nodes, so on a cycle it never ends; the interpreter's recursion
 * limit is what stops it. The model gives each traversal a depth budget
 * (`fuel`) and reports exhaustion as `None`.
 */
module Discovery {
  import opened Wrappers
  import opened Seqs
  import opened Entities
  import opened Paths
  import opened GraphChecks

  /** The edges that leave node `n` when walking toward `d`, in edge order. */
  function EdgesFrom(edges: seq<Edge>, n: int, d: Direction): (r: seq<Edge>)
    ensures forall e :: e in r ==> e in edges && e.Endpoint(d.Opposite()) == n
    ensures forall e :: e in edges && e.Endpoint(d.Opposite()) == n ==> e in r
  {
    Filter(edges, (e: Edge) => e.Endpoint(d.Opposite()) == n)
  }

  /** Node `y` is reached through one of the first `i` edges of `mine`. */
  ghost predicate FoundVia(edges: seq<Edge>, d: Direction, mine: seq<Edge>, i: nat, y: int)
    requires i <= |mine|
  {
    exists k :: 0 <= k < i && (mine[k].Endpoint(d) == y || Reaches(edges, d, mine[k].Endpoint(d), y))
  }

  lemma FoundExtend(edges: seq<Edge>, d: Direction, mine: seq<Edge>, i: nat, found: seq<int>, out: seq<int>)
    requires i < |mine|
    requires forall y :: y in found <==> FoundVia(edges, d, mine, i, y)
    requires forall y :: y in out <==> Reaches(edges, d, mine[i].Endpoint(d), y)
    ensures forall y :: y in found + out + [mine[i].Endpoint(d)] <==> FoundVia(edges, d, mine, i + 1, y)
  {
    forall y ensures y in found + out + [mine[i].Endpoint(d)] <==> FoundVia(edges, d, mine, i + 1, y) {
      if FoundVia(edges, d, mine, i + 1, y) {
        var k :| 0 <= k < i + 1 && (mine[k].Endpoint(d) == y || Reaches(edges, d, mine[k].Endpoint(d), y));
        if k < i {
          assert FoundVia(edges, d, mine, i, y);
        }
      }
    }
  }

  lemma FoundComplete(edges: seq<Edge>, d: Direction, n: int, mine: seq<Edge>, found: seq<int>)
    requires mine == EdgesFrom(edges, n, d)
    requires forall y :: y in found <==> FoundVia(edges, d, mine, |mine|, y)
    ensures forall y :: y in found <==> Reaches(edges, d, n, y)
  {
    forall y ensures y in found <==> Reaches(edges, d, n, y) {
      ReachesStep(edges, d, n, y);
      if Reaches(edges, d, n, y) {
        var e :| e in edges && e.Endpoint(d.Opposite()) == n &&
                 (e.Endpoint(d) == y || Reaches(edges, d, e.Endpoint(d), y));
        var k :| 0 <= k < |mine| && mine[k] == e;
        assert FoundVia(edges, d, mine, |mine|, y);
      }
    }
  }

  /** Each of the first `i` edges of `mine` leads to a node whose walks fit in `fuel - 1` edges. */
  ghost predicate NextBounded(edges: seq<Edge>, d: Direction, mine: seq<Edge>, i: nat, fuel: nat)
    requires i <= |mine|
  {
    forall k :: 0 <= k < i ==> fuel > 0 && Bounded(edges, d, mine[k].Endpoint(d), fuel - 1)
  }

  lemma BoundedComplete(edges: seq<Edge>, d: Direction, n: int, mine: seq<Edge>, fuel: nat)
    requires mine == EdgesFrom(edges, n, d)
    requires NextBounded(edges, d, mine, |mine|, fuel)
    ensures Bounded(edges, d, n, fuel)
  {
    BoundedStep(edges, d, n, fuel);
    forall e | e in edges && e.Endpoint(d.Opposite()) == n
      ensures fuel > 0 && Bounded(edges, d, e.Endpoint(d), fuel - 1)
    {
      var k :| 0 <= k < |mine| && mine[k] == e;
    }
  }

  lemma BoundedBroken(edges: seq<Edge>, d: Direction, n: int, fuel: nat, e: Edge)
    requires e in EdgesFrom(edges, n, d)
    requires fuel == 0 || !Bounded(edges, d, e.Endpoint(d), fuel - 1)
    ensures !Bounded(edges, d, n, fuel)
  {
    BoundedStep(edges, d, n, fuel);
  }

  /**
   * The nodes reached from `n` toward `d`, sorted and without repeats.
   * The traversal succeeds exactly when no walk from `n` is longer than
   * `fuel` edges, and then finds every node `n` reaches and nothing else.
   */
  method Discover(nodes: seq<Node>, edges: seq<Edge>, n: int, d: Direction, fuel: nat)
    returns (r: Option<seq<int>>)
    requires EndpointsExist(nodes, edges)
    ensures r.Some? <==> Bounded(edges, d, n, fuel)
    ensures r.Some? ==> StrictlyIncreasing(r.value)
    ensures r.Some? ==> forall y :: y in r.value <==> Reaches(edges, d, n, y)
    decreases fuel
  {
    var mine := EdgesFrom(edges, n, d);
    var found: seq<int> := [];
    var i := 0;
    while i < |mine|
      invariant 0 <= i <= |mine|
      invariant NextBounded(edges, d, mine, i, fuel)
      invariant forall y :: y in found <==> FoundVia(edges, d, mine, i, y)
    {
      var next := mine[i].Endpoint(d);
      if fuel == 0 {
        BoundedBroken(edges, d, n, fuel, mine[i]);
        return None;
      }
      var out := Discover(nodes, edges, next, d, fuel - 1);
      if out.None? {
        BoundedBroken(edges, d, n, fuel, mine[i]);
        return None;
      }
      FoundExtend(edges, d, mine, i, found, out.value);
      found := found + out.value + [next];
      i := i + 1;
    }
    BoundedComplete(edges, d, n, mine, fuel);
    FoundComplete(edges, d, n, mine, found);
    r := Some(SortedDistinct(found));
  }

  /**
   * The map from every node id to the ids the node reaches toward `d`,
   * with a depth budget of the number of nodes; `None` when some traversal
   * runs out of budget.
   */
  method DiscoverAll(nodes: seq<Node>, edges: seq<Edge>, d: Direction)
    returns (r: Option<map<int, seq<int>>>)
    requires EndpointsExist(nodes, edges)
    ensures r.Some? <==> forall n :: n in nodes ==> Bounded(edges, d, n.id, |nodes|)
    ensures r.Some? ==> r.value.Keys == NodeIdSet(nodes)
    ensures r.Some? ==> forall x :: x in r.value ==> StrictlyIncreasing(r.value[x])
    ensures r.Some? ==> forall x, y :: x in r.value ==> (y in r.value[x] <==> Reaches(edges, d, x, y))
  {
    var m: map<int, seq<int>> := map[];
    for i := 0 to |nodes|
      invariant m.Keys == NodeIdSet(nodes[..i])
      invariant forall k :: 0 <= k < i ==> Bounded(edges, d, nodes[k].id, |nodes|)
      invariant forall x :: x in m ==> StrictlyIncreasing(m[x])
      invariant forall x, y :: x in m ==> (y in m[x] <==> Reaches(edges, d, x, y))
    {
      assert nodes[..i + 1] == nodes[..i] + [nodes[i]];
      var found := Discover(nodes, edges, nodes[i].id, d, |nodes|);
      if found.None? {
        return None;
      }
      m := m[nodes[i].id := found.value];
    }
    assert nodes[..|nodes|] == nodes;
    r := Some(m);
  }

  /** There are no more distinct node ids than nodes. */
  lemma {:induction false} NodeIdSetCard(nodes: seq<Node>)
    ensures |NodeIdSet(nodes)| <= |nodes|
  {
    if nodes != [] {
      var rest := nodes[1..];
      NodeIdSetCard(rest);
      assert NodeIdSet(nodes) == NodeIdSet(rest) + {nodes[0].id};
    }
  }

  /**
   * When every edge endpoint is a node id, the graph is acyclic exactly
   * when a depth budget of the number of nodes suffices for the traversal
   * from every node, in either direction.
   */
  lemma AcyclicIffBounded(nodes: seq<Node>, edges: seq<Edge>, d: Direction)
    requires EndpointsExist(nodes, edges)
    ensures Acyclic(edges) <==> forall n :: n in nodes ==> Bounded(edges, d, n.id, |nodes|)
  {
    EndpointsExistAsSubset(nodes, edges);
    if Acyclic(edges) {
      NodeIdSetCard(nodes);
      forall n | n in nodes ensures Bounded(edges, d, n.id, |nodes|) {
        AcyclicBounded(edges, d, n.id, NodeIdSet(nodes));
      }
    } else {
      var x :| Reaches(edges, FromDownstream, x, x);
      var c :| IsWalk(edges, FromDownstream, c) && |c| >= 2 && c[0] == x && c[|c| - 1] == x;
      WalkInEndpoints(edges, FromDownstream, c);
      assert x in NodeIdSet(nodes);
      var n :| n in nodes && n.id == x;
      if d == FromUpstream {
        ReachesReverse(edges, FromDownstream, x, x);
      }
      CycleUnbounded(edges, d, x, |nodes|);
    }
  }

  /**
   * The acyclicity check: the ancestors of every node are computed first,
   * then the descendants; running out of depth in either reports a cycle.
   */
  method ValidateAcyclic(nodes: seq<Node>, edges: seq<Edge>) returns (r: Outcome<ModelError>)
    requires EndpointsExist(nodes, edges)
    ensures r.Pass? <==> Acyclic(edges)
    ensures r.Fail? ==> r.error == CycleDetected
  {
    AcyclicIffBounded(nodes, edges, FromUpstream);
    AcyclicIffBounded(nodes, edges, FromDownstream);
    var upstream := DiscoverAll(nodes, edges, FromUpstream);
    if upstream.None? {
      return Fail(CycleDetected);
    }
    var downstream := DiscoverAll(nodes, edges, FromDownstream);
    if downstream.None? {
      return Fail(CycleDetected);
    }
    return Pass;
  }
}
