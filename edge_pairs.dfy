/**
 * The duplicate-edge check on the edge list: an edge repeating the
 * `(upstream, downstream)` pair of an earlier edge is a same-direction
 * duplicate; an edge whose reversed pair has already been seen (itself
 * included) is bidirectional.
 */
module EdgePairs {
  import opened Wrappers
  import opened Entities

  /** The two lists of a failed check, each in edge order. */
  datatype DuplicateEdges = DuplicateEdges(sameDirection: seq<IdName>, bidirectional: seq<IdName>)

  function Pair(e: Edge): (int, int) {
    (e.upstreamNodeId, e.downstreamNodeId)
  }

  function ReversedPair(e: Edge): (int, int) {
    (e.downstreamNodeId, e.upstreamNodeId)
  }

  function PairsOf(edges: seq<Edge>): set<(int, int)> {
    set e | e in edges :: Pair(e)
  }

  /** The edges, in order, whose pair an earlier edge already has. */
  function SameDirectionDuplicates(edges: seq<Edge>): seq<IdName> {
    if edges == [] then []
    else
      var init, e := edges[..|edges| - 1], edges[|edges| - 1];
      SameDirectionDuplicates(init) + (if Pair(e) in PairsOf(init) then [e.Key()] else [])
  }

  /** The edges, in order, whose reversed pair occurs at or before them. */
  function BidirectionalEdges(edges: seq<Edge>): seq<IdName> {
    if edges == [] then []
    else
      var init, e := edges[..|edges| - 1], edges[|edges| - 1];
      BidirectionalEdges(init) + (if ReversedPair(e) in PairsOf(edges) then [e.Key()] else [])
  }

  lemma PairsOfSnoc(edges: seq<Edge>, i: nat)
    requires i < |edges|
    ensures PairsOf(edges[..i + 1]) == PairsOf(edges[..i]) + {Pair(edges[i])}
  {
    assert edges[..i + 1] == edges[..i] + [edges[i]];
  }

  /** A listed same-direction duplicate is some edge with an earlier edge of the same pair, and conversely. */
  lemma SameDirectionDuplicatesExact(edges: seq<Edge>, x: IdName)
    ensures x in SameDirectionDuplicates(edges) <==>
            exists i, j :: 0 <= j < i < |edges| && edges[i].Key() == x && Pair(edges[j]) == Pair(edges[i])
  {
    if x in SameDirectionDuplicates(edges) {
      SameDirectionDuplicatesSound(edges, x);
    }
    if exists i, j :: 0 <= j < i < |edges| && edges[i].Key() == x && Pair(edges[j]) == Pair(edges[i]) {
      var i, j :| 0 <= j < i < |edges| && edges[i].Key() == x && Pair(edges[j]) == Pair(edges[i]);
      SameDirectionDuplicatesComplete(edges, i, j);
    }
  }

  lemma {:induction false} SameDirectionDuplicatesSound(edges: seq<Edge>, x: IdName)
    requires x in SameDirectionDuplicates(edges)
    ensures exists i, j :: 0 <= j < i < |edges| && edges[i].Key() == x && Pair(edges[j]) == Pair(edges[i])
  {
    var n := |edges| - 1;
    var init := edges[..n];
    if x in SameDirectionDuplicates(init) {
      SameDirectionDuplicatesSound(init, x);
      var i, j :| 0 <= j < i < |init| && init[i].Key() == x && Pair(init[j]) == Pair(init[i]);
      assert edges[i] == init[i] && edges[j] == init[j];
    } else {
      var e :| e in init && Pair(e) == Pair(edges[n]);
      var j :| 0 <= j < |init| && init[j] == e;
      assert edges[j] == init[j];
    }
  }

  lemma {:induction false} SameDirectionDuplicatesComplete(edges: seq<Edge>, i: nat, j: nat)
    requires j < i < |edges| && Pair(edges[j]) == Pair(edges[i])
    ensures edges[i].Key() in SameDirectionDuplicates(edges)
  {
    var n := |edges| - 1;
    var init := edges[..n];
    if i < n {
      assert init[i] == edges[i] && init[j] == edges[j];
      SameDirectionDuplicatesComplete(init, i, j);
    } else {
      assert edges[j] in init;
    }
  }

  /** A listed bidirectional edge is some edge whose reversed pair occurs at or before it, and conversely. */
  lemma BidirectionalEdgesExact(edges: seq<Edge>, x: IdName)
    ensures x in BidirectionalEdges(edges) <==>
            exists i, j :: 0 <= j <= i < |edges| && edges[i].Key() == x && Pair(edges[j]) == ReversedPair(edges[i])
  {
    if x in BidirectionalEdges(edges) {
      BidirectionalEdgesSound(edges, x);
    }
    if exists i, j :: 0 <= j <= i < |edges| && edges[i].Key() == x && Pair(edges[j]) == ReversedPair(edges[i]) {
      var i, j :| 0 <= j <= i < |edges| && edges[i].Key() == x && Pair(edges[j]) == ReversedPair(edges[i]);
      BidirectionalEdgesComplete(edges, i, j);
    }
  }

  lemma {:induction false} BidirectionalEdgesSound(edges: seq<Edge>, x: IdName)
    requires x in BidirectionalEdges(edges)
    ensures exists i, j :: 0 <= j <= i < |edges| && edges[i].Key() == x && Pair(edges[j]) == ReversedPair(edges[i])
  {
    var n := |edges| - 1;
    var init := edges[..n];
    if x in BidirectionalEdges(init) {
      BidirectionalEdgesSound(init, x);
      var i, j :| 0 <= j <= i < |init| && init[i].Key() == x && Pair(init[j]) == ReversedPair(init[i]);
      assert edges[i] == init[i] && edges[j] == init[j];
    } else {
      var e :| e in edges && Pair(e) == ReversedPair(edges[n]);
      var j :| 0 <= j < |edges| && edges[j] == e;
    }
  }

  lemma {:induction false} BidirectionalEdgesComplete(edges: seq<Edge>, i: nat, j: nat)
    requires j <= i < |edges| && Pair(edges[j]) == ReversedPair(edges[i])
    ensures edges[i].Key() in BidirectionalEdges(edges)
  {
    var n := |edges| - 1;
    var init := edges[..n];
    if i < n {
      assert init[i] == edges[i] && init[j] == edges[j];
      BidirectionalEdgesComplete(init, i, j);
    } else {
      assert edges[j] in edges;
    }
  }

  /** No two edges share a pair, and no edge's reversed pair is the pair of any edge. */
  ghost predicate NoDuplicatedPairs(edges: seq<Edge>) {
    && (forall i, j :: 0 <= j < i < |edges| ==> Pair(edges[j]) != Pair(edges[i]))
    && (forall i, j :: 0 <= i < |edges| && 0 <= j < |edges| ==> Pair(edges[j]) != ReversedPair(edges[i]))
  }

  /** The check reports nothing exactly when no pair repeats and no pair occurs reversed. */
  lemma NoDuplicatesIffDistinctPairs(edges: seq<Edge>)
    ensures SameDirectionDuplicates(edges) == [] && BidirectionalEdges(edges) == [] <==> NoDuplicatedPairs(edges)
  {
    if !NoDuplicatedPairs(edges) {
      if i, j :| 0 <= j < i < |edges| && Pair(edges[j]) == Pair(edges[i]) {
        SameDirectionDuplicatesExact(edges, edges[i].Key());
      } else {
        var i, j :| 0 <= i < |edges| && 0 <= j < |edges| && Pair(edges[j]) == ReversedPair(edges[i]);
        if j <= i {
          BidirectionalEdgesExact(edges, edges[i].Key());
        } else {
          assert Pair(edges[i]) == ReversedPair(edges[j]);
          BidirectionalEdgesExact(edges, edges[j].Key());
        }
      }
    } else {
      if SameDirectionDuplicates(edges) != [] {
        SameDirectionDuplicatesExact(edges, SameDirectionDuplicates(edges)[0]);
      }
      if BidirectionalEdges(edges) != [] {
        BidirectionalEdgesExact(edges, BidirectionalEdges(edges)[0]);
      }
    }
  }

  /** Without self-loops, only the later edge of a reversed pair is listed as bidirectional. */
  lemma OnlyLaterOfReversedPair(edges: seq<Edge>, x: IdName)
    requires forall e :: e in edges ==> e.upstreamNodeId != e.downstreamNodeId
    ensures x in BidirectionalEdges(edges) <==>
            exists i, j :: 0 <= j < i < |edges| && edges[i].Key() == x && Pair(edges[j]) == ReversedPair(edges[i])
  {
    BidirectionalEdgesExact(edges, x);
    if x in BidirectionalEdges(edges) {
      var i, j :| 0 <= j <= i < |edges| && edges[i].Key() == x && Pair(edges[j]) == ReversedPair(edges[i]);
      assert edges[i] in edges;
    }
  }

  /**
   * The duplicate-edge check: walks the edges once, remembering the pairs seen
   * so far, and fails with both lists when either is non-empty.
   */
  method ValidateNoDupedEdges(edges: seq<Edge>) returns (r: Outcome<DuplicateEdges>)
    ensures r.Pass? <==> NoDuplicatedPairs(edges)
    ensures r.Fail? ==> r.error == DuplicateEdges(SameDirectionDuplicates(edges), BidirectionalEdges(edges))
  {
    // The source keeps a dictionary from pair to edges; only its keys are ever read.
    var seen: set<(int, int)> := {};
    var duplicateSameDirection: seq<IdName> := [];
    var bidirectional: seq<IdName> := [];
    for i := 0 to |edges|
      invariant seen == PairsOf(edges[..i])
      invariant duplicateSameDirection == SameDirectionDuplicates(edges[..i])
      invariant bidirectional == BidirectionalEdges(edges[..i])
    {
      var edge := edges[i];
      var edgeTuple := (edge.upstreamNodeId, edge.downstreamNodeId);
      var reverseTuple := (edge.downstreamNodeId, edge.upstreamNodeId);
      assert edges[..i + 1][..i] == edges[..i];
      PairsOfSnoc(edges, i);
      if edgeTuple in seen {
        duplicateSameDirection := duplicateSameDirection + [edge.Key()];
      }
      seen := seen + {edgeTuple};
      if reverseTuple in seen {
        bidirectional := bidirectional + [edge.Key()];
      }
    }
    assert edges[..|edges|] == edges;
    NoDuplicatesIffDistinctPairs(edges);
    if duplicateSameDirection != [] || bidirectional != [] {
      r := Fail(DuplicateEdges(duplicateSameDirection, bidirectional));
    } else {
      r := Pass;
    }
  }
}
