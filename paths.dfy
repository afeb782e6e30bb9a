/**
 * Reachability over the edges of a graph, walking toward one end of the
 * edges: toward upstream (from a node to the nodes it pulls from) or toward
 * downstream. A graph is acyclic when no node reaches itself.
 */
module Paths {
  import opened Seqs
  import opened Entities

  /** Edge `e` leads from node `x` to node `y` when walking toward end `d`. */
  predicate Step(e: Edge, d: Direction, x: int, y: int) {
    e.Endpoint(d.Opposite()) == x && e.Endpoint(d) == y
  }

  ghost predicate Linked(edges: seq<Edge>, d: Direction, x: int, y: int) {
    exists e :: e in edges && Step(e, d, x, y)
  }

  /** A walk toward `d`: a non-empty sequence of node ids, each linked to the next. */
  ghost predicate IsWalk(edges: seq<Edge>, d: Direction, w: seq<int>) {
    |w| >= 1 && forall i :: 0 <= i < |w| - 1 ==> Linked(edges, d, w[i], w[i + 1])
  }

  /** `y` is reached from `x` toward `d` by a walk of at least one edge. */
  ghost predicate Reaches(edges: seq<Edge>, d: Direction, x: int, y: int) {
    exists w :: IsWalk(edges, d, w) && |w| >= 2 && w[0] == x && w[|w| - 1] == y
  }

  /** No node reaches itself along the edges. */
  ghost predicate Acyclic(edges: seq<Edge>) {
    forall x :: !Reaches(edges, FromDownstream, x, x)
  }

  /** Every walk toward `d` that starts at `x` has at most `f` edges. */
  ghost predicate Bounded(edges: seq<Edge>, d: Direction, x: int, f: nat) {
    forall w :: IsWalk(edges, d, w) && w[0] == x ==> |w| - 1 <= f
  }

  lemma OppositeOpposite(d: Direction)
    ensures d.Opposite().Opposite() == d
  {
  }

  lemma WalkAppend(edges: seq<Edge>, d: Direction, a: seq<int>, b: seq<int>)
    requires IsWalk(edges, d, a) && IsWalk(edges, d, b) && a[|a| - 1] == b[0]
    ensures IsWalk(edges, d, a + b[1..])
  {
    var w := a + b[1..];
    forall i | 0 <= i < |w| - 1 ensures Linked(edges, d, w[i], w[i + 1]) {
      if i < |a| - 1 {
        assert w[i] == a[i] && w[i + 1] == a[i + 1];
      } else {
        var k := i - |a| + 1;
        assert w[i] == b[k] && w[i + 1] == b[k + 1];
      }
    }
  }

  lemma WalkSlice(edges: seq<Edge>, d: Direction, w: seq<int>, i: nat, j: nat)
    requires IsWalk(edges, d, w) && i <= j < |w|
    ensures IsWalk(edges, d, w[i..j + 1])
  {
    var v := w[i..j + 1];
    forall k | 0 <= k < |v| - 1 ensures Linked(edges, d, v[k], v[k + 1]) {
      assert v[k] == w[i + k] && v[k + 1] == w[i + k + 1];
    }
  }

  /** Reachability unfolds at its first edge. */
  lemma ReachesStep(edges: seq<Edge>, d: Direction, x: int, y: int)
    ensures Reaches(edges, d, x, y) <==>
            exists e :: e in edges && e.Endpoint(d.Opposite()) == x &&
                        (e.Endpoint(d) == y || Reaches(edges, d, e.Endpoint(d), y))
  {
    if Reaches(edges, d, x, y) {
      var w :| IsWalk(edges, d, w) && |w| >= 2 && w[0] == x && w[|w| - 1] == y;
      assert Linked(edges, d, w[0], w[1]);
      var e :| e in edges && Step(e, d, w[0], w[1]);
      if |w| > 2 {
        WalkSlice(edges, d, w, 1, |w| - 1);
        assert w[1..|w|] == w[1..];
        assert Reaches(edges, d, e.Endpoint(d), y);
      }
    }
    if exists e :: e in edges && e.Endpoint(d.Opposite()) == x &&
                   (e.Endpoint(d) == y || Reaches(edges, d, e.Endpoint(d), y)) {
      var e :| e in edges && e.Endpoint(d.Opposite()) == x &&
               (e.Endpoint(d) == y || Reaches(edges, d, e.Endpoint(d), y));
      var z := e.Endpoint(d);
      assert Step(e, d, x, z);
      var first := [x, z];
      assert IsWalk(edges, d, first);
      if z != y {
        var w :| IsWalk(edges, d, w) && |w| >= 2 && w[0] == z && w[|w| - 1] == y;
        WalkAppend(edges, d, first, w);
        assert (first + w[1..])[0] == x;
      }
    }
  }

  /** The depth bound of a node is one more than the bounds of the nodes it steps to. */
  lemma BoundedStep(edges: seq<Edge>, d: Direction, x: int, f: nat)
    ensures Bounded(edges, d, x, f) <==>
            forall e :: e in edges && e.Endpoint(d.Opposite()) == x ==>
                          f > 0 && Bounded(edges, d, e.Endpoint(d), f - 1)
  {
    if Bounded(edges, d, x, f) {
      forall e | e in edges && e.Endpoint(d.Opposite()) == x
        ensures f > 0 && Bounded(edges, d, e.Endpoint(d), f - 1)
      {
        var z := e.Endpoint(d);
        assert Step(e, d, x, z);
        var first := [x, z];
        assert IsWalk(edges, d, first);
        forall w | IsWalk(edges, d, w) && w[0] == z ensures |w| - 1 <= f - 1 {
          WalkAppend(edges, d, first, w);
          assert (first + w[1..])[0] == x;
        }
      }
    } else {
      var w :| IsWalk(edges, d, w) && w[0] == x && |w| - 1 > f;
      assert Linked(edges, d, w[0], w[1]);
      var e :| e in edges && Step(e, d, w[0], w[1]);
      if f > 0 {
        WalkSlice(edges, d, w, 1, |w| - 1);
        assert w[1..|w|][0] == e.Endpoint(d);
      }
    }
  }

  function Reverse(s: seq<int>): (r: seq<int>)
    ensures |r| == |s| && forall i :: 0 <= i < |s| ==> r[i] == s[|s| - 1 - i]
  {
    seq(|s|, i requires 0 <= i < |s| => s[|s| - 1 - i])
  }

  lemma WalkReverse(edges: seq<Edge>, d: Direction, w: seq<int>)
    requires IsWalk(edges, d, w)
    ensures IsWalk(edges, d.Opposite(), Reverse(w))
  {
    var r := Reverse(w);
    var n := |w|;
    OppositeOpposite(d);
    forall i | 0 <= i < n - 1 ensures Linked(edges, d.Opposite(), r[i], r[i + 1]) {
      var k := n - 2 - i;
      assert Linked(edges, d, w[k], w[k + 1]);
      var e :| e in edges && Step(e, d, w[k], w[k + 1]);
      assert r[i] == w[k + 1] && r[i + 1] == w[k];
      assert Step(e, d.Opposite(), r[i], r[i + 1]);
    }
  }

  /** `x` reaches `y` walking toward one end exactly when `y` reaches `x` walking toward the other. */
  lemma ReachesReverse(edges: seq<Edge>, d: Direction, x: int, y: int)
    ensures Reaches(edges, d, x, y) <==> Reaches(edges, d.Opposite(), y, x)
  {
    OppositeOpposite(d);
    if Reaches(edges, d, x, y) {
      var w :| IsWalk(edges, d, w) && |w| >= 2 && w[0] == x && w[|w| - 1] == y;
      WalkReverse(edges, d, w);
    }
    if Reaches(edges, d.Opposite(), y, x) {
      var w :| IsWalk(edges, d.Opposite(), w) && |w| >= 2 && w[0] == y && w[|w| - 1] == x;
      WalkReverse(edges, d.Opposite(), w);
    }
  }

  /** Going round a cycle `k` times gives a walk of at least `k` edges. */
  lemma {:induction false} Pump(edges: seq<Edge>, d: Direction, x: int, c: seq<int>, k: nat)
    requires IsWalk(edges, d, c) && |c| >= 2 && c[0] == x && c[|c| - 1] == x
    ensures exists w :: IsWalk(edges, d, w) && w[0] == x && w[|w| - 1] == x && |w| - 1 >= k
  {
    if k == 0 {
      assert IsWalk(edges, d, [x]);
    } else {
      Pump(edges, d, x, c, k - 1);
      var w :| IsWalk(edges, d, w) && w[0] == x && w[|w| - 1] == x && |w| - 1 >= k - 1;
      WalkAppend(edges, d, w, c);
      var v := w + c[1..];
      assert v[0] == x && v[|v| - 1] == x;
    }
  }

  /** A node on a cycle has walks of every length: no depth bound holds for it. */
  lemma CycleUnbounded(edges: seq<Edge>, d: Direction, x: int, f: nat)
    requires Reaches(edges, d, x, x)
    ensures !Bounded(edges, d, x, f)
  {
    var c :| IsWalk(edges, d, c) && |c| >= 2 && c[0] == x && c[|c| - 1] == x;
    Pump(edges, d, x, c, f + 1);
  }

  /** In an acyclic graph no node repeats along a walk, in either direction. */
  lemma AcyclicWalkDistinct(edges: seq<Edge>, d: Direction, w: seq<int>)
    requires Acyclic(edges) && IsWalk(edges, d, w)
    ensures Distinct(w)
  {
    forall i, j | 0 <= i < j < |w| ensures w[i] != w[j] {
      if w[i] == w[j] {
        WalkSlice(edges, d, w, i, j);
        var c := w[i..j + 1];
        assert c[0] == w[i] && c[|c| - 1] == w[j];
        assert Reaches(edges, d, w[i], w[i]);
        if d == FromUpstream {
          ReachesReverse(edges, d, w[i], w[i]);
        }
        assert false;
      }
    }
  }

  /** Every node of a walk with at least one edge is an endpoint of some edge. */
  lemma WalkInEndpoints(edges: seq<Edge>, d: Direction, w: seq<int>)
    requires IsWalk(edges, d, w) && |w| >= 2
    ensures forall k :: 0 <= k < |w| ==> w[k] in Endpoints(edges)
  {
    forall k | 0 <= k < |w| ensures w[k] in Endpoints(edges) {
      if k < |w| - 1 {
        assert Linked(edges, d, w[k], w[k + 1]);
        var e :| e in edges && Step(e, d, w[k], w[k + 1]);
        assert e.Endpoint(d.Opposite()) == w[k];
      } else {
        assert Linked(edges, d, w[k - 1], w[k]);
        var e :| e in edges && Step(e, d, w[k - 1], w[k]);
        assert e.Endpoint(d) == w[k];
      }
    }
  }

  /** When every endpoint is in `ids`, walks of an acyclic graph have at most `|ids|` edges. */
  lemma AcyclicBounded(edges: seq<Edge>, d: Direction, x: int, ids: set<int>)
    requires Acyclic(edges) && Endpoints(edges) <= ids
    ensures Bounded(edges, d, x, |ids|)
  {
    forall w | IsWalk(edges, d, w) && w[0] == x ensures |w| - 1 <= |ids| {
      if |w| >= 2 {
        AcyclicWalkDistinct(edges, d, w);
        DistinctCard(w);
        WalkInEndpoints(edges, d, w);
        var members := set v | v in w;
        assert members <= ids;
        SubsetCard(members, ids);
      }
    }
  }
}
