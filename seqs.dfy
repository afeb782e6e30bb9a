/**
 * Sequence helpers standing for the Python list idioms the graph code uses:
 * list comprehensions with a condition, `sorted(...)`, `sorted(set(...))`
 * and `{key(x): x for x in xs}`.
 */
module Seqs {

  /** The elements of `s` that satisfy `p`, kept in their order in `s`. */
  function Filter<T>(s: seq<T>, p: T -> bool): (r: seq<T>)
    ensures |r| <= |s|
    ensures forall x :: x in r ==> x in s && p(x)
    ensures forall x :: x in s && p(x) ==> x in r
  {
    if s == [] then []
    else Filter(s[..|s| - 1], p) + (if p(s[|s| - 1]) then [s[|s| - 1]] else [])
  }

  /** At least two kept elements exactly when two positions satisfy `p`. */
  lemma {:induction false} FilterHasTwo<T>(s: seq<T>, p: T -> bool)
    ensures |Filter(s, p)| >= 2 <==> exists i, j :: 0 <= i < j < |s| && p(s[i]) && p(s[j])
  {
    if s != [] {
      var s' := s[..|s| - 1];
      var n := |s| - 1;
      FilterHasTwo(s', p);
      if |Filter(s, p)| >= 2 {
        if p(s[n]) {
          assert |Filter(s', p)| >= 1;
          var x := Filter(s', p)[0];
          assert x in s';
          var i :| 0 <= i < |s'| && s'[i] == x;
          assert p(s[i]) && p(s[n]);
        } else {
          var i, j :| 0 <= i < j < |s'| && p(s'[i]) && p(s'[j]);
          assert p(s[i]) && p(s[j]);
        }
      }
      if exists i, j :: 0 <= i < j < |s| && p(s[i]) && p(s[j]) {
        var i, j :| 0 <= i < j < |s| && p(s[i]) && p(s[j]);
        if j == n {
          assert s[i] == s'[i] && s[i] in Filter(s', p);
        } else {
          assert s'[i] == s[i] && s'[j] == s[j];
        }
      }
    }
  }

  predicate Sorted(s: seq<int>) {
    forall i, j :: 0 <= i < j < |s| ==> s[i] <= s[j]
  }

  predicate StrictlyIncreasing(s: seq<int>) {
    forall i, j :: 0 <= i < j < |s| ==> s[i] < s[j]
  }

  /** Inserts `x` into the sorted sequence `s` at its place. */
  function Insert(x: int, s: seq<int>): (r: seq<int>)
    requires Sorted(s)
    ensures Sorted(r)
    ensures multiset(r) == multiset(s) + multiset{x}
  {
    if s == [] then [x]
    else if x <= s[0] then [x] + s
    else
      var t := Insert(x, s[1..]);
      assert s == [s[0]] + s[1..];
      InsertLowerBound(s[0], x, s[1..], t);
      [s[0]] + t
  }

  /** Every element of an insertion result comes from the inputs, so shares their lower bound. */
  lemma InsertLowerBound(b: int, x: int, s: seq<int>, t: seq<int>)
    requires b <= x && forall y :: y in s ==> b <= y
    requires multiset(t) == multiset(s) + multiset{x}
    ensures forall k :: 0 <= k < |t| ==> b <= t[k]
  {
    forall k | 0 <= k < |t| ensures b <= t[k] {
      assert t[k] in multiset(t);
      assert t[k] in multiset(s) || t[k] == x;
      if t[k] in multiset(s) {
        assert t[k] in s;
      }
    }
  }

  /** Python's `sorted(xs)` on integers: the same elements, ascending. */
  function Sort(xs: seq<int>): (r: seq<int>)
    ensures Sorted(r)
    ensures multiset(r) == multiset(xs)
  {
    if xs == [] then []
    else
      assert xs == [xs[0]] + xs[1..];
      Insert(xs[0], Sort(xs[1..]))
  }

  /** Drops repeated values from a sorted sequence. */
  function Dedup(s: seq<int>): (r: seq<int>)
    requires Sorted(s)
    ensures StrictlyIncreasing(r)
    ensures forall x :: x in r <==> x in s
  {
    if |s| <= 1 then s
    else if s[0] == s[1] then Dedup(s[1..])
    else
      var t := Dedup(s[1..]);
      assert forall k :: 1 <= k < |s| ==> s[0] < s[1] <= s[k];
      assert forall y :: y in t ==> y in s[1..] && s[0] < y;
      assert s == [s[0]] + s[1..];
      var r := [s[0]] + t;
      forall i, j | 0 <= i < j < |r| ensures r[i] < r[j] {
        assert r[j] == t[j - 1] && t[j - 1] in t;
        if i > 0 {
          assert r[i] == t[i - 1];
        }
      }
      assert forall x :: x in r <==> x in s;
      r
  }

  /** Python's `sorted(set(xs))`: the distinct values of `xs`, ascending. */
  function SortedDistinct(xs: seq<int>): (r: seq<int>)
    ensures StrictlyIncreasing(r)
    ensures forall x :: x in r <==> x in xs
  {
    var s := Sort(xs);
    assert forall x :: x in s <==> x in multiset(xs);
    Dedup(s)
  }

  /** A sorted rearrangement is unique: `sorted` does not depend on input order. */
  lemma {:induction false} SortedPermutationsEqual(a: seq<int>, b: seq<int>)
    requires Sorted(a) && Sorted(b)
    requires multiset(a) == multiset(b)
    ensures a == b
  {
    assert |a| == |multiset(a)| == |multiset(b)| == |b|;
    if a != [] {
      SortedHeadsEqual(a, b);
      var a', b' := a[1..], b[1..];
      assert a == [a[0]] + a' && b == [b[0]] + b';
      assert multiset(a') == multiset(a) - multiset{a[0]};
      assert multiset(b') == multiset(b) - multiset{b[0]};
      SortedPermutationsEqual(a', b');
    }
  }

  /** Two sorted rearrangements of one multiset start with its least element. */
  lemma SortedHeadsEqual(a: seq<int>, b: seq<int>)
    requires Sorted(a) && Sorted(b) && a != [] && b != []
    requires multiset(a) == multiset(b)
    ensures a[0] == b[0]
  {
    assert a[0] in multiset(b);
    var i :| 0 <= i < |b| && b[i] == a[0];
    assert b[0] in multiset(a);
    var j :| 0 <= j < |a| && a[j] == b[0];
    assert b[0] <= b[i] && a[0] <= a[j];
  }

  /** Python's `{key(x): x for x in s}`: a later element overwrites an earlier one with the same key. */
  function ToMap<T>(s: seq<T>, key: T -> int): (m: map<int, T>)
    ensures m.Keys == set x | x in s :: key(x)
    ensures forall k :: k in m ==> m[k] in s && key(m[k]) == k
  {
    if s == [] then map[]
    else
      var s' := s[..|s| - 1];
      var x := s[|s| - 1];
      assert s == s' + [x];
      ToMap(s', key)[key(x) := x]
  }

  /** An element with no later element of the same key is the one stored under its key. */
  lemma {:induction false} ToMapLastWins<T>(s: seq<T>, key: T -> int, i: nat)
    requires i < |s| && forall j :: i < j < |s| ==> key(s[j]) != key(s[i])
    ensures key(s[i]) in ToMap(s, key) && ToMap(s, key)[key(s[i])] == s[i]
    decreases |s|
  {
    var s' := s[..|s| - 1];
    if i < |s| - 1 {
      assert key(s[|s| - 1]) != key(s[i]);
      ToMapLastWins(s', key, i);
    }
  }

  predicate Distinct<T(==)>(s: seq<T>) {
    forall i, j :: 0 <= i < j < |s| ==> s[i] != s[j]
  }

  /** A sequence without repeats has as many distinct elements as positions. */
  lemma {:induction false} DistinctCard<T>(s: seq<T>)
    requires Distinct(s)
    ensures |set x | x in s| == |s|
  {
    if s != [] {
      var s' := s[1..];
      assert Distinct(s');
      DistinctCard(s');
      assert (set x | x in s) == (set x | x in s') + {s[0]};
      assert s[0] !in (set x | x in s');
    }
  }

  /** A subset is no larger than its superset. */
  lemma {:induction false} SubsetCard<T>(a: set<T>, b: set<T>)
    requires a <= b
    ensures |a| <= |b|
    decreases b
  {
    if a != {} {
      var x :| x in a;
      SubsetCard(a - {x}, b - {x});
    }
  }

  /** The integer key of every element, position by position. */
  function MapInt<T>(s: seq<T>, f: T -> int): (r: seq<int>)
    ensures |r| == |s| && forall i :: 0 <= i < |s| ==> r[i] == f(s[i])
  {
    seq(|s|, i requires 0 <= i < |s| => f(s[i]))
  }

  lemma MapIntAppend<T>(a: seq<T>, b: seq<T>, f: T -> int)
    ensures MapInt(a + b, f) == MapInt(a, f) + MapInt(b, f)
  {
  }

  lemma RemoveAtMultiset<T>(b: seq<T>, j: nat)
    requires j < |b|
    ensures multiset(b) == multiset(b[..j] + b[j + 1..]) + multiset{b[j]}
  {
    assert b == b[..j] + [b[j]] + b[j + 1..];
  }

  lemma MapIntRemoveAt<T>(b: seq<T>, j: nat, f: T -> int)
    requires j < |b|
    ensures multiset(MapInt(b, f)) == multiset(MapInt(b[..j] + b[j + 1..], f)) + multiset{f(b[j])}
  {
    assert b == b[..j] + [b[j]] + b[j + 1..];
    MapIntAppend(b[..j] + [b[j]], b[j + 1..], f);
    MapIntAppend(b[..j], [b[j]], f);
    MapIntAppend(b[..j], b[j + 1..], f);
  }

  lemma MultisetCancel<T>(p: multiset<T>, q: multiset<T>, x: T)
    requires p + multiset{x} == q + multiset{x}
    ensures p == q
  {
    forall y ensures p[y] == q[y] {
      assert (p + multiset{x})[y] == (q + multiset{x})[y];
    }
  }

  /** Reordering a sequence reorders its keys the same way. */
  lemma {:induction false} MapIntPermutation<T>(a: seq<T>, b: seq<T>, f: T -> int)
    requires multiset(a) == multiset(b)
    ensures multiset(MapInt(a, f)) == multiset(MapInt(b, f))
    decreases |a|
  {
    if a == [] {
      assert |b| == |multiset(b)| == 0;
    } else {
      var x := a[0];
      assert x in multiset(b);
      var j :| 0 <= j < |b| && b[j] == x;
      var b' := b[..j] + b[j + 1..];
      RemoveAtMultiset(a, 0);
      RemoveAtMultiset(b, j);
      assert a[..0] + a[1..] == a[1..];
      MultisetCancel(multiset(a[1..]), multiset(b'), x);
      MapIntPermutation(a[1..], b', f);
      MapIntRemoveAt(a, 0, f);
      MapIntRemoveAt(b, j, f);
      calc {
        multiset(MapInt(a, f));
        multiset(MapInt(a[1..], f)) + multiset{f(x)};
        multiset(MapInt(b', f)) + multiset{f(x)};
        multiset(MapInt(b, f));
      }
    }
  }
}
