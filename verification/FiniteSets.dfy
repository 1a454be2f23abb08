/** Sizes of finite sets: integer ranges, differences, tagged and paired copies, disjoint unions. */
module FiniteSets {
  ghost function Range(lo: int, hi: int): (s: set<int>)
    requires lo <= hi
    ensures forall x :: x in s <==> lo <= x < hi
    ensures |s| == hi - lo
    decreases hi - lo
  {
    if lo == hi then {} else Range(lo, hi - 1) + {hi - 1}
  }

  lemma Without(all: set<int>, removed: set<int>)
    requires removed <= all
    ensures |all - removed| == |all| - |removed|
  {
    assert all == (all - removed) + removed;
  }

  ghost function Tagged<T>(xs: set<T>, a: int, b: int): set<(int, int, T)> {
    set x | x in xs :: (a, b, x)
  }

  lemma {:induction false} TaggedSize<T>(xs: set<T>, a: int, b: int)
    ensures |Tagged(xs, a, b)| == |xs|
  {
    if xs == {} {
      assert Tagged(xs, a, b) == {};
    } else {
      var x :| x in xs;
      TaggedSize(xs - {x}, a, b);
      assert Tagged(xs, a, b) == Tagged(xs - {x}, a, b) + {(a, b, x)};
    }
  }

  ghost function Paired<T>(xs: set<T>, k: int): set<(T, int)> { set x | x in xs :: (x, k) }

  lemma {:induction false} PairedSize<T>(xs: set<T>, k: int)
    ensures |Paired(xs, k)| == |xs|
  {
    if xs == {} {
      assert Paired(xs, k) == {};
    } else {
      var x :| x in xs;
      PairedSize(xs - {x}, k);
      assert Paired(xs, k) == Paired(xs - {x}, k) + {(x, k)};
    }
  }

  lemma UnionSize<T>(all: set<T>, a: set<T>, b: set<T>)
    requires (forall x :: x in all <==> x in a || x in b) && forall x :: x in a ==> x !in b
    ensures |all| == |a| + |b|
  {
    assert all == a + b && a !! b;
  }

  ghost function UnionAll<T>(sets: seq<set<T>>): set<T> {
    if sets == [] then {} else UnionAll(sets[..|sets|-1]) + sets[|sets|-1]
  }

  ghost function SizeSum<T>(sets: seq<set<T>>): int {
    if sets == [] then 0 else SizeSum(sets[..|sets|-1]) + |sets[|sets|-1]|
  }

  lemma SizeSumAppend<T>(sets: seq<set<T>>, last: set<T>)
    ensures SizeSum(sets + [last]) == SizeSum(sets) + |last|
  {
    assert (sets + [last])[..|sets|] == sets;
  }

  lemma {:induction false} InUnion<T>(sets: seq<set<T>>, x: T)
    ensures x in UnionAll(sets) <==> exists k :: 0 <= k < |sets| && x in sets[k]
  {
    if sets != [] {
      var rest := sets[..|sets|-1];
      InUnion(rest, x);
      if k :| 0 <= k < |sets| && x in sets[k] {
        if k < |rest| { assert x in rest[k]; }
      }
      if x in UnionAll(rest) {
        var k :| 0 <= k < |rest| && x in rest[k];
        assert x in sets[k];
      }
    }
  }

  lemma {:induction false} DisjointUnionSize<T>(sets: seq<set<T>>)
    requires forall i, k :: 0 <= i < k < |sets| ==> sets[i] !! sets[k]
    ensures |UnionAll(sets)| == SizeSum(sets)
  {
    if sets != [] {
      var rest, last := sets[..|sets|-1], sets[|sets|-1];
      DisjointUnionSize(rest);
      forall x | x in last ensures x !in UnionAll(rest) {
        InUnion(rest, x);
      }
    }
  }
}
