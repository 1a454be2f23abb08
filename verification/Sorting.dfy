/** Insertion sort over an arbitrary total preorder: what a library sort promises. */
module Sorting {
  ghost predicate TotalPreorder<T(!new)>(le: (T, T) -> bool) {
    && (forall x, y :: le(x, y) || le(y, x))
    && (forall x, y, z :: le(x, y) && le(y, z) ==> le(x, z))
  }

  ghost predicate SortedBy<T>(xs: seq<T>, le: (T, T) -> bool) {
    forall i, k :: 0 <= i < k < |xs| ==> le(xs[i], xs[k])
  }

  function Insert<T>(x: T, xs: seq<T>, le: (T, T) -> bool): (ys: seq<T>) {
    if xs == [] || le(x, xs[0]) then [x] + xs else [xs[0]] + Insert(x, xs[1..], le)
  }

  function Sort<T>(xs: seq<T>, le: (T, T) -> bool): seq<T> {
    if xs == [] then [] else Insert(xs[0], Sort(xs[1..], le), le)
  }

  lemma {:induction false} InsertPermutes<T>(x: T, xs: seq<T>, le: (T, T) -> bool)
    ensures multiset(Insert(x, xs, le)) == multiset(xs) + multiset{x}
  {
    if !(xs == [] || le(x, xs[0])) {
      InsertPermutes(x, xs[1..], le);
      assert xs == [xs[0]] + xs[1..];
    }
  }

  lemma {:induction false} InsertSorted<T(!new)>(x: T, xs: seq<T>, le: (T, T) -> bool)
    requires TotalPreorder(le) && SortedBy(xs, le)
    ensures SortedBy(Insert(x, xs, le), le)
  {
    if xs != [] {
      if le(x, xs[0]) {
        forall k | 0 <= k < |xs| ensures le(x, xs[k]) {
          if k > 0 { assert le(xs[0], xs[k]); }
        }
      } else {
        var rest := Insert(x, xs[1..], le);
        InsertSorted(x, xs[1..], le);
        InsertPermutes(x, xs[1..], le);
        forall k | 0 <= k < |rest| ensures le(xs[0], rest[k]) {
          assert rest[k] in multiset(rest);
          if rest[k] != x { assert rest[k] in xs[1..]; }
        }
      }
    }
  }

  lemma {:induction false} SortSorts<T(!new)>(xs: seq<T>, le: (T, T) -> bool)
    requires TotalPreorder(le)
    ensures SortedBy(Sort(xs, le), le) && multiset(Sort(xs, le)) == multiset(xs)
  {
    if xs != [] {
      SortSorts(xs[1..], le);
      InsertSorted(xs[0], Sort(xs[1..], le), le);
      InsertPermutes(xs[0], Sort(xs[1..], le), le);
      assert xs == [xs[0]] + xs[1..];
    }
  }

  lemma PermutationMembers<T>(xs: seq<T>, ys: seq<T>)
    requires multiset(xs) == multiset(ys)
    ensures |xs| == |ys|
    ensures forall x :: x in xs <==> x in ys
  {
    assert |multiset(xs)| == |multiset(ys)|;
    forall x ensures x in xs <==> x in ys {
      assert x in xs <==> x in multiset(xs);
      assert x in ys <==> x in multiset(ys);
    }
  }

  /** Taking the same element out of two permutations leaves permutations. */
  lemma WithoutOne<T>(rest: seq<T>, x: T, before: seq<T>, after: seq<T>)
    requires multiset(rest + [x]) == multiset(before + [x] + after)
    ensures multiset(rest) == multiset(before + after)
  {
    var whole, other := multiset(rest + [x]), multiset(before + [x] + after);
    assert whole - multiset{x} == multiset(rest);
    assert other - multiset{x} == multiset(before + after);
  }
}
