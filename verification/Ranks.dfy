/** Average ranks with ties: what the rank of a value is, and that ranking conserves the sum. */
module Ranks {
  import opened Sorting
  import opened Sequences

  function Less(values: seq<real>, v: real): nat {
    if values == [] then 0 else Less(values[..|values|-1], v) + if values[|values|-1] < v then 1 else 0
  }

  function Equal(values: seq<real>, v: real): nat {
    if values == [] then 0 else Equal(values[..|values|-1], v) + if values[|values|-1] == v then 1 else 0
  }

  /** The middle of the ranks that the equal values share. */
  function MidRank(values: seq<real>, v: real): real {
    Less(values, v) as real + (Equal(values, v) + 1) as real / 2.0
  }

  predicate Before(x: (real, nat), y: (real, nat)) { x.0 < y.0 || (x.0 == y.0 && x.1 <= y.1) }

  function Indexed(values: seq<real>): (pairs: seq<(real, nat)>)
    ensures |pairs| == |values| && forall i :: 0 <= i < |pairs| ==> pairs[i] == (values[i], i)
  {
    seq(|values|, i requires 0 <= i < |values| => (values[i], i))
  }

  function Firsts(pairs: seq<(real, nat)>): (values: seq<real>)
    ensures |values| == |pairs| && forall i :: 0 <= i < |values| ==> values[i] == pairs[i].0
  {
    seq(|pairs|, i requires 0 <= i < |pairs| => pairs[i].0)
  }

  /// ---------------------------------------------------------------- counts do not depend on order

  lemma {:induction false} CountsJoin(x: seq<real>, y: seq<real>, v: real)
    ensures Less(x + y, v) == Less(x, v) + Less(y, v)
    ensures Equal(x + y, v) == Equal(x, v) + Equal(y, v)
  {
    if y == [] {
      assert x + y == x;
    } else {
      assert (x + y)[..|x + y|-1] == x + y[..|y|-1];
      CountsJoin(x, y[..|y|-1], v);
    }
  }

  lemma CountsAppend(x: seq<real>, n: real, v: real)
    ensures Less(x + [n], v) == Less(x, v) + if n < v then 1 else 0
    ensures Equal(x + [n], v) == Equal(x, v) + if n == v then 1 else 0
  {
    assert (x + [n])[..|x|] == x;
  }

  lemma CountsInsert(before: seq<real>, n: real, after: seq<real>, v: real)
    ensures Less(before + [n] + after, v) == Less(before + after, v) + if n < v then 1 else 0
    ensures Equal(before + [n] + after, v) == Equal(before + after, v) + if n == v then 1 else 0
  {
    CountsAppend(before, n, v);
    CountsJoin(before + [n], after, v);
    CountsJoin(before, after, v);
  }

  lemma {:induction false} CountsPermute(x: seq<real>, y: seq<real>, v: real)
    requires multiset(x) == multiset(y)
    ensures Less(x, v) == Less(y, v) && Equal(x, v) == Equal(y, v)
  {
    PermutationMembers(x, y);
    if x != [] {
      var rest, n := x[..|x|-1], x[|x|-1];
      assert n in y;
      var i :| 0 <= i < |y| && y[i] == n;
      assert x == rest + [n] && y == y[..i] + [n] + y[i+1..];
      WithoutOne(rest, n, y[..i], y[i+1..]);
      CountsPermute(rest, y[..i] + y[i+1..], v);
      CountsInsert(y[..i], n, y[i+1..], v);
    }
  }

  lemma FirstsInsert(before: seq<(real, nat)>, pair: (real, nat), after: seq<(real, nat)>)
    ensures multiset(Firsts(before + [pair] + after)) == multiset(Firsts(before + after)) + multiset{pair.0}
  {
    assert Firsts(before + [pair] + after) == Firsts(before) + [pair.0] + Firsts(after);
    assert Firsts(before + after) == Firsts(before) + Firsts(after);
  }

  lemma {:induction false} FirstsPermute(x: seq<(real, nat)>, y: seq<(real, nat)>)
    requires multiset(x) == multiset(y)
    ensures multiset(Firsts(x)) == multiset(Firsts(y))
  {
    PermutationMembers(x, y);
    if x != [] {
      var rest, pair := x[..|x|-1], x[|x|-1];
      assert pair in y;
      var i :| 0 <= i < |y| && y[i] == pair;
      assert x == rest + [pair] && y == y[..i] + [pair] + y[i+1..];
      WithoutOne(rest, pair, y[..i], y[i+1..]);
      FirstsPermute(rest, y[..i] + y[i+1..]);
      FirstsInsert(y[..i], pair, y[i+1..]);
      assert Firsts(x) == Firsts(rest) + [pair.0];
    }
  }

  lemma BeforeIsOrder()
    ensures TotalPreorder(Before)
  {
  }

  /// ---------------------------------------------------------------- the ranks

  /// n consecutive positions from the first on
  function Run(first: nat, n: nat): seq<nat> { seq(n, i requires 0 <= i => first + i) }

  lemma {:induction false} RunSum(first: nat, n: nat)
    ensures 2 * Total(Run(first, n)) == n * (2 * first + n - 1)
  {
    if n > 0 {
      assert Run(first, n)[..n-1] == Run(first, n - 1);
      RunSum(first, n - 1);
      NextRun(first, n);
    }
  }

  lemma NextRun(first: nat, n: nat)
    ensures (n - 1) * (2 * first + n - 2) + 2 * (first + n - 1) == n * (2 * first + n - 1)
  {
  }

  ghost predicate PositionsAre(positions: map<real, seq<nat>>, placed: seq<real>) {
    && (forall v :: v in positions <==> v in placed)
    && (forall v :: v in positions ==> positions[v] == Run(Less(placed, v) + 1, Equal(placed, v)))
  }

  lemma {:induction false} AllCounted(placed: seq<real>, x: real)
    requires forall i :: 0 <= i < |placed| ==> placed[i] <= x
    ensures Less(placed, x) + Equal(placed, x) == |placed|
  {
    if placed != [] { AllCounted(placed[..|placed|-1], x); }
  }

  lemma {:induction false} NotCounted(placed: seq<real>, x: real)
    requires x !in placed
    ensures Equal(placed, x) == 0
  {
    if placed != [] { NotCounted(placed[..|placed|-1], x); }
  }

  lemma {:induction false} Counted(placed: seq<real>, i: nat)
    requires i < |placed|
    ensures 0 < Equal(placed, placed[i])
  {
    if i < |placed| - 1 { Counted(placed[..|placed|-1], i); }
  }

  function Placed(positions: map<real, seq<nat>>, v: real, rank: nat): map<real, seq<nat>> {
    positions[v := (if v in positions then positions[v] else []) + [rank]]
  }

  lemma PlaceNext(positions: map<real, seq<nat>>, placed: seq<real>, x: real)
    requires PositionsAre(positions, placed) && forall i :: 0 <= i < |placed| ==> placed[i] <= x
    ensures PositionsAre(Placed(positions, x, |placed| + 1), placed + [x])
  {
    var next, all := Placed(positions, x, |placed| + 1), placed + [x];
    AllCounted(placed, x);
    forall v | v in next ensures next[v] == Run(Less(all, v) + 1, Equal(all, v)) {
      CountsAppend(placed, x, v);
      if v == x {
        if x !in positions { NotCounted(placed, x); }
      } else {
        assert v in placed;
      }
    }
  }

  /** The positions of every value in the sorted order. */
  method PositionsOf(values: seq<real>) returns (positions: map<real, seq<nat>>, ghost ordered: seq<(real, nat)>)
    ensures multiset(ordered) == multiset(Indexed(values)) && PositionsAre(positions, Firsts(ordered))
  {
    var inOrder := Sort(Indexed(values), Before);
    BeforeIsOrder();
    SortSorts(Indexed(values), Before);
    ordered := inOrder;
    ghost var placed := Firsts(ordered);
    positions := map[];
    for n := 0 to |inOrder|
      invariant PositionsAre(positions, placed[..n])
    {
      forall i | 0 <= i < n ensures placed[i] <= placed[n] {
        assert Before(ordered[i], ordered[n]);
      }
      PlaceNext(positions, placed[..n], placed[n]);
      assert placed[..n+1] == placed[..n] + [placed[n]];
      positions := Placed(positions, inOrder[n].0, n + 1);
    }
    assert placed[..|ordered|] == placed;
  }

  /** The rank of each value, in the order the values were given. */
  method RankValues(values: seq<real>) returns (r: seq<real>)
    ensures |r| == |values| && forall i :: 0 <= i < |r| ==> r[i] == MidRank(values, values[i])
  {
    var positions;
    ghost var ordered;
    positions, ordered := PositionsOf(values);
    r := [];
    for i := 0 to |values|
      invariant |r| == i && forall k :: 0 <= k < i ==> r[k] == MidRank(values, values[k])
    {
      GroupMean(values, ordered, positions, i);
      var group := positions[values[i]];
      r := r + [Total(group) as real / |group| as real];
    }
  }

  lemma GroupOf(values: seq<real>, ordered: seq<(real, nat)>, i: nat)
    requires multiset(ordered) == multiset(Indexed(values)) && i < |values|
    ensures values[i] in Firsts(ordered) && 0 < Equal(Firsts(ordered), values[i])
    ensures Less(Firsts(ordered), values[i]) == Less(values, values[i])
    ensures Equal(Firsts(ordered), values[i]) == Equal(values, values[i])
  {
    PermutationMembers(ordered, Indexed(values));
    FirstsPermute(ordered, Indexed(values));
    assert Firsts(Indexed(values)) == values;
    CountsPermute(Firsts(ordered), values, values[i]);
    assert Indexed(values)[i] in ordered;
    var k :| 0 <= k < |ordered| && ordered[k] == (values[i], i);
    assert Firsts(ordered)[k] == values[i];
    Counted(values, i);
  }

  lemma GroupMean(values: seq<real>, ordered: seq<(real, nat)>, positions: map<real, seq<nat>>, i: nat)
    requires multiset(ordered) == multiset(Indexed(values)) && i < |values| && PositionsAre(positions, Firsts(ordered))
    ensures values[i] in positions && |positions[values[i]]| > 0
    ensures Total(positions[values[i]]) as real / |positions[values[i]]| as real == MidRank(values, values[i])
  {
    GroupOf(values, ordered, i);
    MeanOfRun(Less(values, values[i]), Equal(values, values[i]));
  }

  lemma MeanOfRun(less: nat, equal: nat)
    requires 0 < equal
    ensures |Run(less + 1, equal)| == equal
    ensures Total(Run(less + 1, equal)) as real / equal as real == less as real + (equal + 1) as real / 2.0
  {
    RunSum(less + 1, equal);
    MeanFrom(Total(Run(less + 1, equal)), equal, 2 * less + equal + 1);
  }

  lemma MeanFrom(sum: nat, n: nat, double: nat)
    requires 0 < n && 2 * sum == n * double
    ensures sum as real / n as real == double as real / 2.0
  {
    assert (2 * sum) as real == n as real * double as real;
    var x := sum as real / n as real;
    assert x * n as real == sum as real;
    assert (2.0 * x - double as real) * n as real == 0.0;
  }

  /// ---------------------------------------------------------------- what ranking conserves

  /** Larger values rank strictly higher. */
  lemma {:induction false} LessMonotone(values: seq<real>, v: real, u: real)
    requires v < u
    ensures Less(values, v) + Equal(values, v) <= Less(values, u)
  {
    if values != [] { LessMonotone(values[..|values|-1], v, u); }
  }

  lemma RanksOrdered(values: seq<real>, i: nat, k: nat)
    requires i < |values| && k < |values|
    ensures MidRank(values, values[i]) < MidRank(values, values[k]) <==> values[i] < values[k]
    ensures MidRank(values, values[i]) == MidRank(values, values[k]) <==> values[i] == values[k]
  {
    Counted(values, i);
    Counted(values, k);
    if values[i] < values[k] { LessMonotone(values, values[i], values[k]); }
    if values[k] < values[i] { LessMonotone(values, values[k], values[i]); }
  }

  /// twice the ranks of the values listed, less one each
  function Doubles(values: seq<real>, listed: seq<real>): nat {
    if listed == [] then 0
    else
      var v := listed[|listed|-1];
      Doubles(values, listed[..|listed|-1]) + 2 * Less(values, v) + Equal(values, v)
  }

  lemma {:induction false} DoublesAppend(values: seq<real>, x: real, listed: seq<real>)
    ensures Doubles(values + [x], listed) + 2 * Less(listed, x) + Equal(listed, x) ==
      Doubles(values, listed) + 2 * |listed|
  {
    if listed != [] {
      CountsAppend(values, x, listed[|listed|-1]);
      DoublesAppend(values, x, listed[..|listed|-1]);
    }
  }

  lemma {:induction false} DoublesSquare(values: seq<real>)
    ensures Doubles(values, values) == |values| * |values|
  {
    if values != [] {
      var n := |values| - 1;
      var rest, x := values[..n], values[n];
      DoublesSquare(rest);
      assert values == rest + [x];
      DoublesAppend(rest, x, rest);
      CountsAppend(rest, x, x);
      NextSquare(n);
    }
  }

  lemma NextSquare(n: nat)
    ensures (n + 1) * (n + 1) == n * n + 2 * n + 1
  {
  }

  function RankSum(values: seq<real>, listed: seq<real>): real {
    if listed == [] then 0.0
    else RankSum(values, listed[..|listed|-1]) + MidRank(values, listed[|listed|-1])
  }

  lemma {:induction false} RankSumIs(values: seq<real>, listed: seq<real>)
    ensures 2.0 * RankSum(values, listed) == (Doubles(values, listed) + |listed|) as real
  {
    if listed != [] { RankSumIs(values, listed[..|listed|-1]); }
  }

  /** However the values tie, the ranks add up to 1 + 2 + ... + n. */
  lemma RanksConserved(values: seq<real>)
    ensures 2.0 * RankSum(values, values) == (|values| * (|values| + 1)) as real
  {
    RankSumIs(values, values);
    DoublesSquare(values);
    assert |values| * (|values| + 1) == |values| * |values| + |values|;
  }
}
