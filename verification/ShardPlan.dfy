/** The shard plan of the test corpus: modules by measured weight, heaviest first, each to the
    lightest shard so far. */
module ShardPlan {
  import opened Products
  import opened Results
  import opened Sorting
  import opened Sequences
  import opened ListScheduling

  datatype PlanError = CountNotPositive | CountExceedsModules | NotAPartition

  /// measured seconds by module; a module that was not measured weighs 1
  type Weights = map<string, nat>

  function Weight(name: string, measured: Weights): nat {
    if name in measured then measured[name] else 1
  }

  predicate NoneWeightless(measured: Weights) {
    forall name :: name in measured ==> 0 < measured[name]
  }

  /** The order of strings by their characters. */
  predicate LexLe(x: string, y: string) {
    x == "" || (y != "" && (x[0] < y[0] || (x[0] == y[0] && LexLe(x[1..], y[1..]))))
  }

  /** Heavier first, then by name. */
  predicate HeavierFirst(x: string, y: string, measured: Weights) {
    Weight(x, measured) > Weight(y, measured) || (Weight(x, measured) == Weight(y, measured) && LexLe(x, y))
  }

  lemma {:induction false} LexTotal(x: string, y: string)
    ensures LexLe(x, y) || LexLe(y, x)
  {
    if x != "" && y != "" && x[0] == y[0] { LexTotal(x[1..], y[1..]); }
  }

  lemma {:induction false} LexTransitive(x: string, y: string, z: string)
    requires LexLe(x, y) && LexLe(y, z)
    ensures LexLe(x, z)
  {
    if x != "" && x[0] == y[0] == z[0] { LexTransitive(x[1..], y[1..], z[1..]); }
  }

  lemma LexIsOrder()
    ensures TotalPreorder(LexLe)
  {
    forall x, y ensures LexLe(x, y) || LexLe(y, x) { LexTotal(x, y); }
    forall x, y, z | LexLe(x, y) && LexLe(y, z) ensures LexLe(x, z) { LexTransitive(x, y, z); }
  }

  function Heavier(measured: Weights): (string, string) -> bool {
    (x, y) => HeavierFirst(x, y, measured)
  }

  lemma HeavierIsOrder(measured: Weights)
    ensures TotalPreorder(Heavier(measured))
  {
    var le := Heavier(measured);
    forall x, y ensures le(x, y) || le(y, x) { LexTotal(x, y); }
    forall x, y, z | le(x, y) && le(y, z) ensures le(x, z) {
      if LexLe(x, y) && LexLe(y, z) { LexTransitive(x, y, z); }
    }
  }

  function WeightsOf(names: seq<string>, measured: Weights): (w: seq<nat>)
    ensures |w| == |names| && forall i :: 0 <= i < |names| ==> w[i] == Weight(names[i], measured)
  {
    seq(|names|, i requires 0 <= i < |names| => Weight(names[i], measured))
  }

  /** Total weight of a shard. */
  function ShardLoad(shard: seq<string>, measured: Weights): nat { Total(WeightsOf(shard, measured)) }

  /** The names that an assignment sends to shard j, in order. */
  function Picked(names: seq<string>, a: seq<nat>, j: nat): seq<string>
    requires |names| == |a|
  {
    if names == [] then []
    else
      var front := Picked(names[..|names|-1], a[..|a|-1], j);
      if a[|a|-1] == j then front + [names[|names|-1]] else front
  }

  lemma WeightsPrefix(names: seq<string>, n: nat, measured: Weights)
    requires n <= |names|
    ensures WeightsOf(names[..n], measured) == WeightsOf(names, measured)[..n]
  {
  }

  lemma LoadAppend(shard: seq<string>, name: string, measured: Weights)
    ensures ShardLoad(shard + [name], measured) == ShardLoad(shard, measured) + Weight(name, measured)
  {
    var w := WeightsOf(shard + [name], measured);
    assert w[..|w|-1] == WeightsOf(shard, measured);
  }

  lemma {:induction false} PickedLoad(names: seq<string>, a: seq<nat>, j: nat, measured: Weights)
    requires |names| == |a|
    ensures ShardLoad(Picked(names, a, j), measured) == Load(WeightsOf(names, measured), a, j)
  {
    if names != [] {
      var n := |names| - 1;
      PickedLoad(names[..n], a[..n], j, measured);
      WeightsPrefix(names, n, measured);
      if a[n] == j { LoadAppend(Picked(names[..n], a[..n], j), names[n], measured); }
    }
  }

  lemma {:induction false} PickedCount(names: seq<string>, a: seq<nat>, j: nat)
    requires |names| == |a|
    ensures |Picked(names, a, j)| == Count(a, j)
  {
    if names != [] {
      var n := |names| - 1;
      OnesPrefix(|a|);
      PickedCount(names[..n], a[..n], j);
    }
  }

  /** All names of the shards below m. */
  function Gathered(names: seq<string>, a: seq<nat>, m: nat): multiset<string>
    requires |names| == |a|
  {
    if m == 0 then multiset{} else Gathered(names, a, m - 1) + multiset(Picked(names, a, m - 1))
  }

  lemma {:induction false} GatheredAppend(names: seq<string>, a: seq<nat>, m: nat)
    requires |names| == |a| > 0
    ensures var n := |names| - 1;
            Gathered(names, a, m) ==
            Gathered(names[..n], a[..n], m) + if a[n] < m then multiset{names[n]} else multiset{}
  {
    if m > 0 { GatheredAppend(names, a, m - 1); }
  }

  lemma {:induction false} NothingGathered(m: nat)
    ensures Gathered([], [], m) == multiset{}
  {
    if m > 0 { NothingGathered(m - 1); }
  }

  /** The shards together hold every name as often as it was given. */
  lemma {:induction false} GatheredIsAll(names: seq<string>, a: seq<nat>, m: nat)
    requires |names| == |a| && Assigns(a, m)
    ensures Gathered(names, a, m) == multiset(names)
  {
    if names == [] {
      NothingGathered(m);
    } else {
      var n := |names| - 1;
      GatheredAppend(names, a, m);
      GatheredIsAll(names[..n], a[..n], m);
      assert names == names[..n] + [names[n]];
    }
  }

  /// ---------------------------------------------------------------- permutations

  lemma {:induction false} LoadJoin(x: seq<string>, y: seq<string>, measured: Weights)
    ensures ShardLoad(x + y, measured) == ShardLoad(x, measured) + ShardLoad(y, measured)
  {
    if y == [] {
      assert x + y == x;
    } else {
      var n := |y| - 1;
      assert x + y == (x + y[..n]) + [y[n]] && y == y[..n] + [y[n]];
      LoadAppend(x + y[..n], y[n], measured);
      LoadAppend(y[..n], y[n], measured);
      LoadJoin(x, y[..n], measured);
    }
  }

  /** A load does not depend on the order of the shard. */
  lemma {:induction false} LoadPermutation(x: seq<string>, y: seq<string>, measured: Weights)
    requires multiset(x) == multiset(y)
    ensures ShardLoad(x, measured) == ShardLoad(y, measured)
  {
    PermutationMembers(x, y);
    if x != [] {
      var n := |x| - 1;
      var name := x[n];
      assert name in y;
      var i :| 0 <= i < |y| && y[i] == name;
      var before, after := y[..i], y[i+1..];
      assert x == x[..n] + [name] && y == before + [name] + after;
      WithoutOne(x[..n], name, before, after);
      LoadPermutation(x[..n], before + after, measured);
      LoadAppend(x[..n], name, measured);
      LoadAppend(before, name, measured);
      LoadJoin(before + [name], after, measured);
      LoadJoin(before, after, measured);
    }
  }

  lemma {:induction false} DuplicatesCounted(names: seq<string>)
    ensures Distinct(names) <==> forall x :: multiset(names)[x] <= 1
  {
    if names != [] {
      var n := |names| - 1;
      var rest := names[..n];
      DuplicatesCounted(rest);
      assert names == rest + [names[n]];
      assert names[n] in rest <==> names[n] in multiset(rest);
      if Distinct(names) {
        assert names[n] !in rest;
      } else if Distinct(rest) {
        var i, k :| 0 <= i < k < |names| && names[i] == names[k];
        assert k == n && names[n] == rest[i];
        assert multiset(names)[names[n]] == multiset(rest)[names[n]] + 1;
      } else {
        var x :| multiset(rest)[x] > 1;
        assert multiset(names)[x] > 1;
      }
    }
  }

  lemma {:induction false} FlattenGathers(bins: seq<seq<string>>, names: seq<string>, a: seq<nat>)
    requires |names| == |a| && forall j :: 0 <= j < |bins| ==> multiset(bins[j]) == multiset(Picked(names, a, j))
    ensures multiset(Flatten(bins)) == Gathered(names, a, |bins|)
  {
    if bins != [] { FlattenGathers(bins[..|bins|-1], names, a); }
  }

  /// ---------------------------------------------------------------- the plan

  /** The lightest shard, the first of several. */
  ghost predicate IsTarget(w: seq<nat>, a: seq<nat>, m: nat, c: nat)
    requires |w| == |a|
  {
    c < m && IsLeast(w, a, m, c) && forall j :: 0 <= j < c ==> Load(w, a, c) < Load(w, a, j)
  }

  ghost predicate Targeted(w: seq<nat>, a: seq<nat>, m: nat)
    requires |w| == |a|
  {
    forall k :: 0 <= k < |w| ==> IsTarget(w[..k], a[..k], m, a[k])
  }

  /** The shards of the plan, given the order in which names are placed and where each goes. */
  ghost predicate PlanBy(shards: seq<seq<string>>, order: seq<string>, a: seq<nat>, names: seq<string>, count: nat,
                         measured: Weights)
  {
    && order == Sort(names, Heavier(measured)) && |a| == |order|
    && Targeted(WeightsOf(order, measured), a, count)
    && |shards| == count
    && forall j :: 0 <= j < count ==> shards[j] == Sort(Picked(order, a, j), LexLe)
  }

  ghost predicate IsPlan(shards: seq<seq<string>>, names: seq<string>, count: nat, measured: Weights) {
    exists order, a :: PlanBy(shards, order, a, names, count, measured)
  }

  method Lightest(loads: seq<nat>) returns (target: nat)
    requires loads != []
    ensures target < |loads|
    ensures forall j :: 0 <= j < |loads| ==> loads[target] <= loads[j]
    ensures forall j :: 0 <= j < target ==> loads[target] < loads[j]
  {
    target := 0;
    for index := 1 to |loads|
      invariant target < index
      invariant forall j :: 0 <= j < index ==> loads[target] <= loads[j]
      invariant forall j :: 0 <= j < target ==> loads[target] < loads[j]
    {
      if loads[index] < loads[target] { target := index; }
    }
  }

  lemma TargetedAppend(w: seq<nat>, a: seq<nat>, m: nat, k: nat, c: nat)
    requires k < |w| && |a| == k && Targeted(w[..k], a, m) && IsTarget(w[..k], a, m, c)
    ensures Targeted(w[..k+1], a + [c], m)
  {
    forall i | 0 <= i <= k ensures IsTarget(w[..k+1][..i], (a + [c])[..i], m, (a + [c])[i]) {
      assert w[..k+1][..i] == w[..i];
      if i < k {
        assert (a + [c])[..i] == a[..i] && w[..k][..i] == w[..i];
      } else {
        assert (a + [c])[..i] == a;
      }
    }
  }

  lemma TargetedIsLeastLoaded(w: seq<nat>, a: seq<nat>, m: nat)
    requires |w| == |a| && Targeted(w, a, m)
    ensures LeastLoaded(w, a, m)
  {
    forall k | 0 <= k < |w| ensures a[k] < m && IsLeast(w[..k], a[..k], m, a[k]) {
      assert IsTarget(w[..k], a[..k], m, a[k]);
    }
  }

  ghost predicate Tracks(bins: seq<seq<string>>, loads: seq<nat>, names: seq<string>, a: seq<nat>, measured: Weights)
    requires |names| == |a|
  {
    && |bins| == |loads|
    && forall j :: 0 <= j < |bins| ==>
         bins[j] == Picked(names, a, j) && loads[j] == Load(WeightsOf(names, measured), a, j)
  }

  lemma TracksAppend(bins: seq<seq<string>>, loads: seq<nat>, names: seq<string>, a: seq<nat>, measured: Weights,
                     name: string, c: nat)
    requires |names| == |a| && c < |bins| && Tracks(bins, loads, names, a, measured)
    ensures Tracks(bins[c := bins[c] + [name]], loads[c := loads[c] + Weight(name, measured)],
                   names + [name], a + [c], measured)
  {
    var all, a' := names + [name], a + [c];
    assert all[..|names|] == names && a'[..|a|] == a;
    assert WeightsOf(all, measured)[..|names|] == WeightsOf(names, measured);
  }

  /** The bins filled one name at a time. */
  method FillBins(order: seq<string>, count: nat, measured: Weights) returns (bins: seq<seq<string>>, ghost a: seq<nat>)
    requires 0 < count
    ensures |a| == |order| && Targeted(WeightsOf(order, measured), a, count)
    ensures |bins| == count && forall j :: 0 <= j < count ==> bins[j] == Picked(order, a, j)
  {
    bins := seq(count, _ => []);
    var loads: seq<nat> := seq(count, _ => 0);
    a := [];
    ghost var w := WeightsOf(order, measured);
    for i := 0 to |order|
      invariant |a| == i && |bins| == count
      invariant Tracks(bins, loads, order[..i], a, measured)
      invariant Targeted(w[..i], a, count)
    {
      var name := order[i];
      var target := Lightest(loads);
      WeightsPrefix(order, i, measured);
      assert IsTarget(w[..i], a, count, target);
      TargetedAppend(w, a, count, i, target);
      TracksAppend(bins, loads, order[..i], a, measured, name, target);
      assert order[..i+1] == order[..i] + [name];
      bins := bins[target := bins[target] + [name]];
      loads := loads[target := loads[target] + Weight(name, measured)];
      a := a + [target];
    }
    assert order[..|order|] == order && w[..|order|] == w;
  }

  function SortAll(bins: seq<seq<string>>): (shards: seq<seq<string>>)
    ensures |shards| == |bins| && forall j :: 0 <= j < |bins| ==> shards[j] == Sort(bins[j], LexLe)
  {
    seq(|bins|, j requires 0 <= j < |bins| => Sort(bins[j], LexLe))
  }

  method PartitionModules(names: seq<string>, count: int, measured: Weights)
    returns (r: Result<seq<seq<string>>, PlanError>)
    ensures r.Ok? <==> 1 <= count <= |names| && Distinct(names)
    ensures count < 1 ==> r == Err(CountNotPositive)
    ensures 1 <= count && |names| < count ==> r == Err(CountExceedsModules)
    ensures r.Ok? ==> IsPlan(r.value, names, count, measured)
  {
    if count < 1 { return Err(CountNotPositive); }
    if count > |names| { return Err(CountExceedsModules); }
    var weighted := Sort(names, Heavier(measured));
    HeavierIsOrder(measured);
    SortSorts(names, Heavier(measured));
    ghost var a;
    var bins;
    bins, a := FillBins(weighted, count, measured);
    var flattened := Flatten(bins);
    AssignsTargets(WeightsOf(weighted, measured), a, count);
    FlattenGathers(bins, weighted, a);
    GatheredIsAll(weighted, a, count);
    PermutationMembers(flattened, names);
    DuplicatesCounted(flattened);
    DuplicatesCounted(names);
    if !Distinct(flattened) || (set x | x in flattened) != (set x | x in names) { return Err(NotAPartition); }
    assert PlanBy(SortAll(bins), weighted, a, names, count, measured);
    r := Ok(SortAll(bins));
  }

  lemma AssignsTargets(w: seq<nat>, a: seq<nat>, m: nat)
    requires |w| == |a| && Targeted(w, a, m)
    ensures Assigns(a, m)
  {
    TargetedIsLeastLoaded(w, a, m);
  }

  /// ---------------------------------------------------------------- what a plan guarantees

  lemma OrderDescends(order: seq<string>, names: seq<string>, measured: Weights)
    requires order == Sort(names, Heavier(measured))
    ensures multiset(order) == multiset(names) && |order| == |names| && Descending(WeightsOf(order, measured))
  {
    HeavierIsOrder(measured);
    SortSorts(names, Heavier(measured));
    PermutationMembers(order, names);
    forall i, k | 0 <= i < k < |order| ensures Weight(order[k], measured) <= Weight(order[i], measured) {
      assert Heavier(measured)(order[i], order[k]);
    }
  }

  /** The loads of a plan are those of its placement. */
  lemma PlanLoad(shards: seq<seq<string>>, order: seq<string>, a: seq<nat>, names: seq<string>, count: nat,
                 measured: Weights, j: nat)
    requires PlanBy(shards, order, a, names, count, measured) && j < count
    ensures ShardLoad(shards[j], measured) == Load(WeightsOf(order, measured), a, j)
    ensures multiset(shards[j]) == multiset(Picked(order, a, j)) && |shards[j]| == Count(a, j)
  {
    LexIsOrder();
    SortSorts(Picked(order, a, j), LexLe);
    LoadPermutation(shards[j], Picked(order, a, j), measured);
    PermutationMembers(shards[j], Picked(order, a, j));
    PickedLoad(order, a, j, measured);
    PickedCount(order, a, j);
  }

  /** An exact partition: every module is in the plan as often as it was given. */
  lemma PlanPartitions(shards: seq<seq<string>>, names: seq<string>, count: nat, measured: Weights)
    requires IsPlan(shards, names, count, measured)
    ensures |shards| == count && multiset(Flatten(shards)) == multiset(names)
    ensures forall j :: 0 <= j < count ==> SortedBy(shards[j], LexLe)
  {
    var order, a :| PlanBy(shards, order, a, names, count, measured);
    OrderDescends(order, names, measured);
    AssignsTargets(WeightsOf(order, measured), a, count);
    forall j | 0 <= j < count
      ensures multiset(shards[j]) == multiset(Picked(order, a, j)) && SortedBy(shards[j], LexLe)
    {
      PlanLoad(shards, order, a, names, count, measured, j);
      LexIsOrder();
      SortSorts(Picked(order, a, j), LexLe);
    }
    FlattenGathers(shards, order, a);
    GatheredIsAll(order, a, count);
  }

  /** No shard is empty as long as no module is weightless. */
  lemma PlanNoneEmpty(shards: seq<seq<string>>, names: seq<string>, count: nat, measured: Weights, j: nat)
    requires IsPlan(shards, names, count, measured) && NoneWeightless(measured) && j < count <= |names|
    ensures |shards| == count && shards[j] != []
  {
    var order, a :| PlanBy(shards, order, a, names, count, measured);
    OrderDescends(order, names, measured);
    PlanLoad(shards, order, a, names, count, measured, j);
    TargetedIsLeastLoaded(WeightsOf(order, measured), a, count);
    NoneIdle(WeightsOf(order, measured), a, count, j);
  }

  /** Loads differ by no more than the heaviest module, and none exceeds the average by more than
      its share of it. */
  lemma PlanBalanced(shards: seq<seq<string>>, names: seq<string>, count: nat, measured: Weights, heaviest: nat,
                     i: nat, j: nat)
    requires IsPlan(shards, names, count, measured) && i < count && j < count
    requires forall name :: name in names ==> Weight(name, measured) <= heaviest
    ensures |shards| == count
    ensures ShardLoad(shards[i], measured) <= ShardLoad(shards[j], measured) + heaviest
    ensures count * ShardLoad(shards[i], measured) <= ShardLoad(names, measured) + (count - 1) * heaviest
  {
    var order, a :| PlanBy(shards, order, a, names, count, measured);
    var w := WeightsOf(order, measured);
    OrderDescends(order, names, measured);
    PermutationMembers(order, names);
    forall k | 0 <= k < |w| ensures w[k] <= heaviest {
      assert order[k] in order;
    }
    PlanLoad(shards, order, a, names, count, measured, i);
    PlanLoad(shards, order, a, names, count, measured, j);
    TargetedIsLeastLoaded(w, a, count);
    Spread(w, a, count, heaviest, i, j);
    LoadPermutation(order, names, measured);
    AverageBound(w, a, count, heaviest, i);
  }

  lemma AverageBound(w: seq<nat>, a: seq<nat>, m: nat, heaviest: nat, j: nat)
    requires |w| == |a| && LeastLoaded(w, a, m) && AtMost(w, heaviest) && j < m
    ensures m * Load(w, a, j) <= Total(w) + (m - 1) * heaviest
  {
    if Load(w, a, j) > 0 {
      var k := LoadBound(w, a, m, j);
      AddShare(m, Load(w, a, j), Total(w), w[k], heaviest);
    } else {
      AddShare(m, 0, Total(w), 0, heaviest);
    }
  }

  lemma AddShare(m: nat, load: nat, total: nat, last: nat, heaviest: nat)
    requires 0 < m && m * load <= total + (m - 1) * last && last <= heaviest
    ensures m * load <= total + (m - 1) * heaviest
  {
    MulMono(m - 1, last, heaviest);
  }

  /// another way to send every module to one of the shards
  type Rival = map<string, nat>

  predicate Sends(other: Rival, names: seq<string>, count: nat) {
    forall name :: name in names ==> name in other && other[name] < count
  }

  function Destinations(names: seq<string>, other: Rival, count: nat): (b: seq<nat>)
    requires Sends(other, names, count)
    ensures |b| == |names| && Assigns(b, count) && forall i :: 0 <= i < |names| ==> b[i] == other[names[i]]
  {
    seq(|names|, i requires 0 <= i < |names| => assert names[i] in names; other[names[i]])
  }

  function RivalShard(names: seq<string>, other: Rival, count: nat, j: nat): seq<string>
    requires Sends(other, names, count)
  {
    Picked(names, Destinations(names, other, count), j)
  }

  lemma {:induction false} RivalMultiset(names: seq<string>, other: Rival, count: nat, j: nat, name: string)
    requires Sends(other, names, count)
    ensures multiset(RivalShard(names, other, count, j))[name] ==
            if name in names && other[name] == j then multiset(names)[name] else 0
  {
    if names != [] {
      var n := |names| - 1;
      var b := Destinations(names, other, count);
      assert names[n] in names && names == names[..n] + [names[n]];
      assert b[..n] == Destinations(names[..n], other, count);
      RivalMultiset(names[..n], other, count, j, name);
      assert name in names[..n] <==> name in multiset(names[..n]);
    }
  }

  lemma RivalPermutation(x: seq<string>, y: seq<string>, other: Rival, count: nat, j: nat, measured: Weights)
    requires multiset(x) == multiset(y) && Sends(other, x, count) && Sends(other, y, count)
    ensures ShardLoad(RivalShard(x, other, count, j), measured) == ShardLoad(RivalShard(y, other, count, j), measured)
  {
    PermutationMembers(x, y);
    forall name
      ensures multiset(RivalShard(x, other, count, j))[name] == multiset(RivalShard(y, other, count, j))[name]
    {
      RivalMultiset(x, other, count, j, name);
      RivalMultiset(y, other, count, j, name);
    }
    LoadPermutation(RivalShard(x, other, count, j), RivalShard(y, other, count, j), measured);
  }

  /** No assignment of the modules to the same number of shards finishes much earlier: the plan's
      longest shard is within 4/3 - 1/(3 count) of the longest shard of any other. */
  lemma PlanNearOptimal(shards: seq<seq<string>>, names: seq<string>, count: nat, measured: Weights, other: Rival,
                        best: nat, j: nat)
    requires IsPlan(shards, names, count, measured) && Sends(other, names, count) && j < count
    requires forall i :: 0 <= i < count ==> ShardLoad(RivalShard(names, other, count, i), measured) <= best
    ensures |shards| == count
    ensures 3 * count * ShardLoad(shards[j], measured) <= (4 * count - 1) * best
  {
    var order, a :| PlanBy(shards, order, a, names, count, measured);
    var w := WeightsOf(order, measured);
    OrderDescends(order, names, measured);
    PermutationMembers(order, names);
    PlanLoad(shards, order, a, names, count, measured, j);
    TargetedIsLeastLoaded(w, a, count);
    var b := Destinations(order, other, count);
    forall i | 0 <= i < count ensures Load(w, b, i) <= best {
      RivalPermutation(names, order, other, count, i, measured);
      PickedLoad(order, b, i, measured);
    }
    WithinFourThirds(w, a, b, count, best, j);
  }

  /// ---------------------------------------------------------------- what pins a plan down

  /** The order of names: a prefix, or the smaller character at the first difference. */
  lemma {:induction false} LexLeIff(x: string, y: string)
    ensures LexLe(x, y) <==>
            || x <= y
            || exists n: nat :: n < |x| && n < |y| && x[..n] == y[..n] && x[n] < y[n]
  {
    if x != "" && y != "" && x[0] == y[0] {
      LexLeIff(x[1..], y[1..]);
      if x[1..] <= y[1..] { assert x == [x[0]] + x[1..] && y == [y[0]] + y[1..]; }
      if n: nat :| n < |x[1..]| && n < |y[1..]| && x[1..][..n] == y[1..][..n] && x[1..][n] < y[1..][n] {
        assert x[..n+1] == [x[0]] + x[1..][..n] && y[..n+1] == [y[0]] + y[1..][..n];
        assert x[n+1] < y[n+1];
      }
      if n: nat :| n < |x| && n < |y| && x[..n] == y[..n] && x[n] < y[n] {
        FirstDifferenceLater(x, y, n);
      }
    } else if x != "" && y != "" && x[0] < y[0] {
      assert x[..0] == y[..0];
    }
  }

  lemma FirstDifferenceLater(x: string, y: string, n: nat)
    requires n < |x| && n < |y| && x[..n] == y[..n] && x[n] < y[n] && x[0] == y[0]
    ensures 0 < n && x[1..][..n-1] == y[1..][..n-1] && x[1..][n-1] < y[1..][n-1]
  {
    assert x[..n][1..] == x[1..][..n-1] && y[..n][1..] == y[1..][..n-1];
  }

  /** Seconds of a module, as the table has them: what is missing in it counts as one second. */
  predicate Takes(name: string, seconds: nat, measured: Weights) {
    (name in measured && measured[name] == seconds) || (name !in measured && seconds == 1)
  }

  /** Modules are placed by falling seconds, and by rising name among equals. */
  lemma PlacedInOrder(shards: seq<seq<string>>, order: seq<string>, a: seq<nat>, names: seq<string>, count: nat,
                      measured: Weights, i: nat, k: nat, x: nat, y: nat)
    requires PlanBy(shards, order, a, names, count, measured) && i < k < |order|
    requires Takes(order[i], x, measured) && Takes(order[k], y, measured)
    ensures y <= x && (x == y ==> LexLe(order[i], order[k]))
  {
    HeavierIsOrder(measured);
    SortSorts(names, Heavier(measured));
    assert Heavier(measured)(order[i], order[k]);
  }

  lemma {:induction false} InsertAgrees(x: string, xs: seq<string>, m: Weights, w: Weights)
    requires forall name :: Weight(name, m) == Weight(name, w)
    ensures Insert(x, xs, Heavier(m)) == Insert(x, xs, Heavier(w))
  {
    if xs != [] { InsertAgrees(x, xs[1..], m, w); }
  }

  lemma {:induction false} SortAgrees(xs: seq<string>, m: Weights, w: Weights)
    requires forall name :: Weight(name, m) == Weight(name, w)
    ensures Sort(xs, Heavier(m)) == Sort(xs, Heavier(w))
  {
    if xs != [] {
      SortAgrees(xs[1..], m, w);
      InsertAgrees(xs[0], Sort(xs[1..], Heavier(m)), m, w);
    }
  }

  /** A module that was not measured is planned as one measured at a second. */
  lemma UnmeasuredIsOneSecond(shards: seq<seq<string>>, names: seq<string>, count: nat, measured: Weights, name: string)
    requires name !in measured
    ensures IsPlan(shards, names, count, measured) <==> IsPlan(shards, names, count, measured[name := 1])
  {
    SamePlan(shards, names, count, measured, measured[name := 1]);
    SamePlan(shards, names, count, measured[name := 1], measured);
  }

  lemma SamePlan(shards: seq<seq<string>>, names: seq<string>, count: nat, m: Weights, w: Weights)
    requires forall name :: Weight(name, m) == Weight(name, w)
    ensures IsPlan(shards, names, count, m) ==> IsPlan(shards, names, count, w)
  {
    SortAgrees(names, m, w);
    forall order, a | PlanBy(shards, order, a, names, count, m) ensures PlanBy(shards, order, a, names, count, w) {
      assert WeightsOf(order, m) == WeightsOf(order, w);
    }
  }

  lemma {:induction false} TargetsUnique(w: seq<nat>, a: seq<nat>, b: seq<nat>, m: nat, n: nat)
    requires |w| == |a| == |b| && Targeted(w, a, m) && Targeted(w, b, m) && n <= |w|
    ensures a[..n] == b[..n]
  {
    if n > 0 {
      TargetsUnique(w, a, b, m, n - 1);
      var c, d := a[n-1], b[n-1];
      assert IsTarget(w[..n-1], a[..n-1], m, c) && IsTarget(w[..n-1], b[..n-1], m, d);
      assert c == d;
      assert a[..n] == a[..n-1] + [c] && b[..n] == b[..n-1] + [d];
    }
  }

  /** There is one plan: the same modules and the same table always give the same shards. */
  lemma PlanUnique(shards: seq<seq<string>>, others: seq<seq<string>>, names: seq<string>, count: nat,
                   measured: Weights)
    requires IsPlan(shards, names, count, measured) && IsPlan(others, names, count, measured)
    ensures shards == others
  {
    var order, a :| PlanBy(shards, order, a, names, count, measured);
    var order', b :| PlanBy(others, order', b, names, count, measured);
    TargetsUnique(WeightsOf(order, measured), a, b, count, |a|);
    assert a[..|a|] == a && b[..|b|] == b;
  }
}
