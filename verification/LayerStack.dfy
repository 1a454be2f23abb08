/** Stacks of layers folded from the bottom: the same fold with one layer left out. */
module LayerStack {
  /** The stack seen from above: each layer laid on the result of those below it. */
  function Fold<L, C>(lay: (L, C) -> C, layers: seq<L>, base: C): C {
    if layers == [] then base else lay(layers[|layers|-1], Fold(lay, layers[..|layers|-1], base))
  }

  lemma FoldStep<L, C>(lay: (L, C) -> C, layers: seq<L>, i: nat, base: C)
    requires i < |layers|
    ensures Fold(lay, layers[..i+1], base) == lay(layers[i], Fold(lay, layers[..i], base))
  {
    assert layers[..i+1][..i] == layers[..i];
  }

  /** The result after every layer of the stack. */
  method Outputs<L, C>(lay: (L, C) -> C, layers: seq<L>, base: C) returns (outputs: seq<C>)
    ensures |outputs| == |layers|
    ensures forall i :: 0 <= i < |layers| ==> outputs[i] == Fold(lay, layers[..i+1], base)
  {
    outputs := [];
    var current := base;
    for i := 0 to |layers|
      invariant |outputs| == i && current == Fold(lay, layers[..i], base)
      invariant forall k :: 0 <= k < i ==> outputs[k] == Fold(lay, layers[..k+1], base)
    {
      FoldStep(lay, layers, i, base);
      current := lay(layers[i], current);
      outputs := outputs + [current];
    }
  }

  /** The counterfactual replay: it resumes above the target from what the target itself was laid
      on, and gives the stack without the target. */
  method Replay<L, C>(lay: (L, C) -> C, layers: seq<L>, base: C, target: nat, below: C) returns (current: C)
    requires target < |layers| && below == Fold(lay, layers[..target], base)
    ensures current == Fold(lay, Without(layers, target), base)
  {
    current := below;
    ghost var rest := Without(layers, target);
    for i := target + 1 to |layers|
      invariant current == Fold(lay, rest[..i-1], base)
    {
      FoldStep(lay, rest, i - 1, base);
      current := lay(layers[i], current);
    }
    assert rest[..|layers|-1] == rest;
  }

  function Without<L>(layers: seq<L>, target: nat): (rest: seq<L>)
    requires target < |layers|
    ensures |rest| == |layers| - 1 && rest[..target] == layers[..target]
    ensures forall i :: target < i < |layers| ==> rest[i-1] == layers[i]
  {
    layers[..target] + layers[target+1..]
  }

  /** Above the target both stacks are laid on alike. */
  lemma TopStays<L, C>(lay: (L, C) -> C, layers: seq<L>, base: C, target: nat)
    requires target < |layers| - 1
    ensures var n := |layers| - 1;
            && Fold(lay, layers, base) == lay(layers[n], Fold(lay, layers[..n], base))
            && Fold(lay, Without(layers, target), base) == lay(layers[n], Fold(lay, Without(layers[..n], target), base))
  {
    var n := |layers| - 1;
    assert Without(layers, target)[..n-1] == Without(layers[..n], target);
  }

  /** Leaving out a layer that changes nothing changes nothing. */
  lemma {:induction false} NeutralLayer<L, C(!new)>(lay: (L, C) -> C, layers: seq<L>, base: C, target: nat)
    requires target < |layers| && forall below :: lay(layers[target], below) == below
    ensures Fold(lay, Without(layers, target), base) == Fold(lay, layers, base)
  {
    var n := |layers| - 1;
    if target == n {
      assert Without(layers, target) == layers[..n];
    } else {
      TopStays(lay, layers, base, target);
      NeutralLayer(lay, layers[..n], base, target);
    }
  }

  /** Leaving out a layer below one that hides everything changes nothing. */
  lemma {:induction false} HidingLayer<L, C(!new)>(lay: (L, C) -> C, layers: seq<L>, base: C, target: nat, cover: nat)
    requires target < cover < |layers| && forall below, other :: lay(layers[cover], below) == lay(layers[cover], other)
    ensures Fold(lay, Without(layers, target), base) == Fold(lay, layers, base)
  {
    var n := |layers| - 1;
    var whole, without := Fold(lay, layers[..n], base), Fold(lay, Without(layers[..n], target), base);
    TopStays(lay, layers, base, target);
    assert Fold(lay, layers, base) == lay(layers[n], whole);
    assert Fold(lay, Without(layers, target), base) == lay(layers[n], without);
    if cover == n {
      assert lay(layers[cover], whole) == lay(layers[cover], without);
    } else {
      HidingLayer(lay, layers[..n], base, target, cover);
    }
  }
}
