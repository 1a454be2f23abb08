/** Sequences: their sum, their concatenation, and whether an element repeats. */
module Sequences {
  function Total(xs: seq<nat>): nat {
    if xs == [] then 0 else Total(xs[..|xs|-1]) + xs[|xs|-1]
  }

  function Flatten<T>(parts: seq<seq<T>>): seq<T> {
    if parts == [] then [] else Flatten(parts[..|parts|-1]) + parts[|parts|-1]
  }

  predicate Distinct<T(==)>(xs: seq<T>) {
    forall i, k :: 0 <= i < k < |xs| ==> xs[i] != xs[k]
  }
}
