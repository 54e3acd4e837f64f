/** Sums of weights over a sequence: what the measures and counts are made of. */
module Sums {

  function Sum<T>(xs: seq<T>, weight: T -> nat): nat {
    if xs == [] then 0 else Sum(xs[..|xs| - 1], weight) + weight(xs[|xs| - 1])
  }

  /** Replacing one element changes the sum by the difference of the weights. */
  lemma {:induction false} SumUpdate<T>(xs: seq<T>, k: nat, x: T, weight: T -> nat)
    requires k < |xs|
    ensures Sum(xs[k := x], weight) == Sum(xs, weight) - weight(xs[k]) + weight(x)
  {
    var last := |xs| - 1;
    if k == last {
      assert xs[k := x][..last] == xs[..last];
    } else {
      SumUpdate(xs[..last], k, x, weight);
      assert xs[k := x][..last] == xs[..last][k := x];
    }
  }

  lemma {:induction false} SumOfEqual<T>(xs: seq<T>, weight: T -> nat, w: nat)
    requires forall k :: 0 <= k < |xs| ==> weight(xs[k]) == w
    ensures Sum(xs, weight) == w * |xs|
  {
    if xs != [] {
      SumOfEqual(xs[..|xs| - 1], weight, w);
      assert w * |xs| == w * (|xs| - 1) + w;
    }
  }
}
