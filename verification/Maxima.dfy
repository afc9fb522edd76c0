/** Sums and zero-floored maxima of finite sequences, shared by the other modules. */
module Maxima {

  function Max(a: int, b: int): int {
    if a < b then b else a
  }

  function Sum(xs: seq<int>): int {
    if xs == [] then 0 else xs[0] + Sum(xs[1..])
  }

  lemma SumConcat(xs: seq<int>, ys: seq<int>)
    ensures Sum(xs + ys) == Sum(xs) + Sum(ys)
  {
    if xs == [] {
      assert xs + ys == ys;
    } else {
      assert (xs + ys)[1..] == xs[1..] + ys;
      SumConcat(xs[1..], ys);
    }
  }

  /** Raising one entry by one raises the sum by one. */
  lemma SumBump(xs: seq<int>, s: nat)
    requires s < |xs|
    ensures Sum(xs[s := xs[s] + 1]) == Sum(xs) + 1
  {
    var ys := xs[s := xs[s] + 1];
    assert xs == xs[..s] + ([xs[s]] + xs[s + 1..]);
    assert ys == xs[..s] + ([xs[s] + 1] + xs[s + 1..]);
    SumConcat(xs[..s], [xs[s]] + xs[s + 1..]);
    SumConcat(xs[..s], [xs[s] + 1] + xs[s + 1..]);
    SumConcat([xs[s]], xs[s + 1..]);
    SumConcat([xs[s] + 1], xs[s + 1..]);
  }

  /** Pointwise order carries over to sums, and strictly if it is strict somewhere. */
  lemma SumMonotone(xs: seq<int>, ys: seq<int>)
    requires |xs| == |ys|
    requires forall i :: 0 <= i < |xs| ==> xs[i] <= ys[i]
    ensures Sum(xs) <= Sum(ys)
    ensures xs != ys ==> Sum(xs) < Sum(ys)
  {
    if xs != [] {
      SumMonotone(xs[1..], ys[1..]);
      assert xs == [xs[0]] + xs[1..] && ys == [ys[0]] + ys[1..];
    }
  }

  /** The largest entry, or 0 when no entry is positive: a running `m = max(m, x)` from 0. */
  function MaxOr0(xs: seq<int>): (m: int)
    ensures m >= 0
    ensures forall i :: 0 <= i < |xs| ==> xs[i] <= m
    ensures m == 0 || m in xs
  {
    if xs == [] then 0
    else
      var n := |xs| - 1;
      assert xs == xs[..n] + [xs[n]];
      Max(MaxOr0(xs[..n]), xs[n])
  }

  /** `MaxOr0` is the least non-negative upper bound. */
  lemma MaxOr0Least(xs: seq<int>, bound: int)
    requires bound >= 0 && forall i :: 0 <= i < |xs| ==> xs[i] <= bound
    ensures MaxOr0(xs) <= bound
  {
  }

  lemma MaxOr0Monotone(xs: seq<int>, ys: seq<int>)
    requires |xs| == |ys|
    requires forall i :: 0 <= i < |xs| ==> xs[i] <= ys[i]
    ensures MaxOr0(xs) <= MaxOr0(ys)
  {
    MaxOr0Least(xs, MaxOr0(ys));
  }

  lemma MaxOr0Pointwise(xs: seq<int>, ys: seq<int>, zs: seq<int>)
    requires |xs| == |ys| == |zs|
    requires forall i :: 0 <= i < |xs| ==> zs[i] == Max(xs[i], ys[i])
    ensures MaxOr0(zs) == Max(MaxOr0(xs), MaxOr0(ys))
  {
    MaxOr0Monotone(xs, zs);
    MaxOr0Monotone(ys, zs);
    MaxOr0Least(zs, Max(MaxOr0(xs), MaxOr0(ys)));
  }

  /** Two multiples of d less than d apart, each on its own side, are ordered. */
  lemma MultiplesOrdered(p: int, q: int, d: int)
    requires d > 0 && p * d < q * d + d
    ensures p <= q
  {
    assert (p - q - 1) * d == p * d - q * d - d < 0;
  }
}
