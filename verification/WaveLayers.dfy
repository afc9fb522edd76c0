/** Orders of individual layers. Layers of one stage are interchangeable, so searching over
    stage labels finds the best order of the layers themselves. */
module WaveLayers {
  import opened Maxima
  import opened WaveModel
  import opened WaveTrace
  import opened WaveOptimum

  function Iota(n: nat): seq<nat> {
    seq(n, i requires i >= 0 => i)
  }

  /** `perm` lists every layer index below n exactly once. */
  ghost predicate Permutation(perm: seq<nat>, n: nat) {
    multiset(perm) == multiset(Iota(n))
  }

  predicate Indices(perm: seq<nat>, n: nat) {
    forall i :: 0 <= i < |perm| ==> perm[i] < n
  }

  lemma PermutationInRange(perm: seq<nat>, n: nat)
    requires Permutation(perm, n)
    ensures |perm| == n && Indices(perm, n)
  {
    assert |multiset(perm)| == |multiset(Iota(n))|;
    forall i | 0 <= i < |perm| ensures perm[i] < n {
      assert perm[i] in multiset(perm);
      assert perm[i] in Iota(n);
    }
  }

  function LabelsOf(stageOf: seq<nat>, perm: seq<nat>): (labels: seq<nat>)
    requires Indices(perm, |stageOf|)
    ensures |labels| == |perm|
  {
    seq(|perm|, i requires 0 <= i < |perm| => stageOf[perm[i]])
  }

  /** Every balance change of rank r when the layers run in this order, layer by layer. */
  function LayerDeltas(leg: Leg, r: nat, stageOf: seq<nat>, perm: seq<nat>, b: nat): seq<int>
    requires Indices(perm, |stageOf|)
  {
    if perm == [] then []
    else
      var owned := stageOf[perm[0]] == r;
      WaveDeltas(WaveCommit(leg, owned), WaveRelease(leg, owned), b)
      + LayerDeltas(leg, r, stageOf, perm[1..], b)
  }

  /** The worst rank's largest balance over the run, rounded up to whole bytes. */
  function LayerPeak(flip: Flip, stageOf: seq<nat>, perm: seq<nat>): int
    requires Indices(perm, |stageOf|)
  {
    var b := Blocks(flip.blocks);
    MaxOr0(seq(|flip.legs|, r requires 0 <= r < |flip.legs| =>
      CeilDiv(HighWater(LayerDeltas(flip.legs[r], r, stageOf, perm, b)), b)))
  }

  /** The flip's counts are the numbers of layers per stage. */
  ghost predicate CountsOf(flip: Flip, stageOf: seq<nat>) {
    && flip.Valid()
    && Labels(stageOf, |flip.counts|)
    && forall s :: 0 <= s < |flip.counts| ==> multiset(stageOf)[s] == flip.counts[s]
  }

  lemma {:induction false} LayerDeltasByLabel(leg: Leg, r: nat, stageOf: seq<nat>, perm: seq<nat>, b: nat)
    requires Indices(perm, |stageOf|)
    ensures LayerDeltas(leg, r, stageOf, perm, b) == RankDeltas(leg, r, LabelsOf(stageOf, perm), b)
  {
    if perm != [] {
      assert LabelsOf(stageOf, perm)[1..] == LabelsOf(stageOf, perm[1..]);
      LayerDeltasByLabel(leg, r, stageOf, perm[1..], b);
    }
  }

  /** A layer order peaks exactly as its stage labels do. */
  lemma LayerPeakByLabel(flip: Flip, stageOf: seq<nat>, perm: seq<nat>)
    requires CountsOf(flip, stageOf) && Indices(perm, |stageOf|)
    ensures LayerPeak(flip, stageOf, perm) == OrderPeak(flip, LabelsOf(stageOf, perm))
  {
    var b, labels := Blocks(flip.blocks), LabelsOf(stageOf, perm);
    var waters := seq(|flip.legs|, r requires 0 <= r < |flip.legs| =>
      CeilDiv(HighWater(LayerDeltas(flip.legs[r], r, stageOf, perm, b)), b));
    forall r | 0 <= r < |flip.legs| ensures waters[r] == RankHighWaters(flip, labels)[r] {
      LayerDeltasByLabel(flip.legs[r], r, stageOf, perm, b);
    }
    assert waters == RankHighWaters(flip, labels);
    PeakIsSimulated(flip, labels);
  }

  function Without<T>(xs: seq<T>, k: nat): seq<T>
    requires k < |xs|
  {
    xs[..k] + xs[k + 1..]
  }

  lemma WithoutCounts<T>(xs: seq<T>, k: nat)
    requires k < |xs|
    ensures multiset(xs) == multiset(Without(xs, k)) + multiset{xs[k]}
    ensures multiset(Without(xs, k)) == multiset(xs) - multiset{xs[k]}
  {
    assert xs == xs[..k] + [xs[k]] + xs[k + 1..];
  }

  lemma LabelsWithout(stageOf: seq<nat>, xs: seq<nat>, k: nat)
    requires Indices(xs, |stageOf|) && k < |xs|
    ensures Indices(Without(xs, k), |stageOf|)
    ensures multiset(LabelsOf(stageOf, xs))
            == multiset(LabelsOf(stageOf, Without(xs, k))) + multiset{stageOf[xs[k]]}
  {
    assert LabelsOf(stageOf, Without(xs, k)) == Without(LabelsOf(stageOf, xs), k);
    WithoutCounts(LabelsOf(stageOf, xs), k);
  }

  /** Relabelling two arrangements of the same indices gives two arrangements of the same labels. */
  lemma {:induction false} SameLabels(stageOf: seq<nat>, xs: seq<nat>, ys: seq<nat>)
    requires Indices(xs, |stageOf|) && Indices(ys, |stageOf|)
    requires multiset(xs) == multiset(ys)
    ensures multiset(LabelsOf(stageOf, xs)) == multiset(LabelsOf(stageOf, ys))
    decreases |xs|
  {
    assert |multiset(xs)| == |multiset(ys)|;
    if xs != [] {
      assert xs[0] in multiset(ys);
      var k :| 0 <= k < |ys| && ys[k] == xs[0];
      WithoutCounts(xs, 0);
      WithoutCounts(ys, k);
      LabelsWithout(stageOf, xs, 0);
      LabelsWithout(stageOf, ys, k);
      SameLabels(stageOf, Without(xs, 0), Without(ys, k));
    }
  }

  lemma PermutationLabels(stageOf: seq<nat>, perm: seq<nat>)
    requires Permutation(perm, |stageOf|)
    ensures Indices(perm, |stageOf|)
    ensures multiset(LabelsOf(stageOf, perm)) == multiset(stageOf)
  {
    PermutationInRange(perm, |stageOf|);
    SameLabels(stageOf, perm, Iota(|stageOf|));
    assert LabelsOf(stageOf, Iota(|stageOf|)) == stageOf;
  }

  /** `perm` arranges the layers in `pool` so that their stage labels are `labels`. */
  ghost predicate Realises(stageOf: seq<nat>, pool: seq<nat>, labels: seq<nat>, perm: seq<nat>) {
    && multiset(perm) == multiset(pool)
    && Indices(perm, |stageOf|)
    && LabelsOf(stageOf, perm) == labels
  }

  lemma PlaceFirst(stageOf: seq<nat>, pool: seq<nat>, k: nat, labels: seq<nat>, sub: seq<nat>)
    requires Indices(pool, |stageOf|) && k < |pool|
    requires labels != [] && stageOf[pool[k]] == labels[0]
    requires Realises(stageOf, Without(pool, k), labels[1..], sub)
    ensures Realises(stageOf, pool, labels, [pool[k]] + sub)
  {
    WithoutCounts(pool, k);
    var perm := [pool[k]] + sub;
    assert LabelsOf(stageOf, perm) == [labels[0]] + LabelsOf(stageOf, sub);
  }

  /** Every label order with the right counts is the label order of some layer order. */
  lemma {:induction false} LabelsRealised(stageOf: seq<nat>, pool: seq<nat>, labels: seq<nat>)
    returns (perm: seq<nat>)
    requires Indices(pool, |stageOf|)
    requires multiset(labels) == multiset(LabelsOf(stageOf, pool))
    ensures Realises(stageOf, pool, labels, perm)
    decreases |labels|
  {
    var have := LabelsOf(stageOf, pool);
    assert |multiset(labels)| == |multiset(have)|;
    if labels == [] {
      perm := [];
    } else {
      assert labels[0] in multiset(have);
      var k :| 0 <= k < |have| && have[k] == labels[0];
      WithoutCounts(labels, 0);
      LabelsWithout(stageOf, pool, k);
      assert Without(labels, 0) == labels[1..];
      var sub := LabelsRealised(stageOf, Without(pool, k), labels[1..]);
      PlaceFirst(stageOf, pool, k, labels, sub);
      perm := [pool[k]] + sub;
    }
  }

  lemma CompleteIsPermuted(flip: Flip, stageOf: seq<nat>, labels: seq<nat>)
    requires CountsOf(flip, stageOf)
    ensures CompleteOrder(flip, labels) <==> multiset(labels) == multiset(stageOf)
  {
    if CompleteOrder(flip, labels) {
      forall s ensures multiset(labels)[s] == multiset(stageOf)[s] {
        if s in multiset(labels) || s in multiset(stageOf) {
          assert s in labels || s in stageOf;
          assert 0 <= s < |flip.counts|;
        }
      }
    }
    if multiset(labels) == multiset(stageOf) {
      forall i | 0 <= i < |labels| ensures labels[i] < |flip.counts| {
        assert labels[i] in multiset(labels);
      }
    }
  }

  /** The search's peak is the minimum over all orders of the individual layers: none beats it,
      and one attains it. */
  lemma SolveIsLayerOptimum(flip: Flip, stageOf: seq<nat>) returns (perm: seq<nat>)
    requires CountsOf(flip, stageOf)
    ensures Permutation(perm, |stageOf|) && Indices(perm, |stageOf|)
    ensures LabelsOf(stageOf, perm) == Solve(flip).order
    ensures LayerPeak(flip, stageOf, perm) == Solve(flip).peak
    ensures forall other | Permutation(other, |stageOf|) ::
              Indices(other, |stageOf|) && Solve(flip).peak <= LayerPeak(flip, stageOf, other)
  {
    SolveIsOptimal(flip);
    CompleteIsPermuted(flip, stageOf, Solve(flip).order);
    assert LabelsOf(stageOf, Iota(|stageOf|)) == stageOf;
    perm := LabelsRealised(stageOf, Iota(|stageOf|), Solve(flip).order);
    LayerPeakByLabel(flip, stageOf, perm);
    forall other | Permutation(other, |stageOf|)
      ensures Indices(other, |stageOf|) && Solve(flip).peak <= LayerPeak(flip, stageOf, other)
    {
      PermutationLabels(stageOf, other);
      CompleteIsPermuted(flip, stageOf, LabelsOf(stageOf, other));
      LayerPeakByLabel(flip, stageOf, other);
    }
  }
}
