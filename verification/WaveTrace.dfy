/** The flip seen instant by instant. A wave cut into B blocks commits one block and releases
    one block, B times; a rank's peak is the largest balance it ever reaches. Amounts are
    scaled by B so that a block is a whole number of units. */
module WaveTrace {
  import opened Maxima
  import opened WaveModel
  import opened WaveRounding

  /** Block counts below one mean one block. */
  function Blocks(blocks: int): (b: int)
    ensures b >= 1
  {
    if blocks <= 1 then 1 else blocks
  }

  /** B times: commit a block, release a block. */
  function WaveDeltas(c: int, d: int, b: nat): (ds: seq<int>)
    ensures |ds| == 2 * b
  {
    if b == 0 then [] else [c, -d] + WaveDeltas(c, d, b - 1)
  }

  /** Every balance change of rank r over a whole order, owned waves being those of stage r. */
  function RankDeltas(leg: Leg, r: nat, order: seq<nat>, b: nat): seq<int> {
    if order == [] then []
    else
      WaveDeltas(WaveCommit(leg, order[0] == r), WaveRelease(leg, order[0] == r), b)
      + RankDeltas(leg, r, order[1..], b)
  }

  /** The largest balance reached, starting from 0. */
  function HighWater(ds: seq<int>): (m: int)
    ensures m >= 0
  {
    if ds == [] then 0 else Max(0, ds[0] + HighWater(ds[1..]))
  }

  /** `HighWater` is the maximum over all instants of the running balance. */
  lemma {:induction false} HighWaterIsMaxPrefix(ds: seq<int>)
    ensures forall k :: 0 <= k <= |ds| ==> Sum(ds[..k]) <= HighWater(ds)
    ensures exists k :: 0 <= k <= |ds| && Sum(ds[..k]) == HighWater(ds)
  {
    if ds == [] {
      assert ds[..0] == [];
    } else {
      HighWaterIsMaxPrefix(ds[1..]);
      forall k | 0 <= k <= |ds| ensures Sum(ds[..k]) <= HighWater(ds) {
        if k > 0 { assert ds[..k][1..] == ds[1..][..k - 1]; }
      }
      if HighWater(ds) == 0 {
        assert Sum(ds[..0]) == HighWater(ds);
      } else {
        var k :| 0 <= k <= |ds[1..]| && Sum(ds[1..][..k]) == HighWater(ds[1..]);
        assert ds[..k + 1][1..] == ds[1..][..k];
        assert Sum(ds[..k + 1]) == HighWater(ds);
      }
    }
  }

  lemma {:induction false} HighWaterConcat(xs: seq<int>, ys: seq<int>)
    ensures HighWater(xs + ys) == Max(HighWater(xs), Sum(xs) + HighWater(ys))
  {
    if xs == [] {
      assert xs + ys == ys;
    } else {
      assert (xs + ys)[1..] == xs[1..] + ys;
      HighWaterConcat(xs[1..], ys);
    }
  }

  // ----- one wave

  lemma {:induction false} WaveSum(c: int, d: int, b: nat)
    ensures Sum(WaveDeltas(c, d, b)) == b * (c - d)
  {
    if b > 0 {
      WaveSum(c, d, b - 1);
      SumConcat([c, -d], WaveDeltas(c, d, b - 1));
      assert Sum([c, -d]) == c + Sum([-d]) == c - d;
      assert b * (c - d) == (b - 1) * (c - d) + (c - d);
    }
  }

  /** k times x, added up. */
  function Rise(k: nat, x: int): (r: int)
    ensures x >= 0 ==> r >= 0
    ensures x <= 0 ==> r <= 0
  {
    if k == 0 then 0 else x + Rise(k - 1, x)
  }

  lemma {:induction false} RiseIsProduct(k: nat, x: int)
    ensures Rise(k, x) == k * x
  {
    if k > 0 {
      RiseIsProduct(k - 1, x);
      assert k * x == (k - 1) * x + x;
    }
  }

  /** Balances are extreme at the first or at the last commit of the wave. */
  lemma {:induction false} WaveHighWaterRise(c: int, d: int, b: nat)
    requires c >= 0 && d >= 0 && b >= 1
    ensures HighWater(WaveDeltas(c, d, b)) == c + Max(0, Rise(b - 1, c - d))
  {
    var block, rest := [c, -d], WaveDeltas(c, d, b - 1);
    assert block[1..] == [-d];
    assert HighWater([-d]) == 0;
    assert Sum(block) == c + Sum([-d]) == c - d;
    HighWaterConcat(block, rest);
    if b > 1 { WaveHighWaterRise(c, d, b - 1); }
  }

  lemma WaveHighWater(c: int, d: int, b: nat)
    requires c >= 0 && d >= 0 && b >= 1
    ensures HighWater(WaveDeltas(c, d, b)) == Max(c, b * c - (b - 1) * d)
  {
    WaveHighWaterRise(c, d, b);
    RiseIsProduct(b - 1, c - d);
    assert b * c - (b - 1) * d == c + (b - 1) * (c - d);
  }

  /** The closed form is the rounded-up high water of the blocked wave, for every block count. */
  lemma InnerIsWaveHighWater(c: nat, d: nat, blocks: int)
    ensures Inner(c, d, blocks) == CeilDiv(HighWater(WaveDeltas(c, d, Blocks(blocks))), Blocks(blocks))
  {
    var b := Blocks(blocks);
    WaveHighWater(c, d, b);
    if b == 1 { CeilDivUnique(c, 1, c); }
  }

  /** A wave's peak is at least its net growth, and never negative. */
  lemma InnerCoversNet(c: nat, d: nat, blocks: int)
    ensures Inner(c, d, blocks) >= c - d
    ensures Inner(c, d, blocks) >= 0
  {
    var b := Blocks(blocks);
    if b > 1 {
      var num := Max(c, b * c - (b - 1) * d);
      assert b * c - (b - 1) * d == (c - d) * b + d;
      CeilDivMonotone((c - d) * b, num, b);
      CeilDivUnique((c - d) * b, b, c - d);
      CeilDivMonotone(0, num, b);
    }
  }

  // ----- one rank over a whole order

  /** Rank r's peak as the search prices it: the balance before each wave plus the wave's own peak. */
  function RankPeak(leg: Leg, r: nat, base: int, order: seq<nat>, blocks: int): int
    decreases |order|
  {
    if order == [] then 0
    else
      var c, d := WaveCommit(leg, order[0] == r), WaveRelease(leg, order[0] == r);
      Max(base + Inner(c, d, blocks), RankPeak(leg, r, base + c - d, order[1..], blocks))
  }

  /** One wave followed by the rest: the high water is reached in the one or in the other. */
  lemma WaveThenRest(c: nat, d: nat, blocks: int, rest: seq<int>)
    ensures var b := Blocks(blocks);
            CeilDiv(HighWater(WaveDeltas(c, d, b) + rest), b)
            == Max(Inner(c, d, blocks), c - d + CeilDiv(HighWater(rest), b))
  {
    var b := Blocks(blocks);
    var wave := WaveDeltas(c, d, b);
    HighWaterConcat(wave, rest);
    WaveSum(c, d, b);
    CeilDivMaxShift(HighWater(wave), HighWater(rest), b, c - d);
    InnerIsWaveHighWater(c, d, blocks);
  }

  /** From any balance, pricing wave by wave equals watching every instant. */
  lemma {:induction false} RankPeakIsHighWater(leg: Leg, r: nat, base: int, order: seq<nat>, blocks: int, hi: int)
    requires hi >= 0 && hi >= base
    ensures var b := Blocks(blocks);
            Max(hi, RankPeak(leg, r, base, order, blocks))
            == Max(hi, base + CeilDiv(HighWater(RankDeltas(leg, r, order, b)), b))
    decreases |order|
  {
    var b := Blocks(blocks);
    if order == [] {
      CeilDivUnique(0, b, 0);
    } else {
      var c, d := WaveCommit(leg, order[0] == r), WaveRelease(leg, order[0] == r);
      WaveThenRest(c, d, blocks, RankDeltas(leg, r, order[1..], b));
      InnerCoversNet(c, d, blocks);
      RankPeakIsHighWater(leg, r, base + c - d, order[1..], blocks, Max(hi, base + Inner(c, d, blocks)));
    }
  }

  // ----- all ranks

  function RankHighWaters(flip: Flip, order: seq<nat>): (hs: seq<int>)
    requires flip.Valid()
    ensures |hs| == |flip.legs|
  {
    var b := Blocks(flip.blocks);
    seq(|flip.legs|, r requires 0 <= r < |flip.legs| =>
      CeilDiv(HighWater(RankDeltas(flip.legs[r], r, order, b)), b))
  }

  /** Placing stage s moves every balance by that wave's commit minus release. */
  lemma BaseBump(flip: Flip, placed: seq<nat>, s: nat, r: nat)
    requires flip.Valid() && |placed| == |flip.counts| && r < |placed| && s < |placed|
    ensures Base(flip, Bump(placed, s), r)
            == Base(flip, placed, r) + WaveCommit(flip.legs[r], s == r) - WaveRelease(flip.legs[r], s == r)
  {
    SumBump(placed, s);
    var leg := flip.legs[r];
    var k, m := Sum(placed), placed[r];
    assert (k + 1) * leg.commit == k * leg.commit + leg.commit;
    assert (k + 1) * leg.release == k * leg.release + leg.release;
    assert (m + 1) * leg.commit == m * leg.commit + leg.commit;
    assert (m + 1) * leg.release == m * leg.release + leg.release;
  }

  function RankPeaks(flip: Flip, placed: seq<nat>, order: seq<nat>): (ps: seq<int>)
    requires flip.Valid() && |placed| == |flip.counts|
    ensures |ps| == |placed|
  {
    seq(|placed|, r requires 0 <= r < |placed| =>
      RankPeak(flip.legs[r], r, Base(flip, placed, r), order, flip.blocks))
  }

  lemma RankPeaksStep(flip: Flip, placed: seq<nat>, order: seq<nat>, r: nat)
    requires flip.Valid() && |placed| == |flip.counts| && Labels(order, |placed|)
    requires order != [] && r < |placed|
    ensures RankPeaks(flip, placed, order)[r]
            == Max(RankStep(flip, placed, order[0], r),
                   RankPeaks(flip, Bump(placed, order[0]), order[1..])[r])
  {
    BaseBump(flip, placed, order[0], r);
  }

  /** The search's peak is the largest of the ranks' own peaks. */
  lemma {:induction false} PeakByRank(flip: Flip, placed: seq<nat>, order: seq<nat>)
    requires flip.Valid() && |placed| == |flip.counts| && Labels(order, |placed|)
    ensures Peak(flip, placed, order) == MaxOr0(RankPeaks(flip, placed, order))
    decreases |order|
  {
    var peaks := RankPeaks(flip, placed, order);
    if order == [] {
      MaxOr0Least(peaks, 0);
    } else {
      var s, next := order[0], Bump(placed, order[0]);
      var tails := RankPeaks(flip, next, order[1..]);
      PeakByRank(flip, next, order[1..]);
      var steps := seq(|placed|, r requires 0 <= r < |placed| => RankStep(flip, placed, s, r));
      forall r | 0 <= r < |placed| ensures peaks[r] == Max(steps[r], tails[r]) {
        RankPeaksStep(flip, placed, order, r);
      }
      MaxOr0Pointwise(steps, tails, peaks);
    }
  }

  lemma SumZeros(n: nat)
    ensures Sum(Zeros(n)) == 0
  {
    if n > 0 {
      assert Zeros(n)[1..] == Zeros(n - 1);
      SumZeros(n - 1);
    }
  }

  lemma RankPeakFromZero(flip: Flip, order: seq<nat>, r: nat)
    requires flip.Valid() && r < |flip.counts|
    ensures Max(0, RankPeaks(flip, Zeros(|flip.counts|), order)[r]) == Max(0, RankHighWaters(flip, order)[r])
  {
    SumZeros(|flip.counts|);
    assert Base(flip, Zeros(|flip.counts|), r) == 0;
    RankPeakIsHighWater(flip.legs[r], r, 0, order, flip.blocks, 0);
  }

  /** Sequences that agree above zero have the same zero-floored maximum. */
  lemma MaxOr0Agree(xs: seq<int>, ys: seq<int>)
    requires |xs| == |ys|
    requires forall i :: 0 <= i < |xs| ==> Max(0, xs[i]) == Max(0, ys[i])
    ensures MaxOr0(xs) == MaxOr0(ys)
  {
    MaxOr0Least(xs, MaxOr0(ys));
    MaxOr0Least(ys, MaxOr0(xs));
  }

  /** The peak the search minimises is the worst rank's largest balance at any instant of the
      blocked run, rounded up to whole bytes. */
  lemma PeakIsSimulated(flip: Flip, order: seq<nat>)
    requires flip.Valid() && Labels(order, |flip.counts|)
    ensures Peak(flip, Zeros(|flip.counts|), order) == MaxOr0(RankHighWaters(flip, order))
  {
    var z := Zeros(|flip.counts|);
    PeakByRank(flip, z, order);
    forall r | 0 <= r < |z|
      ensures Max(0, RankPeaks(flip, z, order)[r]) == Max(0, RankHighWaters(flip, order)[r])
    {
      RankPeakFromZero(flip, order, r);
    }
    MaxOr0Agree(RankPeaks(flip, z, order), RankHighWaters(flip, order));
  }
}
