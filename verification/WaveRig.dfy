/** The rig's own sizes: when its two flip directions have the same optimum. */
module WaveRig {
  import opened Basics
  import opened Maxima
  import opened WaveModel
  import opened WaveRounding
  import opened WaveTrace
  import opened WaveOptimum
  import opened WaveLaws

  const RIG_MAP_SIZES: seq<nat> := [7, 5, 4]
  const RIG_VEC: seq<nat> := [14, 10, 8]

  /** Spans per rank: a TP layer is this rank's head share, a PP layer all heads. */
  function Legs(poolRows: nat, rowBytes: nat, direction: Direction): (legs: seq<Leg>)
    ensures |legs| == 3
  {
    var ppSpan := rowBytes * poolRows;
    seq(3, r requires 0 <= r < 3 =>
      var tpSpan := rowBytes * RIG_VEC[r] / 32 * poolRows;
      if direction == PpToTp then Leg(tpSpan, ppSpan, true) else Leg(ppSpan, tpSpan, false))
  }

  function RigFlip(poolRows: nat, rowBytes: nat, blocks: int, direction: Direction): (flip: Flip)
    ensures flip.Valid()
  {
    Flip(Legs(poolRows, rowBytes, direction), RIG_MAP_SIZES, blocks)
  }

  /** Per pool row: what rank r commits in 16 waves against what it releases on its own. */
  function RowGap(rowBytes: nat, r: nat): int
    requires r < 3
  {
    16 * (rowBytes * RIG_VEC[r] / 32) - RIG_MAP_SIZES[r] * rowBytes
  }

  lemma RowGapSign(rowBytes: nat, r: nat)
    requires r < 3
    ensures rowBytes % 16 == 0 ==> RowGap(rowBytes, r) == 0
    ensures rowBytes % 16 != 0 && r == 0 ==> RowGap(rowBytes, r) < 0
  {
    var k, m := rowBytes / 16, rowBytes % 16;
    assert rowBytes == 16 * k + m;
    if r == 0 {
      assert rowBytes * 14 / 32 == (224 * k + 14 * m) / 32 == 7 * k + 14 * m / 32;
    } else if r == 1 {
      assert rowBytes * 10 / 32 == (160 * k + 10 * m) / 32 == 5 * k + 10 * m / 32;
    } else {
      assert rowBytes * 8 / 32 == (128 * k + 8 * m) / 32 == 4 * k + 8 * m / 32;
    }
  }

  /** Truncating a head share loses less than a byte a wave. */
  lemma RowGapWithin(rowBytes: nat, r: nat)
    requires r < 3
    ensures -15 <= RowGap(rowBytes, r) <= 0
  {
    var whole := RIG_MAP_SIZES[r] * rowBytes;
    assert rowBytes * RIG_VEC[r] == 2 * whole;
  }

  lemma RigImbalance(poolRows: nat, rowBytes: nat, blocks: int, r: nat)
    requires r < 3
    ensures Imbalance(RigFlip(poolRows, rowBytes, blocks, PpToTp), r) == RowGap(rowBytes, r) * poolRows
  {
    assert Sum(RIG_MAP_SIZES) == 16 by {
      assert RIG_MAP_SIZES[1..] == [5, 4] && [5, 4][1..] == [4];
      assert Sum([4]) == 4 && Sum([5, 4]) == 9;
    }
    var share, own := rowBytes * RIG_VEC[r] / 32, RIG_MAP_SIZES[r];
    assert (16 * share - own * rowBytes) * poolRows == 16 * (share * poolRows) - own * (rowBytes * poolRows);
  }

  /** On the rig a flip is balanced exactly when no head share is truncated. */
  lemma RigBalanced(poolRows: nat, rowBytes: nat, blocks: int)
    ensures Balanced(RigFlip(poolRows, rowBytes, blocks, PpToTp)) <==> rowBytes % 16 == 0 || poolRows == 0
  {
    var f := RigFlip(poolRows, rowBytes, blocks, PpToTp);
    forall r | 0 <= r < 3
      ensures rowBytes % 16 == 0 || poolRows == 0 ==> Imbalance(f, r) == 0
      ensures rowBytes % 16 != 0 && poolRows > 0 && r == 0 ==> Imbalance(f, r) < 0
    {
      RowGapSign(rowBytes, r);
      RigImbalance(poolRows, rowBytes, blocks, r);
      if RowGap(rowBytes, r) < 0 && poolRows > 0 { assert RowGap(rowBytes, r) * poolRows < 0; }
    }
    if rowBytes % 16 != 0 && poolRows > 0 { assert Imbalance(f, 0) < 0; }
  }

  /** The two directions the tool prices are mirror images, so with 16-byte-aligned rows its
      pp_to_tp and tp_to_pp columns are equal. */
  lemma RigDirectionsAgree(poolRows: nat, rowBytes: nat, blocks: int)
    ensures RigFlip(poolRows, rowBytes, blocks, TpToPp) == Mirror(RigFlip(poolRows, rowBytes, blocks, PpToTp))
    ensures rowBytes % 16 == 0 || poolRows == 0 ==>
              Solve(RigFlip(poolRows, rowBytes, blocks, TpToPp)).peak
              == Solve(RigFlip(poolRows, rowBytes, blocks, PpToTp)).peak
  {
    var f := RigFlip(poolRows, rowBytes, blocks, PpToTp);
    assert RigFlip(poolRows, rowBytes, blocks, TpToPp).legs == Mirror(f).legs;
    RigBalanced(poolRows, rowBytes, blocks);
    if Balanced(f) { MirrorOptimum(f); }
  }

  /** For every row size tp_to_pp needs at least what pp_to_tp does, and at most 15 bytes a pool row more. */
  lemma RigDirectionsWithin(poolRows: nat, rowBytes: nat, blocks: int)
    ensures var there, home := RigFlip(poolRows, rowBytes, blocks, PpToTp), RigFlip(poolRows, rowBytes, blocks, TpToPp);
            Solve(there).peak <= Solve(home).peak <= Solve(there).peak + 15 * poolRows
  {
    hide Solve, Imbalance;
    var f := RigFlip(poolRows, rowBytes, blocks, PpToTp);
    RigDirectionsAgree(poolRows, rowBytes, blocks);
    forall r | 0 <= r < |f.legs| ensures -(15 * poolRows) <= Imbalance(f, r) <= 0 {
      RowGapWithin(rowBytes, r);
      RigImbalance(poolRows, rowBytes, blocks, r);
      ProductWithin(RowGap(rowBytes, r), poolRows);
    }
    MirrorOptimumWithin(f, 15 * poolRows);
  }

  lemma ProductWithin(gap: int, rows: nat)
    requires -15 <= gap <= 0
    ensures -(15 * rows) <= gap * rows <= 0
  {
  }

  // ----- where the directions differ

  function Share(rowBytes: nat, r: nat): nat
    requires r < 3
  {
    rowBytes * RIG_VEC[r] / 32
  }

  /** The cheapest wave tp_to_pp can start with: rank 0's, which has the most to release. */
  function FirstWave(poolRows: nat, rowBytes: nat, blocks: int): int {
    Inner(rowBytes * poolRows, Share(rowBytes, 0) * poolRows, blocks)
  }

  /** Sixteen shares are at most the rank's layers, and fewer on rank 0 if the row is not aligned. */
  lemma Shares(rowBytes: nat, r: nat)
    requires r < 3
    ensures 16 * Share(rowBytes, r) <= RIG_MAP_SIZES[r] * rowBytes
    ensures Share(rowBytes, r) <= Share(rowBytes, 0) <= rowBytes
    ensures rowBytes % 16 != 0 ==> 16 * Share(rowBytes, 0) < 7 * rowBytes
  {
    RowGapWithin(rowBytes, r);
    RowGapWithin(rowBytes, 0);
    RowGapSign(rowBytes, 0);
  }

  /** Releasing more never raises a wave's peak. */
  lemma InnerFalls(c: nat, d: nat, d': nat, blocks: int)
    requires d <= d'
    ensures Inner(c, d', blocks) <= Inner(c, d, blocks)
  {
    if blocks > 1 {
      assert (blocks - 1) * d <= (blocks - 1) * d';
      CeilDivMonotone(Max(c, blocks * c - (blocks - 1) * d'), Max(c, blocks * c - (blocks - 1) * d), blocks);
    }
  }

  /** No order peaks below its first wave. */
  lemma FirstWaveCounts(flip: Flip, order: seq<nat>)
    requires flip.Valid() && order != [] && Labels(order, |flip.counts|)
    ensures var leg := flip.legs[order[0]];
            OrderPeak(flip, order) >= Inner(WaveCommit(leg, true), WaveRelease(leg, true), flip.blocks)
  {
    var z, s := Zeros(|flip.counts|), order[0];
    SumZeros(|z|);
    assert Base(flip, z, s) == 0;
    var steps := seq(|z|, r requires 0 <= r < |z| => RankStep(flip, z, s, r));
    assert steps[s] <= MaxOr0(steps);
  }

  lemma FirstWaveCheapest(poolRows: nat, rowBytes: nat, blocks: int, s: nat)
    requires s < 3
    ensures FirstWave(poolRows, rowBytes, blocks) <= Inner(rowBytes * poolRows, Share(rowBytes, s) * poolRows, blocks)
  {
    hide Share, Inner;
    Shares(rowBytes, s);
    ScaledAtMost(Share(rowBytes, s), Share(rowBytes, 0), poolRows);
    InnerFalls(rowBytes * poolRows, Share(rowBytes, s) * poolRows, Share(rowBytes, 0) * poolRows, blocks);
  }

  lemma HomeCostsFirstWave(poolRows: nat, rowBytes: nat, blocks: int)
    ensures Solve(RigFlip(poolRows, rowBytes, blocks, TpToPp)).peak >= FirstWave(poolRows, rowBytes, blocks)
  {
    hide FirstWave, Solve, OrderPeak, Inner;
    var home := RigFlip(poolRows, rowBytes, blocks, TpToPp);
    SolveIsOptimal(home);
    var order := Solve(home).order;
    assert multiset(order)[0] == 7;
    FirstWaveCounts(home, order);
    FirstWaveCheapest(poolRows, rowBytes, blocks, order[0]);
  }

  /** The stage of each wave in an order that spreads the stages evenly. */
  function EvenLabel(wave: nat): nat {
    match wave
    case 0 => 0 case 1 => 1 case 2 => 2 case 3 => 0 case 4 => 1 case 5 => 0 case 6 => 2 case 7 => 0
    case 8 => 1 case 9 => 2 case 10 => 0 case 11 => 1 case 12 => 0 case 13 => 2 case 14 => 1 case _ => 0
  }

  /** That order from a wave on. */
  function EvenFrom(wave: nat): (order: seq<nat>)
    ensures Labels(order, 3)
    decreases 16 - wave
  {
    if wave >= 16 then [] else [EvenLabel(wave)] + EvenFrom(wave + 1)
  }

  /** From this wave on, having released `own` of its n layers, a rank is never more than nine
      sixteenths of a layer ahead, and it releases all of them. */
  predicate Even(r: nat, n: nat, wave: nat, own: nat)
    decreases 16 - wave
  {
    if wave >= 16 then own == n
    else if EvenLabel(wave) == r then wave * n - 16 * own <= 9 && Even(r, n, wave + 1, own + 1)
    else (wave + 1) * n - 16 * own <= 9 && Even(r, n, wave + 1, own)
  }

  lemma EvenIsEven(r: nat)
    requires r < 3
    ensures Even(r, RIG_MAP_SIZES[r], 0, 0)
  {
    assert Even(0, 7, 12, 5) && Even(1, 5, 12, 4) && Even(2, 4, 12, 3);
    assert Even(0, 7, 8, 4) && Even(1, 5, 8, 2) && Even(2, 4, 8, 2);
    assert Even(0, 7, 4, 2) && Even(1, 5, 4, 1) && Even(2, 4, 4, 1);
  }

  lemma EvenStep(r: nat, n: nat, wave: nat, own: nat)
    requires Even(r, n, wave, own) && wave < 16
    ensures var owned := EvenLabel(wave) == r;
            && (if owned then wave else wave + 1) * n - 16 * own <= 9
            && Even(r, n, wave + 1, if owned then own + 1 else own)
  {
    hide EvenLabel;
  }

  lemma {:induction false} EvenCounts(r: nat, n: nat, wave: nat, own: nat)
    requires Even(r, n, wave, own)
    ensures own + multiset(EvenFrom(wave))[r] == n
    decreases 16 - wave
  {
    hide EvenLabel;
    if wave < 16 { EvenCounts(r, n, wave + 1, if EvenLabel(wave) == r then own + 1 else own); }
  }

  lemma EvenIsComplete(poolRows: nat, rowBytes: nat, blocks: int)
    ensures CompleteOrder(RigFlip(poolRows, rowBytes, blocks, PpToTp), EvenFrom(0))
  {
    hide Even, EvenFrom, Legs;
    forall s | 0 <= s < 3 ensures multiset(EvenFrom(0))[s] == RIG_MAP_SIZES[s] {
      EvenIsEven(s);
      EvenCounts(s, RIG_MAP_SIZES[s], 0, 0);
    }
  }

  /** Rank r's balance per the counts: `waves` commits against `own` releases. */
  function Balance(poolRows: nat, rowBytes: nat, r: nat, waves: nat, own: nat): int
    requires r < 3
  {
    (waves * Share(rowBytes, r) - own * rowBytes) * poolRows
  }

  /** Nine sixteenths of a row are less than what rank 0's first wave grows by, if its share is cut. */
  lemma Ahead(n: nat, x: nat, t: nat, t0: nat, waves: nat, own: nat)
    requires 16 * t <= n * x && 16 * t0 < 7 * x && waves * n - 16 * own <= 9
    ensures waves * t - own * x < x - t0
  {
    assert waves * (16 * t) <= waves * (n * x);
    assert waves * (n * x) == (waves * n) * x;
    assert (waves * n) * x <= (9 + 16 * own) * x == 9 * x + 16 * (own * x);
  }

  lemma ScaledAtMost(a: nat, b: nat, m: nat)
    requires a <= b
    ensures a * m <= b * m
  {
  }

  lemma ScaledLess(a: int, b: int, m: nat)
    requires a < b && m > 0
    ensures a * m < b * m
  {
  }

  lemma AheadBelow(poolRows: nat, rowBytes: nat, r: nat, waves: nat, own: nat)
    requires rowBytes % 16 != 0 && poolRows > 0 && r < 3 && waves * RIG_MAP_SIZES[r] - 16 * own <= 9
    ensures Balance(poolRows, rowBytes, r, waves, own) < rowBytes * poolRows - Share(rowBytes, 0) * poolRows
  {
    hide Share;
    Shares(rowBytes, r);
    Ahead(RIG_MAP_SIZES[r], rowBytes, Share(rowBytes, r), Share(rowBytes, 0), waves, own);
    ScaledLess(waves * Share(rowBytes, r) - own * rowBytes, rowBytes - Share(rowBytes, 0), poolRows);
    assert (rowBytes - Share(rowBytes, 0)) * poolRows == rowBytes * poolRows - Share(rowBytes, 0) * poolRows;
  }

  /** One wave stays below another that releases more of a larger commit. */
  lemma WaveUnder(base: int, c: nat, d: nat, whole: nat, blocks: int, owned: bool)
    requires c <= d <= whole && (if owned then base else base + c) < whole - d
    ensures base + Inner(c, if owned then whole else 0, blocks) < Inner(whole, d, blocks)
  {
    var b := Blocks(blocks);
    InnerSplits(whole, d, blocks);
    CeilDivMonotone(c, d, b);
    CeilDivMonotone(0, d, b);
    if owned { InnerSplits(c, whole, blocks); } else { BareCommitCostsAll(c, blocks); }
  }

  lemma BalanceStep(poolRows: nat, rowBytes: nat, r: nat, waves: nat, own: nat)
    requires r < 3
    ensures Balance(poolRows, rowBytes, r, waves + 1, own)
            == Balance(poolRows, rowBytes, r, waves, own) + Share(rowBytes, r) * poolRows
    ensures Balance(poolRows, rowBytes, r, waves, own + 1)
            == Balance(poolRows, rowBytes, r, waves, own) - rowBytes * poolRows
  {
    hide Share;
    var t, k := Share(rowBytes, r), waves * Share(rowBytes, r) - own * rowBytes;
    assert (waves + 1) * t - own * rowBytes == k + t;
    assert waves * t - (own + 1) * rowBytes == k - rowBytes;
    assert (k + t) * poolRows == k * poolRows + t * poolRows;
    assert (k - rowBytes) * poolRows == k * poolRows - rowBytes * poolRows;
  }

  lemma WaveBelow(poolRows: nat, rowBytes: nat, blocks: int, r: nat, waves: nat, own: nat, owned: bool)
    requires rowBytes % 16 != 0 && poolRows > 0 && r < 3
    requires (if owned then waves else waves + 1) * RIG_MAP_SIZES[r] - 16 * own <= 9
    ensures Balance(poolRows, rowBytes, r, waves, own)
            + Inner(Share(rowBytes, r) * poolRows, if owned then rowBytes * poolRows else 0, blocks)
            < FirstWave(poolRows, rowBytes, blocks)
  {
    hide Share, Inner, Balance;
    var c, d, whole := Share(rowBytes, r) * poolRows, Share(rowBytes, 0) * poolRows, rowBytes * poolRows;
    Shares(rowBytes, r);
    ScaledAtMost(Share(rowBytes, r), Share(rowBytes, 0), poolRows);
    ScaledAtMost(Share(rowBytes, 0), rowBytes, poolRows);
    AheadBelow(poolRows, rowBytes, r, if owned then waves else waves + 1, own);
    BalanceStep(poolRows, rowBytes, r, waves, own);
    WaveUnder(Balance(poolRows, rowBytes, r, waves, own), c, d, whole, blocks, owned);
  }

  /** The even order keeps a rank below the other direction's first wave. */
  lemma {:induction false} EvenPeak(poolRows: nat, rowBytes: nat, blocks: int, r: nat, wave: nat, own: nat)
    requires rowBytes % 16 != 0 && poolRows > 0 && r < 3 && Even(r, RIG_MAP_SIZES[r], wave, own)
    ensures RankPeak(Leg(Share(rowBytes, r) * poolRows, rowBytes * poolRows, true), r,
                     Balance(poolRows, rowBytes, r, wave, own), EvenFrom(wave), blocks)
            < FirstWave(poolRows, rowBytes, blocks)
    decreases 16 - wave
  {
    hide Share, Inner, Balance, FirstWave, EvenLabel, Even;
    if wave >= 16 {
      WaveBelow(poolRows, rowBytes, blocks, r, 0, 0, true);
      InnerCoversNet(Share(rowBytes, r) * poolRows, rowBytes * poolRows, blocks);
      NoBalance(poolRows, rowBytes, r);
    } else {
      var owned := EvenLabel(wave) == r;
      EvenStep(r, RIG_MAP_SIZES[r], wave, own);
      var order := EvenFrom(wave);
      assert order[0] == EvenLabel(wave) && order[1..] == EvenFrom(wave + 1);
      WaveBelow(poolRows, rowBytes, blocks, r, wave, own, owned);
      BalanceStep(poolRows, rowBytes, r, wave, own);
      BalanceStep(poolRows, rowBytes, r, wave + 1, own);
      EvenPeak(poolRows, rowBytes, blocks, r, wave + 1, if owned then own + 1 else own);
    }
  }

  lemma NoBalance(poolRows: nat, rowBytes: nat, r: nat)
    requires r < 3
    ensures Balance(poolRows, rowBytes, r, 0, 0) == 0
  {
  }

  lemma ThereRankBelow(poolRows: nat, rowBytes: nat, blocks: int, r: nat)
    requires rowBytes % 16 != 0 && poolRows > 0 && r < 3
    ensures RankPeaks(RigFlip(poolRows, rowBytes, blocks, PpToTp), Zeros(3), EvenFrom(0))[r]
            < FirstWave(poolRows, rowBytes, blocks)
  {
    hide FirstWave, Balance, EvenFrom, RankPeak, Even;
    EvenIsEven(r);
    EvenPeak(poolRows, rowBytes, blocks, r, 0, 0);
    NoBalance(poolRows, rowBytes, r);
    SumZeros(3);
  }

  lemma ThereBelowFirstWave(poolRows: nat, rowBytes: nat, blocks: int)
    requires rowBytes % 16 != 0 && poolRows > 0
    ensures Solve(RigFlip(poolRows, rowBytes, blocks, PpToTp)).peak < FirstWave(poolRows, rowBytes, blocks)
  {
    hide FirstWave, EvenFrom, RankPeaks, CompleteOrder, Solve, Legs, Peak, MaxOr0;
    var there, order := RigFlip(poolRows, rowBytes, blocks, PpToTp), EvenFrom(0);
    var peaks := RankPeaks(there, Zeros(3), order);
    forall r | 0 <= r < 3 ensures peaks[r] < FirstWave(poolRows, rowBytes, blocks) {
      ThereRankBelow(poolRows, rowBytes, blocks, r);
    }
    PeakByRank(there, Zeros(3), order);
    FirstWavePositive(poolRows, rowBytes, blocks);
    MaxOr0Least(peaks, FirstWave(poolRows, rowBytes, blocks) - 1);
    EvenIsComplete(poolRows, rowBytes, blocks);
    SolveIsOptimal(there);
  }

  lemma FirstWavePositive(poolRows: nat, rowBytes: nat, blocks: int)
    requires rowBytes > 0 && poolRows > 0
    ensures FirstWave(poolRows, rowBytes, blocks) > 0
  {
    Shares(rowBytes, 0);
    ScaledLess(Share(rowBytes, 0), rowBytes, poolRows);
    InnerCoversNet(rowBytes * poolRows, Share(rowBytes, 0) * poolRows, blocks);
  }

  /** On unaligned rows every tp_to_pp order costs more than the best pp_to_tp order does: more than
      its cheapest first wave. */
  lemma RigTruncatedDisagree(poolRows: nat, rowBytes: nat, blocks: int)
    requires poolRows > 0 && rowBytes % 16 != 0
    ensures Solve(RigFlip(poolRows, rowBytes, blocks, PpToTp)).peak
            < FirstWave(poolRows, rowBytes, blocks)
            <= Solve(RigFlip(poolRows, rowBytes, blocks, TpToPp)).peak
  {
    HomeCostsFirstWave(poolRows, rowBytes, blocks);
    ThereBelowFirstWave(poolRows, rowBytes, blocks);
  }

  /** The two directions have the same optimum if and only if rows are a multiple of 16 bytes, or
      there are none; for every block count. */
  lemma RigAgreeIffAligned(poolRows: nat, rowBytes: nat, blocks: int)
    ensures Solve(RigFlip(poolRows, rowBytes, blocks, TpToPp)).peak
            == Solve(RigFlip(poolRows, rowBytes, blocks, PpToTp)).peak
            <==> rowBytes % 16 == 0 || poolRows == 0
  {
    hide Solve;
    if rowBytes % 16 == 0 || poolRows == 0 {
      RigDirectionsAgree(poolRows, rowBytes, blocks);
    } else {
      RigTruncatedDisagree(poolRows, rowBytes, blocks);
    }
  }
}
