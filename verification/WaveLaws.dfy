/** Laws of the wave-order optimum: the effect of the block count, and the mirror image of a flip
    direction. */
module WaveLaws {
  import opened Maxima
  import opened WaveModel
  import opened WaveRounding
  import opened WaveTrace
  import opened WaveOptimum

  function Min(a: int, b: int): int {
    if a < b then a else b
  }

  // ----- block counts

  lemma LastCommit(c: nat, d: nat, b: nat)
    requires b >= 1
    ensures Max(c, b * c - (b - 1) * d) == Min(c, d) + Max(0, c - d) * b
  {
    var x := c - d;
    assert b * c - (b - 1) * d == c + (b - 1) * x == d + b * x;
    if x >= 0 { assert (b - 1) * x >= 0; } else { assert (b - 1) * x <= 0; }
  }

  /** A wave's peak is a part no blocking removes, the net growth, plus a part divided by B. */
  lemma InnerSplits(c: nat, d: nat, blocks: int)
    ensures Inner(c, d, blocks) == Max(0, c - d) + CeilDiv(Min(c, d), Blocks(blocks))
  {
    var b := Blocks(blocks);
    LastCommit(c, d, b);
    CeilDivShift(Min(c, d), b, Max(0, c - d));
    if b == 1 { CeilDivUnique(c, 1, c); }
  }

  /** A wave with nothing to release costs its full commit, however finely it is cut. */
  lemma BareCommitCostsAll(c: nat, blocks: int)
    ensures Inner(c, 0, blocks) == c
  {
    InnerSplits(c, 0, blocks);
  }

  lemma CeilDivShrinks(m: nat, b: int, b': int)
    requires 1 <= b <= b'
    ensures CeilDiv(m, b') <= CeilDiv(m, b)
  {
    var q, q' := CeilDiv(m, b), CeilDiv(m, b');
    CeilDivBounds(m, b);
    CeilDivBounds(m, b');
    CeilDivMonotone(0, m, b);
    assert q * b' == q * b + q * (b' - b);
    assert q * (b' - b) >= 0;
    MultiplesOrdered(q', q, b');
  }

  /** Finer blocking never raises a wave's peak. */
  lemma InnerShrinks(c: nat, d: nat, blocks: int, blocks': int)
    requires blocks <= blocks'
    ensures Inner(c, d, blocks') <= Inner(c, d, blocks)
  {
    InnerSplits(c, d, blocks);
    InnerSplits(c, d, blocks');
    CeilDivShrinks(Min(c, d), Blocks(blocks), Blocks(blocks'));
  }

  lemma {:induction false} PeakShrinks(flip: Flip, placed: seq<nat>, order: seq<nat>, blocks': int)
    requires flip.Valid() && |placed| == |flip.counts| && Labels(order, |placed|)
    requires flip.blocks <= blocks'
    ensures Peak(flip.(blocks := blocks'), placed, order) <= Peak(flip, placed, order)
    decreases |order|
  {
    if order != [] {
      var finer, s := flip.(blocks := blocks'), order[0];
      var steps := seq(|placed|, r requires 0 <= r < |placed| => RankStep(flip, placed, s, r));
      var steps' := seq(|placed|, r requires 0 <= r < |placed| => RankStep(finer, placed, s, r));
      forall r | 0 <= r < |placed| ensures steps'[r] <= steps[r] {
        var leg := flip.legs[r];
        InnerShrinks(WaveCommit(leg, s == r), WaveRelease(leg, s == r), flip.blocks, blocks');
      }
      MaxOr0Monotone(steps', steps);
      PeakShrinks(flip, Bump(placed, s), order[1..], blocks');
    }
  }

  /** Finer blocking never raises the optimum. */
  lemma OptimumShrinks(flip: Flip, blocks': int)
    requires flip.Valid() && flip.blocks <= blocks'
    ensures Solve(flip.(blocks := blocks')).peak <= Solve(flip).peak
  {
    var finer := flip.(blocks := blocks');
    SolveIsOptimal(flip);
    SolveIsOptimal(finer);
    var order := Solve(flip).order;
    assert CompleteOrder(finer, order);
    PeakShrinks(flip, Zeros(|flip.counts|), order, blocks');
  }

  // ----- the two directions

  function Reverse<T>(xs: seq<T>): (ys: seq<T>)
    ensures |ys| == |xs| && multiset(ys) == multiset(xs)
  {
    if xs == [] then []
    else
      assert xs == [xs[0]] + xs[1..];
      Reverse(xs[1..]) + [xs[0]]
  }

  lemma ReverseConcat<T>(xs: seq<T>, ys: seq<T>)
    ensures Reverse(xs + ys) == Reverse(ys) + Reverse(xs)
  {
    if xs == [] {
      assert xs + ys == ys;
    } else {
      assert (xs + ys)[1..] == xs[1..] + ys;
      ReverseConcat(xs[1..], ys);
    }
  }

  lemma ReverseTwice<T>(xs: seq<T>)
    ensures Reverse(Reverse(xs)) == xs
  {
    if xs != [] {
      ReverseTwice(xs[1..]);
      ReverseConcat(Reverse(xs[1..]), [xs[0]]);
      assert Reverse([xs[0]]) == [xs[0]];
    }
  }

  /** Playing balance changes backwards and negated: what was released is committed again. */
  function Rewind(ds: seq<int>): seq<int> {
    if ds == [] then [] else Rewind(ds[1..]) + [-ds[0]]
  }

  lemma {:induction false} RewindConcat(xs: seq<int>, ys: seq<int>)
    ensures Rewind(xs + ys) == Rewind(ys) + Rewind(xs)
  {
    if xs == [] {
      assert xs + ys == ys;
    } else {
      assert (xs + ys)[1..] == xs[1..] + ys;
      RewindConcat(xs[1..], ys);
    }
  }

  /** Rewound, a run peaks exactly its own final balance lower. */
  lemma {:induction false} RewindHighWater(ds: seq<int>)
    ensures HighWater(Rewind(ds)) == HighWater(ds) - Sum(ds)
    ensures Sum(Rewind(ds)) == -Sum(ds)
  {
    if ds != [] {
      var x, rest := ds[0], ds[1..];
      RewindHighWater(rest);
      HighWaterConcat(Rewind(rest), [-x]);
      SumConcat(Rewind(rest), [-x]);
    }
  }

  /** The same rank in the opposite direction. */
  function MirrorLeg(leg: Leg): Leg {
    Leg(leg.release, leg.commit, !leg.commitAlways)
  }

  function Mirror(flip: Flip): (m: Flip)
    requires flip.Valid()
    ensures m.Valid()
  {
    flip.(legs := seq(|flip.legs|, r requires 0 <= r < |flip.legs| => MirrorLeg(flip.legs[r])))
  }

  lemma RewindBlock(c: int, d: int)
    ensures Rewind([c, -d]) == [d, -c]
  {
    var tail := [c, -d][1..];
    assert tail == [-d] && tail[1..] == [];
    assert Rewind(tail) == [d];
  }

  lemma {:induction false} RewindWave(c: int, d: int, b: nat)
    ensures Rewind(WaveDeltas(c, d, b)) == WaveDeltas(d, c, b)
  {
    if b > 0 {
      RewindWave(c, d, b - 1);
      RewindConcat([c, -d], WaveDeltas(c, d, b - 1));
      RewindBlock(c, d);
      WaveSnoc(d, c, b);
    }
  }

  lemma {:induction false} WaveSnoc(c: int, d: int, b: nat)
    requires b > 0
    ensures WaveDeltas(c, d, b) == WaveDeltas(c, d, b - 1) + [c, -d]
  {
    if b > 1 { WaveSnoc(c, d, b - 1); }
  }

  lemma {:induction false} RankDeltasConcat(leg: Leg, r: nat, xs: seq<nat>, ys: seq<nat>, b: nat)
    ensures RankDeltas(leg, r, xs + ys, b) == RankDeltas(leg, r, xs, b) + RankDeltas(leg, r, ys, b)
  {
    if xs == [] {
      assert xs + ys == ys;
    } else {
      assert (xs + ys)[1..] == xs[1..] + ys;
      RankDeltasConcat(leg, r, xs[1..], ys, b);
    }
  }

  /** The mirrored rank running the reversed order rewinds the original, instant by instant. */
  lemma {:induction false} MirrorRewinds(leg: Leg, r: nat, order: seq<nat>, b: nat)
    ensures RankDeltas(MirrorLeg(leg), r, Reverse(order), b) == Rewind(RankDeltas(leg, r, order, b))
  {
    if order != [] {
      var s, rest := order[0], order[1..];
      var c, d := WaveCommit(leg, s == r), WaveRelease(leg, s == r);
      MirrorRewinds(leg, r, rest, b);
      RankDeltasConcat(MirrorLeg(leg), r, Reverse(rest), [s], b);
      RewindConcat(WaveDeltas(c, d, b), RankDeltas(leg, r, rest, b));
      RewindWave(c, d, b);
      assert [s][1..] == [];
      assert RankDeltas(MirrorLeg(leg), r, [s], b) == WaveDeltas(d, c, b);
    }
  }

  /** Bytes rank r ends an order above (or below) where it started. */
  function Residue(leg: Leg, r: nat, order: seq<nat>): int {
    if order == [] then 0
    else WaveCommit(leg, order[0] == r) - WaveRelease(leg, order[0] == r) + Residue(leg, r, order[1..])
  }

  lemma {:induction false} RankDeltasSum(leg: Leg, r: nat, order: seq<nat>, b: nat)
    ensures Sum(RankDeltas(leg, r, order, b)) == b * Residue(leg, r, order)
  {
    if order != [] {
      var c, d := WaveCommit(leg, order[0] == r), WaveRelease(leg, order[0] == r);
      RankDeltasSum(leg, r, order[1..], b);
      WaveSum(c, d, b);
      SumConcat(WaveDeltas(c, d, b), RankDeltas(leg, r, order[1..], b));
      assert b * (c - d + Residue(leg, r, order[1..])) == b * (c - d) + b * Residue(leg, r, order[1..]);
    }
  }

  lemma MirrorHighWater(leg: Leg, r: nat, order: seq<nat>, b: nat)
    ensures HighWater(RankDeltas(MirrorLeg(leg), r, Reverse(order), b))
            == HighWater(RankDeltas(leg, r, order, b)) - b * Residue(leg, r, order)
  {
    MirrorRewinds(leg, r, order, b);
    RewindHighWater(RankDeltas(leg, r, order, b));
    RankDeltasSum(leg, r, order, b);
  }

  lemma CeilDivDrop(high: int, low: int, b: int, k: int)
    requires b > 0 && low == high - b * k
    ensures CeilDiv(low, b) == CeilDiv(high, b) - k
  {
    assert (-k) * b == -(b * k);
    CeilDivShift(high, b, -k);
  }

  /** Per rank and for every order and block count: mirroring lowers the peak by exactly the
      residue, so a rank's peak survives the mirror if and only if its residue is zero. */
  lemma MirrorRankPeak(flip: Flip, order: seq<nat>, r: nat)
    requires flip.Valid() && r < |flip.legs|
    ensures RankHighWaters(Mirror(flip), Reverse(order))[r]
            == RankHighWaters(flip, order)[r] - Residue(flip.legs[r], r, order)
    ensures RankHighWaters(Mirror(flip), Reverse(order))[r] == RankHighWaters(flip, order)[r]
            <==> Residue(flip.legs[r], r, order) == 0
  {
    var b, leg := Blocks(flip.blocks), flip.legs[r];
    MirrorHighWater(leg, r, order, b);
    var high, low := HighWater(RankDeltas(leg, r, order, b)), HighWater(RankDeltas(MirrorLeg(leg), r, Reverse(order), b));
    CeilDivDrop(high, low, b, Residue(leg, r, order));
    assert Mirror(flip).legs[r] == MirrorLeg(leg);
  }

  /** A complete order's residue depends on the counts alone: the layers a rank owns against all. */
  function Imbalance(flip: Flip, r: nat): int
    requires flip.Valid() && r < |flip.legs|
  {
    Base(flip, flip.counts, r)
  }

  lemma {:induction false} ResidueFrom(flip: Flip, placed: seq<nat>, order: seq<nat>, r: nat)
    requires flip.Valid() && Within(placed, flip.counts) && Completes(flip, placed, order) && r < |placed|
    ensures Base(flip, placed, r) + Residue(flip.legs[r], r, order) == Base(flip, flip.counts, r)
    decreases |order|
  {
    CompletesEmpty(flip, placed, order);
    if order == [] {
      assert placed == flip.counts;
    } else {
      CompletesTail(flip, placed, order);
      BaseBump(flip, placed, order[0], r);
      var next := Bump(placed, order[0]);
      assert Within(next, flip.counts) by {
        forall s | 0 <= s < |next| ensures next[s] <= flip.counts[s] {
          assert next[s] + multiset(order[1..])[s] == flip.counts[s];
        }
      }
      ResidueFrom(flip, next, order[1..], r);
    }
  }

  lemma ResidueIsImbalance(flip: Flip, order: seq<nat>, r: nat)
    requires flip.Valid() && CompleteOrder(flip, order) && r < |flip.legs|
    ensures Residue(flip.legs[r], r, order) == Imbalance(flip, r)
  {
    var z := Zeros(|flip.counts|);
    CompleteFromZeros(flip, order);
    SumZeros(|z|);
    assert Base(flip, z, r) == 0;
    ResidueFrom(flip, z, order, r);
  }

  /** Every rank commits over a whole flip what it releases. */
  predicate Balanced(flip: Flip)
    requires flip.Valid()
  {
    forall r :: 0 <= r < |flip.legs| ==> Imbalance(flip, r) == 0
  }

  /** Time-reversal duality: in a balanced flip, any complete order peaks exactly as high as the
      reversed order does in the opposite direction, for every block count. */
  lemma MirrorPeak(flip: Flip, order: seq<nat>)
    requires flip.Valid() && Balanced(flip) && CompleteOrder(flip, order)
    ensures CompleteOrder(Mirror(flip), Reverse(order))
    ensures OrderPeak(Mirror(flip), Reverse(order)) == OrderPeak(flip, order)
  {
    ReverseComplete(flip, order);
    var back := Reverse(order);
    forall r | 0 <= r < |flip.legs|
      ensures RankHighWaters(Mirror(flip), back)[r] == RankHighWaters(flip, order)[r]
    {
      MirrorRankPeak(flip, order, r);
      ResidueIsImbalance(flip, order, r);
    }
    assert RankHighWaters(Mirror(flip), back) == RankHighWaters(flip, order);
    PeakIsSimulated(flip, order);
    PeakIsSimulated(Mirror(flip), back);
  }

  lemma MirrorTwice(flip: Flip)
    requires flip.Valid()
    ensures Mirror(Mirror(flip)) == flip
    ensures Balanced(flip) ==> Balanced(Mirror(flip))
  {
    assert Mirror(Mirror(flip)).legs == flip.legs;
    if Balanced(flip) {
      forall r | 0 <= r < |flip.legs| ensures Imbalance(Mirror(flip), r) == 0 {
        assert Imbalance(flip, r) == 0;
      }
    }
  }

  /** Hence both directions of a balanced flip have the same optimum, and reversing an optimal
      order for one gives an optimal order for the other. */
  lemma MirrorOptimum(flip: Flip)
    requires flip.Valid() && Balanced(flip)
    ensures Solve(Mirror(flip)).peak == Solve(flip).peak
    ensures CompleteOrder(Mirror(flip), Reverse(Solve(flip).order))
    ensures OrderPeak(Mirror(flip), Reverse(Solve(flip).order)) == Solve(Mirror(flip)).peak
  {
    var mirror := Mirror(flip);
    SolveIsOptimal(flip);
    SolveIsOptimal(mirror);
    MirrorPeak(flip, Solve(flip).order);
    MirrorTwice(flip);
    MirrorPeak(mirror, Solve(mirror).order);
  }

  /** Otherwise the direction that starts from the larger holding peaks higher, by no more than the
      largest imbalance, order by order. */
  lemma MirrorPeakWithin(flip: Flip, order: seq<nat>, k: int)
    requires flip.Valid() && CompleteOrder(flip, order) && k >= 0
    requires forall r :: 0 <= r < |flip.legs| ==> -k <= Imbalance(flip, r) <= 0
    ensures CompleteOrder(Mirror(flip), Reverse(order))
    ensures OrderPeak(flip, order) <= OrderPeak(Mirror(flip), Reverse(order)) <= OrderPeak(flip, order) + k
  {
    ReverseComplete(flip, order);
    var back := Reverse(order);
    var there, home := RankHighWaters(flip, order), RankHighWaters(Mirror(flip), back);
    forall r | 0 <= r < |there| ensures there[r] <= home[r] <= there[r] + k {
      MirrorRankPeak(flip, order, r);
      ResidueIsImbalance(flip, order, r);
    }
    MaxOr0Monotone(there, home);
    MaxOr0Least(home, MaxOr0(there) + k);
    PeakIsSimulated(flip, order);
    PeakIsSimulated(Mirror(flip), back);
  }

  lemma ReverseComplete(flip: Flip, order: seq<nat>)
    requires flip.Valid() && CompleteOrder(flip, order)
    ensures CompleteOrder(Mirror(flip), Reverse(order))
  {
    var back := Reverse(order);
    forall i | 0 <= i < |back| ensures back[i] < |flip.counts| {
      assert back[i] in multiset(back);
    }
  }

  /** The same holds of the two optima. */
  lemma MirrorOptimumWithin(flip: Flip, k: int)
    requires flip.Valid() && k >= 0
    requires forall r :: 0 <= r < |flip.legs| ==> -k <= Imbalance(flip, r) <= 0
    ensures Solve(flip).peak <= Solve(Mirror(flip)).peak <= Solve(flip).peak + k
  {
    hide Imbalance, CompleteOrder, OrderPeak, Solve, Mirror;
    var mirror := Mirror(flip);
    SolveIsOptimal(flip);
    SolveIsOptimal(mirror);
    MirrorPeakWithin(flip, Solve(flip).order, k);
    MirrorTwice(flip);
    var home := Solve(mirror).order;
    ReverseComplete(mirror, home);
    ReverseTwice(home);
    MirrorPeakWithin(flip, Reverse(home), k);
  }

  /** No order peaks below what a rank is left holding at the end. */
  lemma PeakCoversImbalance(flip: Flip, order: seq<nat>, r: nat)
    requires flip.Valid() && CompleteOrder(flip, order) && r < |flip.legs|
    ensures OrderPeak(flip, order) >= Imbalance(flip, r)
  {
    var b := Blocks(flip.blocks);
    var ds := RankDeltas(flip.legs[r], r, order, b);
    HighWaterIsMaxPrefix(ds);
    assert ds[..|ds|] == ds;
    RankDeltasSum(flip.legs[r], r, order, b);
    ResidueIsImbalance(flip, order, r);
    var k := Imbalance(flip, r);
    CeilDivMonotone(k * b, HighWater(ds), b);
    CeilDivUnique(k * b, b, k);
    PeakIsSimulated(flip, order);
    assert RankHighWaters(flip, order)[r] >= k;
  }
}
