/** The exact search over wave orders: its specification, its optimality and the memoised
    implementation. */
module WaveOptimum {
  import opened Basics
  import opened Maxima
  import opened WaveModel

  datatype Plan = Plan(peak: int, order: seq<nat>)

  /** The plan that `best` returns for a prefix. */
  function Best(flip: Flip, placed: seq<nat>): Plan
    requires flip.Valid() && Within(placed, flip.counts)
    decreases Sum(flip.counts) - Sum(placed), |placed| + 1
  {
    if placed == flip.counts then Plan(0, [])
    else
      match Scan(flip, placed, |placed|)
      case Some(plan) => plan
      case None => Plan(0, [])  // never reached: some stage is still short of its count
  }

  /** The candidate `best` holds after trying stages below n, the first minimum winning. */
  function Scan(flip: Flip, placed: seq<nat>, n: nat): Option<Plan>
    requires flip.Valid() && Within(placed, flip.counts) && n <= |placed|
    decreases Sum(flip.counts) - Sum(placed), n
  {
    if n == 0 then None
    else
      var prev := Scan(flip, placed, n - 1);
      if placed[n - 1] >= flip.counts[n - 1] then prev
      else
        var cand := Extend(flip, placed, n - 1);
        if prev.None? || cand.peak < prev.value.peak then Some(cand) else prev
  }

  /** Place stage s next, then continue as well as possible. */
  function Extend(flip: Flip, placed: seq<nat>, s: nat): Plan
    requires flip.Valid() && Within(placed, flip.counts)
    requires s < |placed| && placed[s] < flip.counts[s]
    decreases Sum(flip.counts) - Sum(placed), 0
  {
    BumpShrinks(flip, placed, s);
    var sub := Best(flip, Bump(placed, s));
    Plan(Max(Step(flip, placed, s), sub.peak), [s] + sub.order)
  }

  lemma BumpShrinks(flip: Flip, placed: seq<nat>, s: nat)
    requires flip.Valid() && Within(placed, flip.counts)
    requires s < |placed| && placed[s] < flip.counts[s]
    ensures Within(Bump(placed, s), flip.counts)
    ensures Sum(placed) < Sum(Bump(placed, s)) <= Sum(flip.counts)
  {
    SumBump(placed, s);
    SumMonotone(Bump(placed, s), flip.counts);
  }

  /** `plan` completes the prefix, has the peak it claims, and no completion has a smaller one. */
  ghost predicate Optimal(flip: Flip, placed: seq<nat>, plan: Plan)
    requires flip.Valid() && |placed| == |flip.counts|
  {
    && Completes(flip, placed, plan.order)
    && Peak(flip, placed, plan.order) == plan.peak
    && forall order | Completes(flip, placed, order) :: plan.peak <= Peak(flip, placed, order)
  }

  lemma {:induction false} BestIsOptimal(flip: Flip, placed: seq<nat>)
    requires flip.Valid() && Within(placed, flip.counts)
    ensures Optimal(flip, placed, Best(flip, placed))
    decreases Sum(flip.counts) - Sum(placed), |placed| + 1
  {
    var plan := Best(flip, placed);
    CompletesEmpty(flip, placed, plan.order);
    if placed == flip.counts {
      forall order | Completes(flip, placed, order) ensures 0 <= Peak(flip, placed, order) {
        CompletesEmpty(flip, placed, order);
      }
    } else {
      ScanIsBest(flip, placed, |placed|);
      var s := ShortStage(flip, placed);
      forall order | Completes(flip, placed, order)
        ensures plan.peak <= Peak(flip, placed, order)
      {
        CompletesEmpty(flip, placed, order);
        CompletesTail(flip, placed, order);
        assert order[0] in multiset(order);
        assert Completes(flip, Bump(placed, order[0]), order[1..]);
      }
    }
  }

  lemma ShortStage(flip: Flip, placed: seq<nat>) returns (s: nat)
    requires flip.Valid() && Within(placed, flip.counts) && placed != flip.counts
    ensures s < |placed| && placed[s] < flip.counts[s]
  {
    s :| 0 <= s < |placed| && placed[s] != flip.counts[s];
  }

  /** `plan` completes the prefix and beats every completion that starts with a stage in lo..hi. */
  ghost predicate BestInRange(flip: Flip, placed: seq<nat>, plan: Plan, lo: nat, hi: nat)
    requires flip.Valid() && |placed| == |flip.counts|
  {
    && Completes(flip, placed, plan.order)
    && Peak(flip, placed, plan.order) == plan.peak
    && forall order | Completes(flip, placed, order) && order != [] && lo <= order[0] < hi ::
         plan.peak <= Peak(flip, placed, order)
  }

  /** After trying the stages below n, the candidate is the best completion starting with one of them. */
  lemma {:induction false} ScanIsBest(flip: Flip, placed: seq<nat>, n: nat)
    requires flip.Valid() && Within(placed, flip.counts) && n <= |placed|
    ensures Scan(flip, placed, n).None? <==> forall s :: 0 <= s < n ==> placed[s] == flip.counts[s]
    ensures Scan(flip, placed, n).Some? ==> BestInRange(flip, placed, Scan(flip, placed, n).value, 0, n)
    decreases Sum(flip.counts) - Sum(placed), n
  {
    if n > 0 {
      var s := n - 1;
      ScanIsBest(flip, placed, s);
      if placed[s] < flip.counts[s] {
        ExtendIsBest(flip, placed, s);
      } else {
        forall order | Completes(flip, placed, order) && order != [] ensures order[0] != s {
          assert order[0] in multiset(order);
        }
      }
    }
  }

  lemma {:induction false} ExtendIsBest(flip: Flip, placed: seq<nat>, s: nat)
    requires flip.Valid() && Within(placed, flip.counts)
    requires s < |placed| && placed[s] < flip.counts[s]
    ensures BestInRange(flip, placed, Extend(flip, placed, s), s, s + 1)
    decreases Sum(flip.counts) - Sum(placed), 0
  {
    BumpShrinks(flip, placed, s);
    var next := Bump(placed, s);
    BestIsOptimal(flip, next);
    var r := Extend(flip, placed, s);
    assert r.order[0] == s && r.order[1..] == Best(flip, next).order;
    CompletesTail(flip, placed, r.order);
    forall order | Completes(flip, placed, order) && order != [] && order[0] == s
      ensures r.peak <= Peak(flip, placed, order)
    {
      CompletesTail(flip, placed, order);
    }
  }

  /** What `solve` returns: a plan for the whole flip. */
  function Solve(flip: Flip): Plan
    requires flip.Valid()
  {
    Best(flip, Zeros(|flip.counts|))
  }

  /** A complete order uses every stage exactly its count of times. */
  ghost predicate CompleteOrder(flip: Flip, order: seq<nat>)
    requires flip.Valid()
  {
    && Labels(order, |flip.counts|)
    && forall s :: 0 <= s < |flip.counts| ==> multiset(order)[s] == flip.counts[s]
  }

  function OrderPeak(flip: Flip, order: seq<nat>): int
    requires flip.Valid() && Labels(order, |flip.counts|)
  {
    Peak(flip, Zeros(|flip.counts|), order)
  }

  lemma CompleteFromZeros(flip: Flip, order: seq<nat>)
    requires flip.Valid()
    ensures Completes(flip, Zeros(|flip.counts|), order) <==> CompleteOrder(flip, order)
  {
    var z := Zeros(|flip.counts|);
    if CompleteOrder(flip, order) {
      forall s | 0 <= s < |z| ensures z[s] + multiset(order)[s] == flip.counts[s] {}
    }
    if Completes(flip, z, order) {
      forall s | 0 <= s < |z| ensures multiset(order)[s] == flip.counts[s] {
        assert z[s] + multiset(order)[s] == flip.counts[s];
      }
    }
  }

  /** The search is exact: its order is complete, has the returned peak, and is best. */
  lemma SolveIsOptimal(flip: Flip)
    requires flip.Valid()
    ensures CompleteOrder(flip, Solve(flip).order)
    ensures OrderPeak(flip, Solve(flip).order) == Solve(flip).peak
    ensures forall order | CompleteOrder(flip, order) :: Solve(flip).peak <= OrderPeak(flip, order)
  {
    BestIsOptimal(flip, Zeros(|flip.counts|));
    CompleteFromZeros(flip, Solve(flip).order);
    forall order | CompleteOrder(flip, order)
      ensures Solve(flip).peak <= OrderPeak(flip, order)
    {
      CompleteFromZeros(flip, order);
    }
  }

  /** The memoised search: `cache` keeps the plan of every prefix met so far. */
  class Solver {
    const flip: Flip
    var cache: map<seq<nat>, Plan>

    ghost predicate Valid()
      reads this
    {
      && flip.Valid()
      && forall k :: k in cache ==> Within(k, flip.counts) && cache[k] == Best(flip, k)
    }

    constructor (flip: Flip)
      requires flip.Valid()
      ensures Valid() && this.flip == flip && cache == map[]
    {
      this.flip := flip;
      cache := map[];
    }

    /** Rank balances after a prefix. */
    method Balances(placed: seq<nat>) returns (base: seq<int>)
      requires flip.Valid() && |placed| == |flip.counts|
      ensures |base| == |placed|
      ensures forall r :: 0 <= r < |base| ==> base[r] == Base(flip, placed, r)
    {
      base := [];
      for r := 0 to |placed|
        invariant |base| == r
        invariant forall q :: 0 <= q < r ==> base[q] == Base(flip, placed, q)
      {
        var leg := flip.legs[r];
        var k, owned := Sum(placed), placed[r];
        if leg.commitAlways {
          base := base + [k * leg.commit - owned * leg.release];
        } else {
          base := base + [owned * leg.commit - k * leg.release];
        }
      }
    }

    /** The worst rank's peak in the wave of stage s. */
    method WavePeak(placed: seq<nat>, base: seq<int>, s: nat) returns (step: int)
      requires flip.Valid() && |placed| == |flip.counts| == |base|
      requires forall r :: 0 <= r < |base| ==> base[r] == Base(flip, placed, r)
      ensures step == Step(flip, placed, s)
    {
      step := 0;
      ghost var steps := seq(|placed|, r requires 0 <= r < |placed| => RankStep(flip, placed, s, r));
      for r := 0 to |placed|
        invariant step == MaxOr0(steps[..r])
      {
        var leg := flip.legs[r];
        var c := if leg.commitAlways then leg.commit else if s == r then leg.commit else 0;
        var d := if leg.commitAlways then (if s == r then leg.release else 0) else leg.release;
        step := Max(step, base[r] + Inner(c, d, flip.blocks));
        assert steps[..r + 1][..r] == steps[..r];
      }
      assert steps[..|placed|] == steps;
    }

    method Search(placed: seq<nat>) returns (plan: Plan)
      requires Valid() && Within(placed, flip.counts)
      modifies this`cache
      ensures Valid() && plan == Best(flip, placed)
      ensures old(cache).Keys <= cache.Keys
      decreases Sum(flip.counts) - Sum(placed)
    {
      if placed in cache {
        return cache[placed];
      }
      if placed == flip.counts {
        plan := Plan(0, []);
      } else {
        var base := Balances(placed);
        var out: Option<Plan> := None;
        for s := 0 to |placed|
          invariant Valid() && old(cache).Keys <= cache.Keys
          invariant out == Scan(flip, placed, s)
        {
          if placed[s] < flip.counts[s] {
            var step := WavePeak(placed, base, s);
            var next := placed[s := placed[s] + 1];
            BumpShrinks(flip, placed, s);
            var sub := Search(next);
            var peak := Max(step, sub.peak);
            if out.None? || peak < out.value.peak {
              out := Some(Plan(peak, [s] + sub.order));
            }
          }
        }
        plan := if out.Some? then out.value else Plan(0, []);
      }
      cache := cache[placed := plan];
    }

    /** The whole search, ending with the cache cleared. */
    method Run() returns (plan: Plan)
      requires Valid()
      modifies this`cache
      ensures Valid() && cache == map[]
      ensures plan == Solve(flip)
      ensures CompleteOrder(flip, plan.order) && OrderPeak(flip, plan.order) == plan.peak
      ensures forall order | CompleteOrder(flip, order) :: plan.peak <= OrderPeak(flip, order)
    {
      plan := Search(Zeros(|flip.counts|));
      cache := map[];
      SolveIsOptimal(flip);
    }
  }
}
