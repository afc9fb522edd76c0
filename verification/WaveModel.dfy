/** The cost model of one KV layout flip: which bytes a rank commits and releases in the
    wave of each layer, and the transient peak a wave order causes. */
module WaveModel {
  import opened Maxima

  /** One rank's part: bytes committed and released per wave; `commitAlways` says which of
      the two happens on every wave, the other one happening on owned waves only. */
  datatype Leg = Leg(commit: nat, release: nat, commitAlways: bool)

  /** One leg per rank, one layer count per stage (stage s is owned by rank s). */
  datatype Flip = Flip(legs: seq<Leg>, counts: seq<nat>, blocks: int) {
    predicate Valid() { |legs| == |counts| }
  }

  function WaveCommit(leg: Leg, owned: bool): nat {
    if leg.commitAlways || owned then leg.commit else 0
  }

  function WaveRelease(leg: Leg, owned: bool): nat {
    if leg.commitAlways && !owned then 0 else leg.release
  }

  /** Division rounded up, written as the negated floor of the negation. */
  function CeilDiv(num: int, d: int): int
    requires d > 0
  {
    -(-num / d)
  }

  /** The peak inside one wave cut into row blocks. */
  function Inner(com: int, rel: int, blocks: int): int {
    if blocks <= 1 then com
    else CeilDiv(Max(com, blocks * com - (blocks - 1) * rel), blocks)
  }

  // ----- prefixes of an order, as counts per stage

  predicate Within(placed: seq<nat>, counts: seq<nat>) {
    |placed| == |counts| && forall s :: 0 <= s < |counts| ==> placed[s] <= counts[s]
  }

  function Zeros(n: nat): seq<nat> {
    seq(n, _ => 0)
  }

  function Bump(placed: seq<nat>, s: nat): seq<nat>
    requires s < |placed|
  {
    placed[s := placed[s] + 1]
  }

  /** Rank r's balance after a prefix with these stage counts. */
  function Base(flip: Flip, placed: seq<nat>, r: nat): int
    requires flip.Valid() && |placed| == |flip.counts| && r < |placed|
  {
    var leg := flip.legs[r];
    if leg.commitAlways then Sum(placed) * leg.commit - placed[r] * leg.release
    else placed[r] * leg.commit - Sum(placed) * leg.release
  }

  /** Rank r's peak inside the wave of stage s, run after that prefix. */
  function RankStep(flip: Flip, placed: seq<nat>, s: nat, r: nat): int
    requires flip.Valid() && |placed| == |flip.counts| && r < |placed|
  {
    var leg := flip.legs[r];
    Base(flip, placed, r) + Inner(WaveCommit(leg, s == r), WaveRelease(leg, s == r), flip.blocks)
  }

  function Step(flip: Flip, placed: seq<nat>, s: nat): int
    requires flip.Valid() && |placed| == |flip.counts|
  {
    MaxOr0(seq(|placed|, r requires 0 <= r < |placed| => RankStep(flip, placed, s, r)))
  }

  predicate Labels(order: seq<nat>, n: nat) {
    forall i :: 0 <= i < |order| ==> order[i] < n
  }

  /** The worst rank's peak over the waves of `order`, run after a prefix. */
  function Peak(flip: Flip, placed: seq<nat>, order: seq<nat>): int
    requires flip.Valid() && |placed| == |flip.counts| && Labels(order, |placed|)
    decreases |order|
  {
    if order == [] then 0
    else Max(Step(flip, placed, order[0]), Peak(flip, Bump(placed, order[0]), order[1..]))
  }

  /** `order` takes the prefix to exactly the required count of every stage. */
  ghost predicate Completes(flip: Flip, placed: seq<nat>, order: seq<nat>)
    requires flip.Valid() && |placed| == |flip.counts|
  {
    && Labels(order, |placed|)
    && forall s :: 0 <= s < |placed| ==> placed[s] + multiset(order)[s] == flip.counts[s]
  }

  lemma CompletesTail(flip: Flip, placed: seq<nat>, order: seq<nat>)
    requires flip.Valid() && |placed| == |flip.counts|
    requires order != [] && order[0] < |placed|
    ensures Completes(flip, placed, order) <==> Completes(flip, Bump(placed, order[0]), order[1..])
  {
    var rest := order[1..];
    assert order == [order[0]] + rest;
    assert forall s :: multiset(order)[s] == multiset(rest)[s] + (if s == order[0] then 1 else 0);
    if Completes(flip, Bump(placed, order[0]), rest) {
      forall i | 0 <= i < |order| ensures order[i] < |placed| {
        assert i > 0 ==> order[i] == rest[i - 1];
      }
      forall s | 0 <= s < |placed| ensures placed[s] + multiset(order)[s] == flip.counts[s] {
        assert Bump(placed, order[0])[s] + multiset(rest)[s] == flip.counts[s];
      }
    }
  }

  lemma CompletesEmpty(flip: Flip, placed: seq<nat>, order: seq<nat>)
    requires flip.Valid() && Within(placed, flip.counts)
    ensures placed == flip.counts ==> (Completes(flip, placed, order) <==> order == [])
    ensures placed != flip.counts ==> !Completes(flip, placed, [])
  {
    if order != [] {
      assert order[0] in multiset(order);
    }
  }
}
