/** How far apart shots must be fired so that no run mixes two shots' arms, and which arms are
    charged to which shot. */
module ShotCadence {
  import opened Basics
  import opened AlternatingRuns

  /** One shot: when it was sent, when its first token came, and whether it ended without an error. */
  datatype Shot = Shot(arrival: real, firstToken: real, ok: bool)

  /** Arms as logged, with the instant and the shot behind each. */
  datatype Experiment = Experiment(shots: seq<Shot>, arms: seq<Arm>, times: seq<real>, owner: seq<nat>)

  /** After a shot that succeeded the injector sleeps for the gap; after a failed one it does not. */
  ghost predicate Fired(shots: seq<Shot>, gap: real) {
    && (forall s :: 0 <= s < |shots| ==> shots[s].arrival <= shots[s].firstToken)
    && (forall s :: 0 < s < |shots| ==>
          shots[s].arrival >= shots[s - 1].firstToken + (if shots[s - 1].ok then gap else 0.0))
  }

  ghost predicate NoneFailed(shots: seq<Shot>) {
    forall s :: 0 <= s < |shots| ==> shots[s].ok
  }

  /** The arms are logged in order, each stamped with the second it fell in. */
  ghost predicate Stamped(e: Experiment) {
    && |e.arms| == |e.times| == |e.owner|
    && (forall i :: 0 <= i < |e.arms| ==> e.owner[i] < |e.shots| && e.arms[i].ts == e.times[i].Floor)
    && (forall i, j :: 0 <= i < j < |e.times| ==> e.times[i] <= e.times[j])
  }

  /** Arm i falls between its shot's arrival and `lag` seconds after its first token. */
  ghost predicate LoggedWithin(e: Experiment, lag: real, i: int)
    requires Stamped(e) && 0 <= i < |e.arms|
  {
    e.shots[e.owner[i]].arrival <= e.times[i] <= e.shots[e.owner[i]].firstToken + lag
  }

  /** Arm i falls after its shot's arrival and before the next one's. */
  ghost predicate LoggedInTurn(e: Experiment, i: int)
    requires Stamped(e) && 0 <= i < |e.arms|
  {
    var s := e.owner[i];
    e.shots[s].arrival <= e.times[i] && (s + 1 < |e.shots| ==> e.times[i] < e.shots[s + 1].arrival)
  }

  ghost predicate Happened(e: Experiment, gap: real, lag: real) {
    Fired(e.shots, gap) && Stamped(e) && forall i :: 0 <= i < |e.arms| ==> LoggedWithin(e, lag, i)
  }

  ghost predicate TookTurns(e: Experiment, gap: real) {
    Fired(e.shots, gap) && Stamped(e) && forall i :: 0 <= i < |e.arms| ==> LoggedInTurn(e, i)
  }

  /** Every run of the log belongs to a single shot. */
  ghost predicate OneShotPerRun(e: Experiment)
    requires |e.owner| == |e.arms|
  {
    forall i, j, k :: Segment(e.arms, RUN_MAX_GAP_S, i, j) && i <= k < j ==> e.owner[k] == e.owner[i]
  }

  /** No run mixes two shots, provided none fails and no arm comes later than `lag` after its shot's
      first token. */
  ghost predicate SafeGap(gap: real, lag: real) {
    forall e: Experiment :: Happened(e, gap, lag) && NoneFailed(e.shots) ==> OneShotPerRun(e)
  }

  /** The injector's own guard. */
  predicate GapAccepted(gap: real) {
    !(gap <= RUN_MAX_GAP_S)
  }

  /** Later shots arrive later, and after a successful one by the gap. */
  lemma {:induction false} ShotsApart(shots: seq<Shot>, gap: real, s: nat, r: nat)
    requires Fired(shots, gap) && gap >= 0.0 && s < r < |shots|
    ensures shots[s + 1].arrival <= shots[r].arrival
    ensures shots[s].ok ==> shots[r].arrival >= shots[s].firstToken + gap
    decreases r - s
  {
    if s < r - 1 {
      ShotsApart(shots, gap, s, r - 1);
      assert shots[r - 1].arrival <= shots[r - 1].firstToken;
    }
  }

  /** Neighbouring arms of different shots are not linked, once the gap is a second over the limit
      and the lag. */
  lemma ShotsUnlinked(e: Experiment, gap: real, lag: real, k: nat)
    requires Happened(e, gap, lag) && NoneFailed(e.shots) && lag >= 0.0 && gap >= RUN_MAX_GAP_S + 1.0 + lag
    requires 0 < k < |e.arms| && e.owner[k - 1] != e.owner[k]
    ensures !Linked(e.arms[k - 1], e.arms[k], RUN_MAX_GAP_S)
  {
    assert LoggedWithin(e, lag, k - 1) && LoggedWithin(e, lag, k) && e.times[k - 1] <= e.times[k];
    var s, r := e.owner[k - 1], e.owner[k];
    if s < r {
      ShotsApart(e.shots, gap, s, r);
    } else {
      ShotsApart(e.shots, gap, r, s);
    }
  }

  lemma {:induction false} SameOwner(e: Experiment, gap: real, lag: real, i: int, j: int, k: int)
    requires Happened(e, gap, lag) && NoneFailed(e.shots) && lag >= 0.0 && gap >= RUN_MAX_GAP_S + 1.0 + lag
    requires Chain(e.arms, RUN_MAX_GAP_S, i, j) && i <= k < j
    ensures e.owner[k] == e.owner[i]
    decreases k - i
  {
    if k > i {
      SameOwner(e, gap, lag, i, j, k - 1);
      if e.owner[k - 1] != e.owner[k] { ShotsUnlinked(e, gap, lag, k); }
    }
  }

  /** Two shots with one arm each: the first shot `early` seconds before its arm, at second 0, the
      second shot and its arm `apart` seconds after that arm. */
  ghost function TwoShots(ok: bool, early: real, apart: real): Experiment {
    Experiment([Shot(-early, -early, ok), Shot(apart, apart, true)],
               [Arm(0, PpToTp, 1, 0), Arm(apart.Floor, TpToPp, 0, 1)],
               [0.0, apart], [0, 1])
  }

  lemma TwoShotsRun(gap: real, ok: bool, early: real, apart: real)
    requires early >= 0.0 && 0.0 <= apart < RUN_MAX_GAP_S + 1.0 && (ok ==> gap <= early + apart)
    ensures var e := TwoShots(ok, early, apart);
            && Fired(e.shots, gap) && Stamped(e) && !OneShotPerRun(e)
            && (forall lag :: early <= lag ==> Happened(e, gap, lag))
            && (apart > 0.0 ==> TookTurns(e, gap))
  {
    var e := TwoShots(ok, early, apart);
    assert Stamped(e);
    assert Linked(e.arms[0], e.arms[1], RUN_MAX_GAP_S);
    assert Segment(e.arms, RUN_MAX_GAP_S, 0, 2) && e.owner[1] != e.owner[0];
  }

  /** A gap keeps every run within one shot exactly when it exceeds the run window by the lag and a
      whole second, the resolution of the stamps. */
  lemma SafeIffSecondOver(gap: real, lag: real)
    requires gap >= 0.0 && lag >= 0.0
    ensures SafeGap(gap, lag) <==> gap >= RUN_MAX_GAP_S + 1.0 + lag
  {
    if gap >= RUN_MAX_GAP_S + 1.0 + lag {
      forall e: Experiment | Happened(e, gap, lag) && NoneFailed(e.shots) ensures OneShotPerRun(e) {
        forall i, j, k | Segment(e.arms, RUN_MAX_GAP_S, i, j) && i <= k < j ensures e.owner[k] == e.owner[i] {
          SameOwner(e, gap, lag, i, j, k);
        }
      }
    } else {
      var early := if lag < gap then lag else gap;
      TwoShotsRun(gap, true, early, gap - early);
      assert Happened(TwoShots(true, early, gap - early), gap, lag);
    }
  }

  /** The guard lets unsafe gaps through: even without any lag, all those less than a second over the
      run window. */
  lemma GuardTooWeak(gap: real, lag: real)
    requires lag >= 0.0 && RUN_MAX_GAP_S < gap < RUN_MAX_GAP_S + 1.0 + lag
    ensures GapAccepted(gap) && !SafeGap(gap, lag)
  {
    SafeIffSecondOver(gap, lag);
  }

  /** One failed shot defeats every gap, even without any lag. */
  lemma FailureDefeatsGap(gap: real)
    ensures exists e: Experiment :: Happened(e, gap, 0.0) && !OneShotPerRun(e)
  {
    TwoShotsRun(gap, false, 0.0, 0.0);
    assert Happened(TwoShots(false, 0.0, 0.0), gap, 0.0);
  }

  /** So does an arm that outlives its shot's first token by long enough, though it comes before the
      next shot and no shot fails. */
  lemma LateArmDefeatsGap(gap: real)
    requires gap > 0.0
    ensures exists e: Experiment :: TookTurns(e, gap) && NoneFailed(e.shots) && !OneShotPerRun(e)
  {
    var apart := if gap < RUN_MAX_GAP_S then gap else RUN_MAX_GAP_S;
    TwoShotsRun(gap, true, gap - apart, apart);
    assert NoneFailed(TwoShots(true, gap - apart, apart).shots);
  }

  // ----- charging arms to shots

  /** The arms whose stamp lies in the interval, in order. */
  function ArmsBetween(arms: seq<Arm>, lo: real, hi: real): seq<Arm> {
    if arms == [] then []
    else
      var n := |arms| - 1;
      ArmsBetween(arms[..n], lo, hi) + (if lo <= arms[n].ts as real <= hi then [arms[n]] else [])
  }

  ghost predicate StampInside(e: Experiment, s: nat, i: int)
    requires s < |e.shots| && 0 <= i < |e.arms|
  {
    e.shots[s].arrival <= e.arms[i].ts as real <= e.shots[s].firstToken
  }

  /** Shot s's own arms among the first n, in order: all of them, or those stamped in its interval. */
  ghost function Own(e: Experiment, s: nat, n: nat, inside: bool): seq<Arm>
    requires n <= |e.arms| == |e.owner| && s < |e.shots|
  {
    if n == 0 then []
    else
      Own(e, s, n - 1, inside)
      + (if e.owner[n - 1] == s && (inside ==> StampInside(e, s, n - 1)) then [e.arms[n - 1]] else [])
  }

  /** No other shot's arm is stamped in a successful shot's interval. */
  lemma StampInsideIsOwn(e: Experiment, gap: real, s: nat, i: nat)
    requires TookTurns(e, gap) && gap >= 1.0 && s < |e.shots| && e.shots[s].ok && i < |e.arms|
    requires StampInside(e, s, i)
    ensures e.owner[i] == s
  {
    assert LoggedInTurn(e, i);
    var r := e.owner[i];
    if r < s { ShotsApart(e.shots, gap, r, s); }
    if s < r { ShotsApart(e.shots, gap, s, r); }
  }

  lemma {:induction false} ChargedUpTo(e: Experiment, gap: real, s: nat, n: nat)
    requires TookTurns(e, gap) && gap >= 1.0 && s < |e.shots| && e.shots[s].ok && n <= |e.arms|
    ensures ArmsBetween(e.arms[..n], e.shots[s].arrival, e.shots[s].firstToken) == Own(e, s, n, true)
  {
    if n > 0 {
      ChargedUpTo(e, gap, s, n - 1);
      if StampInside(e, s, n - 1) { StampInsideIsOwn(e, gap, s, n - 1); }
      assert e.arms[..n][..n - 1] == e.arms[..n - 1];
    }
  }

  lemma {:induction false} OwnInside(e: Experiment, s: nat, n: nat)
    requires n <= |e.arms| == |e.owner| && s < |e.shots|
    ensures |Own(e, s, n, true)| <= |Own(e, s, n, false)|
    ensures Own(e, s, n, true) == Own(e, s, n, false)
            <==> forall i :: 0 <= i < n && e.owner[i] == s ==> StampInside(e, s, i)
  {
    if n > 0 {
      OwnInside(e, s, n - 1);
      var a, b, x := Own(e, s, n - 1, true), Own(e, s, n - 1, false), e.arms[n - 1];
      assert a + [] == a && b + [] == b;
      if a + [x] == b + [x] {
        assert a == (a + [x])[..|a|] == (b + [x])[..|b|] == b;
      }
      var all := forall i :: 0 <= i < n && e.owner[i] == s ==> StampInside(e, s, i);
      assert all <==> a == b && (e.owner[n - 1] == s ==> StampInside(e, s, n - 1));
    }
  }

  /** With an accepted gap a successful shot is charged no other shot's arm, however late arms come
      before the next shot; and it is charged all its own if and only if none of them is stamped
      before its arrival or after its first token. */
  lemma ChargedToOwner(e: Experiment, gap: real, s: nat)
    requires TookTurns(e, gap) && GapAccepted(gap) && s < |e.shots| && e.shots[s].ok
    ensures var charged := ArmsBetween(e.arms, e.shots[s].arrival, e.shots[s].firstToken);
            && charged == Own(e, s, |e.arms|, true)
            && (charged == Own(e, s, |e.arms|, false)
                <==> forall i :: 0 <= i < |e.arms| && e.owner[i] == s ==> StampInside(e, s, i))
  {
    ChargedUpTo(e, gap, s, |e.arms|);
    assert e.arms[..|e.arms|] == e.arms;
    OwnInside(e, s, |e.arms|);
  }

  /** An arm in the second of its shot's arrival is charged to nobody: sent at 0.5, armed at 0.6,
      first token at 0.7, stamped 0. */
  lemma ArrivalSecondMissed(gap: real)
    ensures var e := Experiment([Shot(0.5, 0.7, true)], [Arm(0, PpToTp, 1, 0)], [0.6], [0]);
            && Happened(e, gap, 0.0) && TookTurns(e, gap)
            && ArmsBetween(e.arms, 0.5, 0.7) == [] && Own(e, 0, 1, false) == e.arms
  {
    var e := Experiment([Shot(0.5, 0.7, true)], [Arm(0, PpToTp, 1, 0)], [0.6], [0]);
    assert (0.6).Floor == 0;
    assert Stamped(e);
    assert e.arms[..0] == [];
  }
}
