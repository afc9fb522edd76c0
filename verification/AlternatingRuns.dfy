/** Ping-pong detection: maximal runs of alternating arms, their half-cycles, and the verdict. */
module AlternatingRuns {
  import opened Basics
  import opened Maxima

  const RUN_MAX_GAP_S: real := 8.0

  /** An arming line of the log, stamped in whole seconds. */
  datatype Arm = Arm(ts: int, dir: Direction, runningBs: nat, pending: nat)

  predicate MirroredTp(a: Arm) {
    a.dir.TpToPp? && a.runningBs == 0 && a.pending > 0
  }

  predicate MirroredPp(a: Arm) {
    a.dir.PpToTp? && a.runningBs >= 1 && a.pending == 0
  }

  // ----- runs

  predicate Linked(a: Arm, b: Arm, gap: real) {
    b.dir != a.dir && (b.ts - a.ts) as real <= gap
  }

  /** All neighbours in arms[i..j] are linked. */
  ghost predicate Chain(arms: seq<Arm>, gap: real, i: int, j: int) {
    0 <= i <= j <= |arms| && forall k :: i < k < j ==> Linked(arms[k - 1], arms[k], gap)
  }

  /** A chain of at least two arms that neither neighbour extends. */
  ghost predicate Segment(arms: seq<Arm>, gap: real, i: int, j: int) {
    && i + 2 <= j && Chain(arms, gap, i, j)
    && (i > 0 ==> !Linked(arms[i - 1], arms[i], gap))
    && (j < |arms| ==> !Linked(arms[j - 1], arms[j], gap))
  }

  /** The runs are segments of `arms`, listed in `at` in order; none that ends by `upto` is missing. */
  ghost predicate Found(arms: seq<Arm>, gap: real, runs: seq<seq<Arm>>, at: seq<(int, int)>, upto: int) {
    && |at| == |runs|
    && (forall k :: 0 <= k < |at| ==> RunAt(arms, gap, runs[k], at[k].0, at[k].1) && at[k].1 <= upto)
    && (forall k, l :: 0 <= k < l < |at| ==> at[k].1 <= at[l].0)
    && (forall i, j :: Segment(arms, gap, i, j) && j <= upto ==> (i, j) in at)
  }

  ghost predicate RunAt(arms: seq<Arm>, gap: real, run: seq<Arm>, i: int, j: int) {
    Segment(arms, gap, i, j) && run == arms[i..j]
  }

  /** The runs are exactly the segments, in order. */
  ghost predicate AreRuns(arms: seq<Arm>, gap: real, runs: seq<seq<Arm>>, at: seq<(int, int)>) {
    Found(arms, gap, runs, at, |arms|)
  }

  ghost predicate RunsOf(arms: seq<Arm>, gap: real, runs: seq<seq<Arm>>) {
    exists at :: AreRuns(arms, gap, runs, at)
  }

  /** The arms collected from `start` on form a chain that the arm before does not extend. */
  ghost predicate Open(arms: seq<Arm>, gap: real, start: int, i: int) {
    Chain(arms, gap, start, i) && (0 < start < |arms| ==> !Linked(arms[start - 1], arms[start], gap))
  }

  /** A segment that ends inside an open chain starts where the chain does, and ends where it ends. */
  lemma OnlySegment(arms: seq<Arm>, gap: real, start: int, i: int, p: int, q: int)
    requires Open(arms, gap, start, i) && Segment(arms, gap, p, q) && start < q <= i
    ensures p == start && q == i
  {
  }

  /** Closing an open chain adds it to the runs found, if it has two arms. */
  lemma Close(arms: seq<Arm>, gap: real, runs: seq<seq<Arm>>, at: seq<(int, int)>, start: int, i: int)
    requires Found(arms, gap, runs, at, start) && Open(arms, gap, start, i)
    requires i < |arms| ==> start == i || !Linked(arms[i - 1], arms[i], gap)
    ensures i - start < 2 ==> Found(arms, gap, runs, at, i)
    ensures i - start >= 2 ==> Found(arms, gap, runs + [arms[start..i]], at + [(start, i)], i)
  {
    forall p, q | Segment(arms, gap, p, q) && start < q <= i ensures p == start && q == i {
      OnlySegment(arms, gap, start, i, p, q);
    }
    if i - start >= 2 {
      var at' := at + [(start, i)];
      assert Segment(arms, gap, start, i) && at'[|at|] == (start, i);
      forall p, q | Segment(arms, gap, p, q) && q <= i ensures (p, q) in at' {
        if q <= start { assert (p, q) in at; }
      }
    }
  }

  /** The run detector finds exactly the maximal chains, in order. */
  method FindRuns(arms: seq<Arm>, gap: real) returns (runs: seq<seq<Arm>>)
    ensures RunsOf(arms, gap, runs)
  {
    hide Found, Segment, Linked;
    runs := [];
    ghost var at: seq<(int, int)> := [];
    var cur: seq<Arm> := [];
    ghost var start := 0;
    NoneYet(arms, gap);
    for i := 0 to |arms|
      invariant 0 <= start <= i && cur == arms[start..i] && (i > 0 ==> start < i)
      invariant Open(arms, gap, start, i) && Found(arms, gap, runs, at, start)
    {
      if cur != [] && Linked(cur[|cur| - 1], arms[i], gap) {
        cur := cur + [arms[i]];
      } else {
        Close(arms, gap, runs, at, start, i);
        if |cur| >= 2 {
          runs, at := runs + [cur], at + [(start, i)];
        }
        cur, start := [arms[i]], i;
      }
    }
    Close(arms, gap, runs, at, start, |arms|);
    if |cur| >= 2 {
      runs, at := runs + [cur], at + [(start, |arms|)];
    }
    assert AreRuns(arms, gap, runs, at);
  }

  lemma NoneYet(arms: seq<Arm>, gap: real)
    ensures Found(arms, gap, [], [], 0)
  {
  }

  // ----- half-cycles

  /** The gaps between neighbours in arms[i..j] that are linked, in order. */
  ghost function LinkedGaps(arms: seq<Arm>, gap: real, i: int, j: int): seq<int>
    requires 0 <= i <= j <= |arms|
    decreases j - i
  {
    if j - i < 2 then []
    else
      LinkedGaps(arms, gap, i, j - 1)
      + (if Linked(arms[j - 2], arms[j - 1], gap) then [arms[j - 1].ts - arms[j - 2].ts] else [])
  }

  function Gaps(run: seq<Arm>): seq<int> {
    if |run| < 2 then []
    else var n := |run| - 1; Gaps(run[..n]) + [run[n].ts - run[n - 1].ts]
  }

  function AllGaps(runs: seq<seq<Arm>>): seq<int> {
    if runs == [] then [] else var n := |runs| - 1; AllGaps(runs[..n]) + Gaps(runs[n])
  }

  /** The gaps of every run, run after run. */
  method HalfCycles(runs: seq<seq<Arm>>) returns (out: seq<int>)
    ensures out == AllGaps(runs)
  {
    out := [];
    for k := 0 to |runs|
      invariant out == AllGaps(runs[..k])
    {
      assert runs[..k + 1][..k] == runs[..k];
      var r := runs[k];
      ghost var before := out;
      var i := 1;
      while i < |r|
        invariant 1 <= i && (|r| > 0 ==> i <= |r|)
        invariant out == before + Gaps(r[..if i <= |r| then i else |r|])
      {
        assert r[..i + 1][..i] == r[..i];
        out := out + [r[i].ts - r[i - 1].ts];
        i := i + 1;
      }
      assert r[..|r|] == r;
    }
    assert runs[..|runs|] == runs;
  }

  /** Where the chain through arm m begins. */
  ghost function Leftmost(arms: seq<Arm>, gap: real, m: nat): (i: nat)
    requires m < |arms|
    ensures i <= m && Open(arms, gap, i, m + 1)
  {
    if m > 0 && Linked(arms[m - 1], arms[m], gap) then Leftmost(arms, gap, m - 1) else m
  }

  /** Where the chain through arm m ends. */
  ghost function Rightmost(arms: seq<Arm>, gap: real, m: nat): (j: nat)
    requires m < |arms|
    ensures m < j <= |arms| && Chain(arms, gap, m, j) && (j < |arms| ==> !Linked(arms[j - 1], arms[j], gap))
    decreases |arms| - m
  {
    if m + 1 < |arms| && Linked(arms[m], arms[m + 1], gap) then Rightmost(arms, gap, m + 1) else m + 1
  }

  /** Two linked neighbours lie in one of the runs found. */
  lemma LinkedIsInRun(arms: seq<Arm>, gap: real, runs: seq<seq<Arm>>, at: seq<(int, int)>, m: nat) returns (k: nat)
    requires AreRuns(arms, gap, runs, at) && m + 1 < |arms| && Linked(arms[m], arms[m + 1], gap)
    ensures k < |at| && at[k].0 <= m && m + 2 <= at[k].1
  {
    var i, j := Leftmost(arms, gap, m), Rightmost(arms, gap, m + 1);
    assert Segment(arms, gap, i, j);
    k :| 0 <= k < |at| && at[k] == (i, j);
  }

  lemma GapsSnoc(arms: seq<Arm>, i: int, j: int)
    requires 0 <= i && i + 2 <= j <= |arms|
    ensures Gaps(arms[i..j]) == Gaps(arms[i..j - 1]) + [arms[j - 1].ts - arms[j - 2].ts]
  {
    assert arms[i..j][..j - 1 - i] == arms[i..j - 1];
  }

  lemma {:induction false} GapsOfChain(arms: seq<Arm>, gap: real, from: int, i: int, j: int)
    requires Chain(arms, gap, i, j) && 0 <= from <= i < j && (from < i ==> !Linked(arms[i - 1], arms[i], gap))
    ensures LinkedGaps(arms, gap, from, j) == LinkedGaps(arms, gap, from, i) + Gaps(arms[i..j])
    decreases j - i
  {
    if j - i >= 2 {
      hide Gaps, Linked;
      GapsOfChain(arms, gap, from, i, j - 1);
      GapsSnoc(arms, i, j);
      assert Linked(arms[j - 2], arms[j - 1], gap);
    }
  }

  lemma {:induction false} NoGaps(arms: seq<Arm>, gap: real, i: int, j: int)
    requires 0 < i <= j <= |arms| && forall m :: i <= m < j ==> !Linked(arms[m - 1], arms[m], gap)
    ensures LinkedGaps(arms, gap, 0, j) == LinkedGaps(arms, gap, 0, i)
    decreases j - i
  {
    if i < j { NoGaps(arms, gap, i, j - 1); }
  }

  ghost function EndOf(at: seq<(int, int)>, k: nat): int
    requires k <= |at|
  {
    if k == 0 then 0 else at[k - 1].1
  }

  ghost function StartOf(arms: seq<Arm>, at: seq<(int, int)>, k: nat): int
    requires k <= |at|
  {
    if k == |at| then |arms| else at[k].0
  }

  /** No two neighbours between consecutive runs are linked. */
  lemma UnlinkedBetween(arms: seq<Arm>, gap: real, runs: seq<seq<Arm>>, at: seq<(int, int)>, k: nat, m: nat)
    requires AreRuns(arms, gap, runs, at) && k <= |at|
    requires EndOf(at, k) <= m && 0 < m < StartOf(arms, at, k) && m < |arms|
    ensures !Linked(arms[m - 1], arms[m], gap)
  {
    if Linked(arms[m - 1], arms[m], gap) {
      var l := LinkedIsInRun(arms, gap, runs, at, m - 1);
    }
  }

  lemma GapsBetween(arms: seq<Arm>, gap: real, runs: seq<seq<Arm>>, at: seq<(int, int)>, k: nat)
    requires AreRuns(arms, gap, runs, at) && k <= |at|
    ensures 0 <= EndOf(at, k) <= StartOf(arms, at, k) <= |arms|
    ensures LinkedGaps(arms, gap, 0, StartOf(arms, at, k)) == LinkedGaps(arms, gap, 0, EndOf(at, k))
  {
    var e, b := EndOf(at, k), StartOf(arms, at, k);
    assert 0 <= e <= b <= |arms|;
    forall m | e <= m < b && 0 < m ensures !Linked(arms[m - 1], arms[m], gap) {
      UnlinkedBetween(arms, gap, runs, at, k, m);
    }
    if b > 0 { NoGaps(arms, gap, if e > 0 then e else 1, b); }
  }

  /** One more run adds its own gaps. */
  lemma GapsOfRun(arms: seq<Arm>, gap: real, runs: seq<seq<Arm>>, at: seq<(int, int)>, k: nat)
    requires AreRuns(arms, gap, runs, at) && k < |at|
    ensures 0 <= EndOf(at, k) <= |arms| && 0 <= at[k].1 <= |arms|
    ensures LinkedGaps(arms, gap, 0, at[k].1) == LinkedGaps(arms, gap, 0, EndOf(at, k)) + Gaps(runs[k])
  {
    hide Linked, Gaps, LinkedGaps;
    GapsBetween(arms, gap, runs, at, k);
    assert RunAt(arms, gap, runs[k], at[k].0, at[k].1);
    GapsOfChain(arms, gap, 0, at[k].0, at[k].1);
  }

  lemma {:induction false} GapsUpTo(arms: seq<Arm>, gap: real, runs: seq<seq<Arm>>, at: seq<(int, int)>, k: nat)
    requires AreRuns(arms, gap, runs, at) && k <= |at| == |runs|
    ensures 0 <= EndOf(at, k) <= |arms| && AllGaps(runs[..k]) == LinkedGaps(arms, gap, 0, EndOf(at, k))
  {
    hide Found, Gaps;
    if k > 0 {
      GapsUpTo(arms, gap, runs, at, k - 1);
      GapsOfRun(arms, gap, runs, at, k - 1);
      assert runs[..k][..k - 1] == runs[..k - 1];
    }
  }

  /** The half-cycles reported are the gaps of all linked neighbours in the log, in order, and none
      is over the limit. */
  lemma HalfCyclesAreLinkedGaps(arms: seq<Arm>, gap: real, runs: seq<seq<Arm>>)
    requires RunsOf(arms, gap, runs)
    ensures AllGaps(runs) == LinkedGaps(arms, gap, 0, |arms|)
    ensures forall g :: g in AllGaps(runs) ==> g as real <= gap
  {
    var at: seq<(int, int)> :| AreRuns(arms, gap, runs, at);
    GapsUpTo(arms, gap, runs, at, |at|);
    GapsBetween(arms, gap, runs, at, |at|);
    assert runs[..|at|] == runs;
    GapsBounded(arms, gap, |arms|);
  }

  lemma {:induction false} GapsBounded(arms: seq<Arm>, gap: real, j: nat)
    requires j <= |arms|
    ensures forall g :: g in LinkedGaps(arms, gap, 0, j) ==> g as real <= gap
  {
    if j >= 2 { GapsBounded(arms, gap, j - 1); }
  }

  // ----- the verdict

  datatype ArmKind = Control | Fixed

  datatype Report = Report(runs: nat, withSignature: nat, longest: nat)

  /** Both halves of the ping-pong appear in the run. */
  predicate Signature(run: seq<Arm>) {
    && (exists p :: 0 <= p < |run| && MirroredTp(run[p]))
    && (exists q :: 0 <= q < |run| && MirroredPp(run[q]))
  }

  function CountSignature(runs: seq<seq<Arm>>): (n: nat)
    ensures n >= 1 <==> exists k :: 0 <= k < |runs| && Signature(runs[k])
  {
    if runs == [] then 0
    else
      var m := |runs| - 1;
      assert forall k :: 0 <= k < m ==> runs[..m][k] == runs[k];
      CountSignature(runs[..m]) + (if Signature(runs[m]) then 1 else 0)
  }

  function ReportOf(runs: seq<seq<Arm>>): Report {
    Report(|runs|, CountSignature(runs), MaxOr0(seq(|runs|, k requires 0 <= k < |runs| => |runs[k]|)))
  }

  predicate Verdict(res: Report, kind: ArmKind) {
    match kind
    case Control => res.withSignature >= 1
    case Fixed => res.withSignature == 0 && res.longest <= 1
  }

  /** The fixed arm passes exactly when no two neighbouring arms of the log are linked. */
  lemma FixedIffUnlinked(arms: seq<Arm>, gap: real, runs: seq<seq<Arm>>)
    requires RunsOf(arms, gap, runs)
    ensures Verdict(ReportOf(runs), Fixed) <==> forall m :: 0 < m < |arms| ==> !Linked(arms[m - 1], arms[m], gap)
  {
    var at: seq<(int, int)> :| AreRuns(arms, gap, runs, at);
    var lengths := seq(|runs|, k requires 0 <= k < |runs| => |runs[k]|);
    if runs != [] {
      assert RunAt(arms, gap, runs[0], at[0].0, at[0].1) && lengths[0] >= 2;
      assert Linked(arms[at[0].0 + 1 - 1], arms[at[0].0 + 1], gap);
    } else {
      forall m | 0 < m < |arms| ensures !Linked(arms[m - 1], arms[m], gap) {
        UnlinkedBetween(arms, gap, runs, at, 0, m);
      }
    }
  }

  /** Two mirrored arms joined by an unbroken chain, in either order. */
  ghost predicate PingPong(arms: seq<Arm>, gap: real, p: int, q: int) {
    && 0 <= p < |arms| && 0 <= q < |arms| && MirroredTp(arms[p]) && MirroredPp(arms[q])
    && (if p < q then Chain(arms, gap, p, q + 1) else Chain(arms, gap, q, p + 1))
  }

  /** A chain of two or more arms lies within one run. */
  lemma ChainIsInRun(arms: seq<Arm>, gap: real, runs: seq<seq<Arm>>, at: seq<(int, int)>, p: nat, q: nat)
    returns (k: nat)
    requires AreRuns(arms, gap, runs, at) && p < q < |arms| && Chain(arms, gap, p, q + 1)
    ensures k < |at| && at[k].0 <= p && q < at[k].1
  {
    assert Linked(arms[p + 1 - 1], arms[p + 1], gap);
    k := LinkedIsInRun(arms, gap, runs, at, p);
  }

  lemma SignatureIsPingPong(arms: seq<Arm>, gap: real, run: seq<Arm>, i: int, j: int)
    requires RunAt(arms, gap, run, i, j) && Signature(run)
    ensures exists p, q :: PingPong(arms, gap, p, q)
  {
    var p :| 0 <= p < |run| && MirroredTp(run[p]);
    var q :| 0 <= q < |run| && MirroredPp(run[q]);
    assert PingPong(arms, gap, i + p, i + q);
  }

  lemma PingPongIsSignature(arms: seq<Arm>, gap: real, run: seq<Arm>, i: int, j: int, p: int, q: int)
    requires RunAt(arms, gap, run, i, j) && i <= p < j && i <= q < j && MirroredTp(arms[p]) && MirroredPp(arms[q])
    ensures Signature(run)
  {
    assert run[p - i] == arms[p] && run[q - i] == arms[q];
  }

  lemma PingPongInRun(arms: seq<Arm>, gap: real, runs: seq<seq<Arm>>, at: seq<(int, int)>, p: int, q: int)
    returns (k: nat)
    requires AreRuns(arms, gap, runs, at) && PingPong(arms, gap, p, q)
    ensures k < |runs| && Signature(runs[k])
  {
    hide Signature, Segment, Chain;
    k := ChainIsInRun(arms, gap, runs, at, if p < q then p else q, if p < q then q else p);
    assert RunAt(arms, gap, runs[k], at[k].0, at[k].1);
    PingPongIsSignature(arms, gap, runs[k], at[k].0, at[k].1, p, q);
  }

  /** The control arm passes exactly when some mirrored pair of the log is joined by a chain. */
  lemma ControlIffPingPong(arms: seq<Arm>, gap: real, runs: seq<seq<Arm>>)
    requires RunsOf(arms, gap, runs)
    ensures Verdict(ReportOf(runs), Control) <==> exists p, q :: PingPong(arms, gap, p, q)
  {
    hide Signature, PingPong, Segment, CountSignature;
    var at: seq<(int, int)> :| AreRuns(arms, gap, runs, at);
    if k :| 0 <= k < |runs| && Signature(runs[k]) {
      assert RunAt(arms, gap, runs[k], at[k].0, at[k].1);
      SignatureIsPingPong(arms, gap, runs[k], at[k].0, at[k].1);
    }
    if p, q :| PingPong(arms, gap, p, q) {
      var k := PingPongInRun(arms, gap, runs, at, p, q);
    }
  }
}
