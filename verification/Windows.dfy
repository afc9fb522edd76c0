/** Samples attributed to cutovers and phases by looking at neighbouring marks only. */
module Windows {
  import opened Basics

  // ----- samples inside a cutover

  const IN_LO: real := -0.2
  const IN_HI: real := 1.5

  predicate InWindow(ts: real, mark: int) {
    IN_LO <= ts - mark as real <= IN_HI
  }

  /** Cutover marks are distinct whole seconds, in order. */
  ghost predicate Marks(marks: seq<int>) {
    forall i, j :: 0 <= i < j < |marks| ==> marks[i] < marks[j]
  }

  lemma {:induction false} MarksSpread(marks: seq<int>, i: nat, j: nat)
    requires Marks(marks) && i <= j < |marks|
    ensures marks[j] - marks[i] >= j - i
    decreases j - i
  {
    if i < j { MarksSpread(marks, i + 1, j); }
  }

  /** Marks further than the neighbourhood are out of the window. */
  lemma FarMarksMiss(marks: seq<int>, ts: real, lo: nat, j: nat)
    requires Marks(marks) && lo <= |marks| && j < |marks|
    requires forall i :: 0 <= i < lo ==> (marks[i] as real) < ts + IN_LO
    requires forall i :: lo <= i < |marks| ==> marks[i] as real >= ts + IN_LO
    requires j < lo - 2 || j > lo + 1
    ensures !InWindow(ts, marks[j])
  {
    if j < lo - 2 {
      MarksSpread(marks, j, lo - 1);
    } else {
      MarksSpread(marks, lo, j);
    }
  }

  /** Four neighbours of the search's end are enough: the result is a full scan's. */
  method InCutover(marks: seq<int>, ts: real) returns (hit: bool)
    requires Marks(marks)
    ensures hit <==> exists j :: 0 <= j < |marks| && InWindow(ts, marks[j])
  {
    var lo, hi := 0, |marks| - 1;
    while lo <= hi
      invariant 0 <= lo <= hi + 1 <= |marks|
      invariant forall i :: 0 <= i < lo ==> (marks[i] as real) < ts + IN_LO
      invariant forall i :: hi < i < |marks| ==> marks[i] as real >= ts + IN_LO
    {
      var mid := (lo + hi) / 2;
      if (marks[mid] as real) < ts + IN_LO {
        lo := mid + 1;
      } else {
        hi := mid - 1;
      }
    }
    var from := if lo >= 2 then lo - 2 else 0;
    var to := if lo + 2 <= |marks| then lo + 2 else |marks|;
    for j := from to to
      invariant forall i :: from <= i < j ==> !InWindow(ts, marks[i])
    {
      if InWindow(ts, marks[j]) {
        return true;
      }
    }
    forall j | 0 <= j < |marks| ensures !InWindow(ts, marks[j]) {
      if j < from || j >= to { FarMarksMiss(marks, ts, lo, j); }
    }
    return false;
  }

  datatype Sample = Sample(ts: real, free: seq<int>)

  ghost predicate Inside(marks: seq<int>, s: Sample) {
    exists j :: 0 <= j < |marks| && InWindow(s.ts, marks[j])
  }

  /** The samples satisfying p, in order. */
  ghost function Only(rows: seq<Sample>, p: Sample -> bool): seq<Sample> {
    if rows == [] then []
    else var n := |rows| - 1; Only(rows[..n], p) + (if p(rows[n]) then [rows[n]] else [])
  }

  /** Samples are split into exactly those in a cutover and those not, each in order. */
  method SplitRows(marks: seq<int>, rows: seq<Sample>) returns (inside: seq<Sample>, outside: seq<Sample>)
    requires Marks(marks)
    ensures inside == Only(rows, s => Inside(marks, s)) && outside == Only(rows, s => !Inside(marks, s))
    ensures |inside| + |outside| == |rows|
  {
    inside, outside := [], [];
    for i := 0 to |rows|
      invariant inside == Only(rows[..i], s => Inside(marks, s))
      invariant outside == Only(rows[..i], s => !Inside(marks, s))
      invariant |inside| + |outside| == i
    {
      assert rows[..i + 1][..i] == rows[..i];
      var hit := InCutover(marks, rows[i].ts);
      if hit {
        inside := inside + [rows[i]];
      } else {
        outside := outside + [rows[i]];
      }
    }
    assert rows[..|rows|] == rows;
  }

  // ----- the phase a sample belongs to

  datatype Phase = Pp | Tp

  datatype Transition = Transition(at: real, phase: Phase)

  ghost predicate InTime(ts: seq<Transition>) {
    forall i, j :: 0 <= i < j < |ts| ==> ts[i].at <= ts[j].at
  }

  function Distance(a: real, b: real): real {
    if a < b then b - a else a - b
  }

  /** The transitions at or before t. */
  function Entered(ts: seq<Transition>, t: real): (n: nat)
    ensures n <= |ts|
    ensures forall i :: 0 <= i < n ==> ts[i].at <= t
    ensures n < |ts| ==> ts[n].at > t
  {
    if ts == [] || ts[0].at > t then 0 else 1 + Entered(ts[1..], t)
  }

  /** Transition i is the last one at or before t. */
  ghost predicate Latest(ts: seq<Transition>, t: real, i: nat) {
    i < |ts| && ts[i].at <= t && forall j :: i < j < |ts| ==> ts[j].at > t
  }

  /** No transition, before or after t, is within the margin. */
  ghost predicate Clear(ts: seq<Transition>, t: real, margin: real) {
    forall i :: 0 <= i < |ts| ==> Distance(t, ts[i].at) >= margin
  }

  /** Look at the transition before t and the one after it, and at no other. */
  function PhaseAt(ts: seq<Transition>, t: real, margin: real): Option<Phase> {
    var i := Entered(ts, t) - 1;
    if i < 0 then None
    else if t - ts[i].at < margin then None
    else if i + 1 < |ts| && ts[i + 1].at - t < margin then None
    else Some(ts[i].phase)
  }

  /** The two neighbours of t are the nearest transitions on their side. */
  lemma NearestDecide(ts: seq<Transition>, t: real, margin: real, n: nat)
    requires InTime(ts) && 0 < n <= |ts| && Entered(ts, t) == n
    ensures Clear(ts, t, margin) <==> t - ts[n - 1].at >= margin && (n < |ts| ==> ts[n].at - t >= margin)
  {
    if t - ts[n - 1].at >= margin && (n < |ts| ==> ts[n].at - t >= margin) {
      forall i | 0 <= i < |ts| ensures Distance(t, ts[i].at) >= margin {
        if i < n - 1 { assert ts[i].at <= ts[n - 1].at; }
        if i > n { assert ts[n].at <= ts[i].at; }
      }
    }
    if Clear(ts, t, margin) {
      assert Distance(t, ts[n - 1].at) >= margin;
      if n < |ts| { assert Distance(t, ts[n].at) >= margin; }
    }
  }

  /** A phase is returned exactly when one has been entered and no transition at all is within the
      margin, and then it is the latest one entered. */
  lemma PhaseAtMeaning(ts: seq<Transition>, t: real, margin: real)
    requires InTime(ts)
    ensures PhaseAt(ts, t, margin).Some? <==> (exists i: nat :: Latest(ts, t, i)) && Clear(ts, t, margin)
    ensures forall i: nat :: Latest(ts, t, i) && Clear(ts, t, margin) ==> PhaseAt(ts, t, margin) == Some(ts[i].phase)
  {
    var n := Entered(ts, t);
    if n > 0 {
      NearestDecide(ts, t, margin, n);
      assert Latest(ts, t, n - 1);
    }
    forall i: nat | Latest(ts, t, i) ensures i == n - 1 {
    }
  }

  predicate InRun(s: Sample, since: real, until: real) {
    since <= s.ts <= until
  }

  /** How many samples fall in the run. */
  function Used(rows: seq<Sample>, since: real, until: real): nat {
    if rows == [] then 0
    else var n := |rows| - 1; Used(rows[..n], since, until) + (if InRun(rows[n], since, until) then 1 else 0)
  }

  /** Card c's readings of the samples attributed to this phase, or to none, in order. */
  ghost function Readings(ts: seq<Transition>, rows: seq<Sample>, since: real, until: real, margin: real,
                          want: Option<Phase>, c: nat): seq<int>
    requires forall i :: 0 <= i < |rows| ==> c < |rows[i].free|
  {
    if rows == [] then []
    else
      var n := |rows| - 1;
      Readings(ts, rows[..n], since, until, margin, want, c)
      + (if InRun(rows[n], since, until) && PhaseAt(ts, rows[n].ts, margin) == want then [rows[n].free[c]] else [])
  }

  /** Every sample of the run lands in exactly one of pp, tp and seam, on every card. */
  method Buckets(ts: seq<Transition>, rows: seq<Sample>, since: real, until: real, margin: real, ncards: nat)
    returns (pp: seq<seq<int>>, tp: seq<seq<int>>, seam: seq<seq<int>>, used: nat)
    requires InTime(ts) && forall i :: 0 <= i < |rows| ==> ncards <= |rows[i].free|
    ensures |pp| == |tp| == |seam| == ncards && used == Used(rows, since, until)
    ensures forall c :: 0 <= c < ncards ==> pp[c] == Readings(ts, rows, since, until, margin, Some(Pp), c)
    ensures forall c :: 0 <= c < ncards ==> tp[c] == Readings(ts, rows, since, until, margin, Some(Tp), c)
    ensures forall c :: 0 <= c < ncards ==> seam[c] == Readings(ts, rows, since, until, margin, None, c)
    ensures forall c :: 0 <= c < ncards ==> |pp[c]| + |tp[c]| + |seam[c]| == used
  {
    hide PhaseAt;
    pp, tp, seam, used := seq(ncards, _ => []), seq(ncards, _ => []), seq(ncards, _ => []), 0;
    for i := 0 to |rows|
      invariant |pp| == |tp| == |seam| == ncards && used == Used(rows[..i], since, until)
      invariant forall c :: 0 <= c < ncards ==> pp[c] == Readings(ts, rows[..i], since, until, margin, Some(Pp), c)
      invariant forall c :: 0 <= c < ncards ==> tp[c] == Readings(ts, rows[..i], since, until, margin, Some(Tp), c)
      invariant forall c :: 0 <= c < ncards ==> seam[c] == Readings(ts, rows[..i], since, until, margin, None, c)
      invariant forall c :: 0 <= c < ncards ==> |pp[c]| + |tp[c]| + |seam[c]| == used
    {
      assert rows[..i + 1][..i] == rows[..i];
      if !InRun(rows[i], since, until) {
        continue;
      }
      var ph := PhaseAt(ts, rows[i].ts, margin);
      used := used + 1;
      match ph
      case None => seam := AppendAll(seam, rows[i].free);
      case Some(Pp) => pp := AppendAll(pp, rows[i].free);
      case Some(Tp) => tp := AppendAll(tp, rows[i].free);
    }
    assert rows[..|rows|] == rows;
  }

  /** Append one sample's reading to every card's list. */
  function AppendAll(lists: seq<seq<int>>, free: seq<int>): (r: seq<seq<int>>)
    requires |lists| <= |free|
    ensures |r| == |lists| && forall c :: 0 <= c < |r| ==> r[c] == lists[c] + [free[c]]
  {
    seq(|lists|, c requires 0 <= c < |lists| => lists[c] + [free[c]])
  }
}
