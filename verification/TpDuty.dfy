/** Time spent inside TP windows, from the phase transitions of one rank. */
module TpDuty {
  import opened Basics
  import opened Text

  datatype Event = Event(ts: real, dir: Direction)

  /** A parsed log line: the same flip is logged once per rank. */
  datatype Mark = Mark(ts: real, rank: string, dir: Direction)

  // ----- one rank's events, in order

  predicate NotAfter(a: Event, b: Event) {
    a.ts < b.ts || (a.ts == b.ts && !(a.dir.TpToPp? && b.dir.PpToTp?))
  }

  ghost predicate Ordered(events: seq<Event>) {
    forall i, j :: 0 <= i < j < |events| ==> NotAfter(events[i], events[j])
  }

  function InsertEvent(events: seq<Event>, e: Event): seq<Event> {
    if events == [] then [e]
    else
      var n := |events| - 1;
      if NotAfter(events[n], e) then events + [e] else InsertEvent(events[..n], e) + [events[n]]
  }

  lemma {:induction false} InsertEventOrdered(events: seq<Event>, e: Event)
    requires Ordered(events)
    ensures Ordered(InsertEvent(events, e))
    ensures multiset(InsertEvent(events, e)) == multiset(events) + multiset{e}
  {
    if events != [] {
      var n := |events| - 1;
      assert events == events[..n] + [events[n]];
      if NotAfter(events[n], e) {
        forall i | 0 <= i <= n ensures NotAfter(events[i], e) {
          if i < n { assert NotAfter(events[i], events[n]); }
        }
      } else {
        InsertEventOrdered(events[..n], e);
        var front := InsertEvent(events[..n], e);
        forall i | 0 <= i < |front| ensures NotAfter(front[i], events[n]) {
          assert front[i] in multiset(front);
          assert front[i] == e || front[i] in events[..n];
        }
      }
    }
  }

  /** The first rank in the log, by name. */
  function KeptRank(parsed: seq<Mark>): (keep: string)
    requires parsed != []
    ensures exists i :: 0 <= i < |parsed| && parsed[i].rank == keep
    ensures forall i :: 0 <= i < |parsed| ==> !Less(parsed[i].rank, keep)
  {
    var n := |parsed| - 1;
    LessIrreflexive(parsed[n].rank);
    if n == 0 then assert parsed[0].rank == parsed[n].rank; parsed[n].rank
    else
      var k := KeptRank(parsed[..n]);
      assert exists i :: 0 <= i < n && parsed[..n][i].rank == k && parsed[i].rank == k;
      assert forall i :: 0 <= i < n ==> !Less(parsed[..n][i].rank, k);
      if Less(parsed[n].rank, k) then
        LowerStill(parsed[..n], k, parsed[n].rank);
        assert parsed[n].rank == parsed[n].rank;
        parsed[n].rank
      else k
  }

  lemma LowerStill(parsed: seq<Mark>, k: string, lower: string)
    requires Less(lower, k) && forall i :: 0 <= i < |parsed| ==> !Less(parsed[i].rank, k)
    ensures forall i :: 0 <= i < |parsed| ==> !Less(parsed[i].rank, lower)
  {
    forall i | 0 <= i < |parsed| ensures !Less(parsed[i].rank, lower) {
      if Less(parsed[i].rank, lower) { LessTransitive(parsed[i].rank, lower, k); }
    }
  }

  /** One rank's events, sorted. */
  function EventsOf(parsed: seq<Mark>, keep: string): seq<Event> {
    if parsed == [] then []
    else
      var n := |parsed| - 1;
      var before := EventsOf(parsed[..n], keep);
      if parsed[n].rank == keep then InsertEvent(before, Event(parsed[n].ts, parsed[n].dir)) else before
  }

  /** The kept rank's events as they stand in the log. */
  function KeptEvents(parsed: seq<Mark>, keep: string): seq<Event> {
    if parsed == [] then []
    else
      var n := |parsed| - 1;
      KeptEvents(parsed[..n], keep)
      + (if parsed[n].rank == keep then [Event(parsed[n].ts, parsed[n].dir)] else [])
  }

  /** Sorting puts them in order and neither drops nor adds any. */
  lemma {:induction false} EventsOrdered(parsed: seq<Mark>, keep: string)
    ensures Ordered(EventsOf(parsed, keep))
    ensures multiset(EventsOf(parsed, keep)) == multiset(KeptEvents(parsed, keep))
  {
    if parsed != [] {
      var n := |parsed| - 1;
      EventsOrdered(parsed[..n], keep);
      InsertEventOrdered(EventsOf(parsed[..n], keep), Event(parsed[n].ts, parsed[n].dir));
    }
  }

  // ----- the phase at an instant, and the time accumulated up to it

  /** The latest event at or before t went to TP. */
  function InTp(events: seq<Event>, t: real): bool {
    if events == [] then false
    else
      var e := events[|events| - 1];
      if e.ts <= t then e.dir.PpToTp? else InTp(events[..|events| - 1], t)
  }

  /** TP time accumulated up to t. */
  function Accrued(events: seq<Event>, t: real): real {
    if events == [] then 0.0
    else
      var n := |events| - 1;
      var e := events[n];
      if t <= e.ts then Accrued(events[..n], t)
      else Accrued(events[..n], e.ts) + (if e.dir.PpToTp? then t - e.ts else 0.0)
  }

  function Duty(events: seq<Event>, a: real, b: real): real {
    Accrued(events, b) - Accrued(events, a)
  }

  /** Past the last event, time accrues at the last event's rate. */
  lemma AccruedBeyond(events: seq<Event>, cur: real, t: real)
    requires cur <= t && forall i :: 0 <= i < |events| ==> events[i].ts <= cur
    ensures Accrued(events, t) == Accrued(events, cur) + (if InTp(events, cur) then t - cur else 0.0)
  {
    if events != [] {
      var n := |events| - 1;
      var e := events[n];
      if t == cur {
      } else if cur == e.ts {
      } else {
      }
    }
  }

  lemma AccruedIgnoresLater(events: seq<Event>, n: nat, t: real)
    requires n <= |events| && forall i :: n <= i < |events| ==> t <= events[i].ts
    ensures Accrued(events, t) == Accrued(events[..n], t)
    decreases |events| - n
  {
    if n == |events| {
      assert events[..n] == events;
    } else {
      AccruedIgnoresLater(events, n + 1, t);
      assert events[..n + 1][..n] == events[..n];
    }
  }

  lemma StaysLater(events: seq<Event>, i: nat, j: nat)
    requires Ordered(events) && i < j < |events|
    ensures events[i].ts <= events[j].ts
  {
    assert NotAfter(events[i], events[j]);
  }

  /** One more event decides the phase from then on, and adds nothing up to then. */
  lemma OneEvent(events: seq<Event>, i: nat, t: real)
    requires i < |events|
    ensures events[i].ts <= t ==> InTp(events[..i + 1], t) == events[i].dir.PpToTp?
    ensures t <= events[i].ts ==> Accrued(events[..i + 1], t) == Accrued(events[..i], t)
  {
    assert events[..i + 1][..i] == events[..i];
  }

  /** The fold after i events, of which the first m are not after the window: it has reached `cur`. */
  ghost predicate Folded(events: seq<Event>, tStart: real, tEnd: real, i: int, m: int, cur: real, inTp: bool, total: real) {
    && 0 <= m <= i <= |events| && tStart <= cur <= tEnd
    && (cur == tStart || (m > 0 && cur == events[m - 1].ts))
    && (forall j :: 0 <= j < m ==> events[j].ts <= cur)
    && (forall j :: m <= j < i ==> events[j].ts > tEnd)
    && inTp == InTp(events[..m], cur)
    && total == Accrued(events[..m], cur) - Accrued(events[..m], tStart)
  }

  lemma FoldAfter(events: seq<Event>, tStart: real, tEnd: real, i: nat, m: nat, cur: real, inTp: bool, total: real)
    requires Folded(events, tStart, tEnd, i, m, cur, inTp, total) && i < |events| && events[i].ts > tEnd
    ensures Folded(events, tStart, tEnd, i + 1, m, cur, inTp, total)
  {
  }

  /** An event at or before the end of the window comes after none that was skipped. */
  lemma NoneSkipped(events: seq<Event>, tStart: real, tEnd: real, i: nat, m: nat, cur: real, inTp: bool, total: real)
    requires Ordered(events) && Folded(events, tStart, tEnd, i, m, cur, inTp, total) && i < |events| && events[i].ts <= tEnd
    ensures m == i && forall j :: 0 <= j < i ==> events[j].ts <= events[i].ts
  {
    hide InTp, Accrued;
    if m < i { StaysLater(events, m, i); }
    forall j | 0 <= j < i ensures events[j].ts <= events[i].ts { StaysLater(events, j, i); }
  }

  lemma FoldBefore(events: seq<Event>, tStart: real, tEnd: real, i: nat, m: nat, cur: real, inTp: bool, total: real)
    requires Ordered(events) && Folded(events, tStart, tEnd, i, m, cur, inTp, total) && i < |events|
    requires events[i].ts < tStart
    ensures Folded(events, tStart, tEnd, i + 1, i + 1, cur, events[i].dir.PpToTp?, total)
  {
    hide InTp, Accrued;
    NoneSkipped(events, tStart, tEnd, i, m, cur, inTp, total);
    OneEvent(events, i, tStart);
  }

  lemma FoldInside(events: seq<Event>, tStart: real, tEnd: real, i: nat, m: nat, cur: real, inTp: bool, total: real)
    requires Ordered(events) && Folded(events, tStart, tEnd, i, m, cur, inTp, total) && i < |events|
    requires tStart <= events[i].ts <= tEnd
    ensures var ts := events[i].ts;
            Folded(events, tStart, tEnd, i + 1, i + 1, ts, events[i].dir.PpToTp?, total + if inTp then ts - cur else 0.0)
  {
    hide InTp, Accrued;
    NoneSkipped(events, tStart, tEnd, i, m, cur, inTp, total);
    OneEvent(events, i, tStart);
    OneEvent(events, i, events[i].ts);
    AccruedBeyond(events[..i], cur, events[i].ts);
  }

  lemma FoldEnd(events: seq<Event>, tStart: real, tEnd: real, m: nat, cur: real, inTp: bool, total: real)
    requires Folded(events, tStart, tEnd, |events|, m, cur, inTp, total)
    ensures total + (if inTp then tEnd - cur else 0.0) == Duty(events, tStart, tEnd)
  {
    hide InTp, Accrued;
    AccruedBeyond(events[..m], cur, tEnd);
    AccruedIgnoresLater(events, m, tEnd);
    AccruedIgnoresLater(events, m, tStart);
  }

  /** What the fold returns for a window that ends before it starts: no event falls in it, so its
      negative length counts if the latest event at its start went to TP. */
  function Backwards(events: seq<Event>, tStart: real, tEnd: real): real {
    if InTp(events, tStart) then tEnd - tStart else 0.0
  }

  lemma InTpNext(events: seq<Event>, i: nat, t: real)
    requires i < |events|
    ensures InTp(events[..i + 1], t) == if events[i].ts <= t then events[i].dir.PpToTp? else InTp(events[..i], t)
  {
    assert events[..i + 1][..i] == events[..i];
  }

  /** The event fold, as it runs. */
  method FoldEvents(events: seq<Event>, tStart: real, tEnd: real) returns (total: real)
    requires Ordered(events)
    ensures total == if tStart <= tEnd then Duty(events, tStart, tEnd) else Backwards(events, tStart, tEnd)
  {
    var inTp, cur := false, tStart;
    total := 0.0;
    ghost var m := 0;
    assert tStart <= tEnd ==> Folded(events, tStart, tEnd, 0, m, cur, inTp, total);
    assert !InTp(events[..0], tStart);
    hide Folded, Ordered, Duty, InTp;
    for i := 0 to |events|
      invariant m >= 0 && (tStart <= tEnd ==> Folded(events, tStart, tEnd, i, m, cur, inTp, total))
      invariant tEnd < tStart ==> cur == tStart && total == 0.0 && inTp == InTp(events[..i], tStart)
    {
      var ts, direction := events[i].ts, events[i].dir;
      InTpNext(events, i, tStart);
      if ts < tStart || ts > tEnd {
        if ts <= tStart {
          if tStart <= tEnd { FoldBefore(events, tStart, tEnd, i, m, cur, inTp, total); }
          inTp := direction.PpToTp?;
          m := i + 1;
        } else if tStart <= tEnd {
          FoldAfter(events, tStart, tEnd, i, m, cur, inTp, total);
        }
        continue;
      }
      FoldInside(events, tStart, tEnd, i, m, cur, inTp, total);
      if inTp {
        total := total + (ts - cur);
      }
      cur := ts;
      inTp := direction.PpToTp?;
      m := i + 1;
    }
    if tStart <= tEnd { FoldEnd(events, tStart, tEnd, m, cur, inTp, total); }
    assert events[..|events|] == events;
    if inTp {
      total := total + (tEnd - cur);
    }
  }

  /** Seconds inside TP windows between two instants, from the events of the first rank. */
  method TpSeconds(parsed: seq<Mark>, tStart: real, tEnd: real) returns (total: real)
    ensures parsed == [] ==> total == 0.0
    ensures parsed != [] ==>
              var events := EventsOf(parsed, KeptRank(parsed));
              total == if tStart <= tEnd then Duty(events, tStart, tEnd) else Backwards(events, tStart, tEnd)
  {
    if parsed == [] {
      return 0.0;
    }
    var keep := KeptRank(parsed);
    EventsOrdered(parsed, keep);
    total := FoldEvents(EventsOf(parsed, keep), tStart, tEnd);
  }

  // ----- the result is the length of the time spent in TP

  /** G measures the TP time of the events: it adds up over adjoining windows, and a window in
      which the phase never changes counts in full or not at all. */
  ghost predicate Measures(g: (real, real) -> real, events: seq<Event>) {
    && (forall a: real, m: real, b: real :: a <= m <= b ==> g(a, b) == g(a, m) + g(m, b))
    && forall a: real, b: real, tp: bool :: a <= b && Constant(events, a, b, tp) ==> g(a, b) == if tp then b - a else 0.0
  }

  ghost predicate Constant(events: seq<Event>, a: real, b: real, tp: bool) {
    forall t: real :: a <= t < b ==> InTp(events, t) == tp
  }

  lemma {:induction false} DutyOfConstant(events: seq<Event>, a: real, b: real, tp: bool)
    requires Ordered(events) && a <= b && Constant(events, a, b, tp)
    ensures Duty(events, a, b) == if tp then b - a else 0.0
  {
    if a == b {
    } else if events == [] {
      assert InTp(events, a) == tp;
    } else {
      var n := |events| - 1;
      var e, front := events[n], events[..n];
      if b <= e.ts {
        forall t | a <= t < b ensures InTp(front, t) == tp { assert InTp(events, t) == tp; }
        DutyOfConstant(front, a, b, tp);
      } else {
        assert InTp(events, if a < e.ts then e.ts else a) == tp;
        if a < e.ts {
          forall t | a <= t < e.ts ensures InTp(front, t) == tp { assert InTp(events, t) == tp; }
          DutyOfConstant(front, a, e.ts, tp);
        }
      }
    }
  }

  /** `Duty` measures the TP time. */
  lemma DutyMeasures(events: seq<Event>)
    requires Ordered(events)
    ensures Measures((a, b) => Duty(events, a, b), events)
  {
    forall a: real, b: real, tp: bool | a <= b && Constant(events, a, b, tp)
      ensures Duty(events, a, b) == if tp then b - a else 0.0
    {
      DutyOfConstant(events, a, b, tp);
    }
  }

  lemma {:induction false} InTpBetween(events: seq<Event>, k: nat, t: real)
    requires Ordered(events) && k <= |events|
    requires k > 0 ==> events[k - 1].ts <= t
    requires k < |events| ==> t < events[k].ts
    ensures InTp(events, t) == (k > 0 && events[k - 1].dir.PpToTp?)
    decreases |events|
  {
    if k < |events| {
      var n := |events| - 1;
      assert k < n ==> NotAfter(events[k], events[n]);
      InTpBetween(events[..n], k, t);
    }
  }

  /** No two functions measure it differently: up to the k-th event, by splitting at the events. */
  lemma {:induction false} MeasureUnique(g: (real, real) -> real, events: seq<Event>, a: real, b: real, k: nat)
    requires Ordered(events) && Measures(g, events) && a <= b && k <= |events|
    requires k < |events| ==> b <= events[k].ts
    ensures g(a, b) == Duty(events, a, b)
    decreases k
  {
    if k > 0 && b <= events[k - 1].ts {
      MeasureUnique(g, events, a, b, k - 1);
    } else {
      var tp := k > 0 && events[k - 1].dir.PpToTp?;
      var from := if k > 0 && a < events[k - 1].ts then events[k - 1].ts else a;
      forall t | from <= t < b ensures InTp(events, t) == tp { InTpBetween(events, k, t); }
      assert Constant(events, from, b, tp);
      DutyOfConstant(events, from, b, tp);
      assert g(from, b) == Duty(events, from, b);
      if from != a {
        MeasureUnique(g, events, a, from, k - 1);
        assert g(a, b) == g(a, from) + g(from, b);
      }
    }
  }

  /** tp_seconds is the length of the part of the window whose latest event went to TP: it agrees
      with every measure of that time, splits at any instant, and lies between nothing and all. */
  lemma DutyIsTpTime(g: (real, real) -> real, events: seq<Event>, a: real, m: real, b: real)
    requires Ordered(events) && Measures(g, events) && a <= m <= b
    ensures Duty(events, a, b) == g(a, b)
    ensures Duty(events, a, b) == Duty(events, a, m) + Duty(events, m, b)
    ensures 0.0 <= Duty(events, a, b) <= b - a
  {
    MeasureUnique(g, events, a, b, |events|);
    DutyBounded(events, a, b);
  }

  lemma {:induction false} DutyBounded(events: seq<Event>, a: real, b: real)
    requires a <= b
    ensures 0.0 <= Duty(events, a, b) <= b - a
  {
    if events != [] {
      var n := |events| - 1;
      var e, front := events[n], events[..n];
      if b <= e.ts {
        DutyBounded(front, a, b);
      } else if a < e.ts {
        DutyBounded(front, a, e.ts);
      }
    }
  }
}
