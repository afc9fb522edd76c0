/** How many lanes the allocator opens, and what zero-length spans do to it. */
module SpanDepth {
  import opened SpanLanes

  // ----- spans open at an instant

  predicate Open(iv: Interval, t: int) {
    iv.start <= t < iv.end
  }

  function OpenCount(lane: Lane, t: int): nat {
    if lane == [] then 0 else (if Open(lane[0], t) then 1 else 0) + OpenCount(lane[1..], t)
  }

  function OpenSpans(spans: seq<Span>, t: int): nat {
    if spans == [] then 0
    else var n := |spans| - 1; OpenSpans(spans[..n], t) + (if Open(spans[n].iv, t) then 1 else 0)
  }

  function OpenLanes(lanes: seq<Lane>, t: int): nat {
    if lanes == [] then 0 else OpenCount(lanes[0], t) + OpenLanes(lanes[1..], t)
  }

  lemma {:induction false} OpenCountConcat(a: Lane, b: Lane, t: int)
    ensures OpenCount(a + b, t) == OpenCount(a, t) + OpenCount(b, t)
  {
    if a == [] {
      assert a + b == b;
    } else {
      assert (a + b)[1..] == a[1..] + b;
      OpenCountConcat(a[1..], b, t);
    }
  }

  lemma OpenCountInsert(lane: Lane, iv: Interval, t: int)
    ensures OpenCount(Insert(lane, iv), t) == OpenCount(lane, t) + (if Open(iv, t) then 1 else 0)
  {
    var p := Rank(lane, iv);
    assert lane == lane[..p] + lane[p..];
    assert Insert(lane, iv) == lane[..p] + ([iv] + lane[p..]);
    OpenCountConcat(lane[..p], lane[p..], t);
    OpenCountConcat(lane[..p], [iv] + lane[p..], t);
    OpenCountConcat([iv], lane[p..], t);
    assert [iv][1..] == [];
  }

  lemma {:induction false} OpenLanesUpdate(lanes: seq<Lane>, i: nat, lane: Lane, t: int)
    requires i < |lanes|
    ensures OpenLanes(lanes[i := lane], t) == OpenLanes(lanes, t) - OpenCount(lanes[i], t) + OpenCount(lane, t)
  {
    if i == 0 {
      assert lanes[0 := lane][1..] == lanes[1..];
    } else {
      assert lanes[i := lane][1..] == lanes[1..][i - 1 := lane];
      OpenLanesUpdate(lanes[1..], i - 1, lane, t);
    }
  }

  lemma {:induction false} OpenLanesSnoc(lanes: seq<Lane>, t: int)
    ensures OpenLanes(lanes + [[]], t) == OpenLanes(lanes, t)
  {
    if lanes == [] {
      assert (lanes + [[]])[1..] == [];
    } else {
      assert (lanes + [[]])[1..] == lanes[1..] + [[]];
      OpenLanesSnoc(lanes[1..], t);
    }
  }

  /** On a good lane at most one span is open at any instant. */
  lemma {:induction false} OneOpen(lane: Lane, t: int)
    requires LaneOk(lane)
    ensures OpenCount(lane, t) <= 1
  {
    if lane != [] {
      assert LaneOk(lane[1..]);
      OneOpen(lane[1..], t);
      if Open(lane[0], t) { NoneOpen(lane[1..], t, lane[0].end); }
    }
  }

  lemma {:induction false} NoneOpen(lane: Lane, t: int, from: int)
    requires t < from && forall i :: 0 <= i < |lane| ==> from <= lane[i].start
    ensures OpenCount(lane, t) == 0
  {
    if lane != [] { NoneOpen(lane[1..], t, from); }
  }

  lemma {:induction false} OpenMember(lane: Lane, i: nat, t: int)
    requires i < |lane| && Open(lane[i], t)
    ensures OpenCount(lane, t) >= 1
  {
    if i > 0 { OpenMember(lane[1..], i - 1, t); }
  }

  lemma {:induction false} LanesBound(lanes: seq<Lane>, t: int)
    requires forall i :: 0 <= i < |lanes| ==> LaneOk(lanes[i])
    ensures OpenLanes(lanes, t) <= |lanes|
  {
    if lanes != [] {
      OneOpen(lanes[0], t);
      LanesBound(lanes[1..], t);
    }
  }

  lemma {:induction false} AllLanesOpen(lanes: seq<Lane>, t: int)
    requires forall i :: 0 <= i < |lanes| ==> OpenCount(lanes[i], t) >= 1
    ensures OpenLanes(lanes, t) >= |lanes|
  {
    if lanes != [] { AllLanesOpen(lanes[1..], t); }
  }

  // ----- one process, spans in order of their start

  ghost predicate InOrder(spans: seq<Span>, pid: Pid) {
    && (forall i :: 0 <= i < |spans| ==> spans[i].pid == pid && Positive(spans[i].iv))
    && forall i, j :: 0 <= i < j < |spans| ==> spans[i].iv.start <= spans[j].iv.start
  }

  /** Placing a span moves the count on its process's lanes by that span alone. */
  lemma PlaceCounts(l: Layout, span: Span, t: int)
    requires StatusOk(l)
    ensures OpenLanes(Lanes(Place(l, span), span.pid), t)
            == OpenLanes(Lanes(l, span.pid), t) + (if Open(span.iv, t) then 1 else 0)
  {
    var line := ChosenLine(l, span.pid, span.iv);
    var was := Lanes(l, span.pid);
    var lanes := Lanes(Opened(l, span.pid, line), span.pid);
    if line > |was| {
      assert lanes == was + [[]];
      OpenLanesSnoc(was, t);
    }
    OpenCountInsert(lanes[line - 1], span.iv, t);
    OpenLanesUpdate(lanes, line - 1, Insert(lanes[line - 1], span.iv), t);
  }

  /** The lanes hold exactly the spans placed. */
  lemma {:induction false} PlaceAllCounts(l: Layout, spans: seq<Span>, pid: Pid, t: int)
    requires StatusOk(l) && pid !in l.graph && forall i :: 0 <= i < |spans| ==> spans[i].pid == pid
    ensures OpenLanes(Lanes(PlaceAll(l, spans), pid), t) == OpenSpans(spans, t)
  {
    if spans != [] {
      var n := |spans| - 1;
      PlaceAllCounts(l, spans[..n], pid, t);
      PlaceCounts(PlaceAll(l, spans[..n]), spans[n], t);
    }
  }

  /** Every interval on the process's lanes is one of the spans placed. */
  lemma {:induction false} PlaceAllMembers(l: Layout, spans: seq<Span>, pid: Pid, i: nat, x: Interval)
    requires StatusOk(l) && pid !in l.graph && forall k :: 0 <= k < |spans| ==> spans[k].pid == pid
    requires i < |Lanes(PlaceAll(l, spans), pid)| && x in Lanes(PlaceAll(l, spans), pid)[i]
    ensures exists k :: 0 <= k < |spans| && spans[k].iv == x
    decreases |spans|
  {
    hide Place, Insert, ChosenLine, NeighbourOverlap;
    var n := |spans| - 1;
    var before := PlaceAll(l, spans[..n]);
    PlaceChangesOne(before, spans[n]);
    var line := ChosenLine(before, pid, spans[n].iv);
    if i == line - 1 {
      InsertMembers(JoinedLane(before, spans[n]), spans[n].iv, x);
    }
    if x == spans[n].iv {
      assert spans[n].iv == x;
    } else {
      PlaceAllMembers(l, spans[..n], pid, i, x);
      var k :| 0 <= k < n && spans[..n][k].iv == x;
      assert spans[k].iv == x;
    }
  }

  /** A lane that has no room for the next span, in start order, holds one open at its start. */
  lemma FullLaneIsOpen(lane: Lane, iv: Interval)
    requires NeighbourOverlap(lane, iv)
    requires forall i :: 0 <= i < |lane| ==> Positive(lane[i]) && lane[i].start <= iv.start
    ensures OpenCount(lane, iv.start) >= 1
  {
    var k := StartsBefore(lane, iv.start);
    if k > 0 && lane[k - 1].end > iv.start {
      OpenMember(lane, k - 1, iv.start);
    } else {
      OpenMember(lane, k, iv.start);
    }
  }

  lemma OpenSpansGrow(spans: seq<Span>, n: nat, t: int)
    requires n <= |spans|
    ensures OpenSpans(spans[..n], t) <= OpenSpans(spans, t)
    decreases |spans| - n
  {
    if n == |spans| {
      assert spans[..n] == spans;
    } else {
      assert spans[..n + 1][..n] == spans[..n];
      OpenSpansGrow(spans, n + 1, t);
    }
  }

  lemma NoRoomAnywhere(l: Layout, pid: Pid, iv: Interval)
    requires StatusOk(l) && ChosenLine(l, pid, iv) > |Lanes(l, pid)|
    ensures forall i :: 0 <= i < |Lanes(l, pid)| ==> NeighbourOverlap(Lanes(l, pid)[i], iv)
  {
  }

  /** Opening a new lane takes an instant at which all the others are busy. */
  lemma NewLaneNeedsAll(l: Layout, spans: seq<Span>, pid: Pid)
    requires StatusOk(l) && pid !in l.graph && InOrder(spans, pid) && spans != []
    requires var before := PlaceAll(l, spans[..|spans| - 1]);
             ChosenLine(before, pid, spans[|spans| - 1].iv) > |Lanes(before, pid)|
    ensures OpenSpans(spans, spans[|spans| - 1].iv.start) >= |Lanes(PlaceAll(l, spans[..|spans| - 1]), pid)| + 1
  {
    hide Place, PlaceAll, Insert, ChosenLine, NeighbourOverlap, OpenCount;
    var n := |spans| - 1;
    var before, iv := PlaceAll(l, spans[..n]), spans[n].iv;
    var lanes := Lanes(before, pid);
    NoRoomAnywhere(before, pid, iv);
    forall i | 0 <= i < |lanes| ensures OpenCount(lanes[i], iv.start) >= 1 {
      forall k | 0 <= k < |lanes[i]| ensures Positive(lanes[i][k]) && lanes[i][k].start <= iv.start {
        PlaceAllMembers(l, spans[..n], pid, i, lanes[i][k]);
      }
      FullLaneIsOpen(lanes[i], iv);
    }
    AllLanesOpen(lanes, iv.start);
    PlaceAllCounts(l, spans[..n], pid, iv.start);
  }

  /** Some instant sees as many open spans as there are lanes. */
  lemma {:induction false} LanesAreNeeded(l: Layout, spans: seq<Span>, pid: Pid) returns (t: int)
    requires StatusOk(l) && pid !in l.graph && InOrder(spans, pid)
    ensures OpenSpans(spans, t) >= |Lanes(PlaceAll(l, spans), pid)|
    decreases |spans|
  {
    hide Place, ChosenLine, Insert, OpenSpans;
    t := 0;
    if spans != [] {
      var n := |spans| - 1;
      var before := PlaceAll(l, spans[..n]);
      var line := ChosenLine(before, pid, spans[n].iv);
      PlaceChangesOne(before, spans[n]);
      if line > |Lanes(before, pid)| {
        t := spans[n].iv.start;
        NewLaneNeedsAll(l, spans, pid);
      } else {
        t := LanesAreNeeded(l, spans[..n], pid);
        OpenSpansGrow(spans, n, t);
      }
    }
  }

  /** Lane optimality: spans of positive length, taken in order of their start, get exactly as
      many lanes as the largest number of them open at one instant, and no fewer would do. */
  lemma LanesAreOptimal(l: Layout, spans: seq<Span>, pid: Pid) returns (t: int)
    requires LayoutOk(l) && pid !in l.graph && InOrder(spans, pid)
    ensures OpenSpans(spans, t) == |Lanes(PlaceAll(NewRequest(l), spans), pid)|
    ensures forall u :: OpenSpans(spans, u) <= |Lanes(PlaceAll(NewRequest(l), spans), pid)|
  {
    var start := NewRequest(l);
    NewRequestOk(l);
    PlaceAllKeepsLayout(start, spans);
    var lanes := Lanes(PlaceAll(start, spans), pid);
    forall u ensures OpenSpans(spans, u) <= |lanes| {
      LanesBound(lanes, u);
      PlaceAllCounts(start, spans, pid, u);
    }
    t := LanesAreNeeded(start, spans, pid);
  }

  // ----- no layout does with fewer

  /** Lines 1..m given to the spans so that no two on the same line clash. */
  ghost predicate ClashFree(spans: seq<Span>, lines: seq<nat>, m: nat) {
    && |lines| == |spans|
    && (forall i :: 0 <= i < |lines| ==> 1 <= lines[i] <= m)
    && forall i, j :: 0 <= i < j < |spans| && lines[i] == lines[j] ==> !Clash(spans[i].iv, spans[j].iv)
  }

  ghost function BusyLines(spans: seq<Span>, lines: seq<nat>, t: int): set<nat>
    requires |lines| == |spans|
  {
    if spans == [] then {}
    else
      var n := |spans| - 1;
      BusyLines(spans[..n], lines[..n], t) + (if Open(spans[n].iv, t) then {lines[n]} else {})
  }

  lemma {:induction false} BusyLinesWitness(spans: seq<Span>, lines: seq<nat>, t: int, x: nat)
    requires |lines| == |spans| && x in BusyLines(spans, lines, t)
    ensures exists i :: 0 <= i < |spans| && lines[i] == x && Open(spans[i].iv, t)
  {
    var n := |spans| - 1;
    if Open(spans[n].iv, t) && x == lines[n] {
    } else {
      BusyLinesWitness(spans[..n], lines[..n], t, x);
      var i :| 0 <= i < n && lines[..n][i] == x && Open(spans[..n][i].iv, t);
      assert lines[i] == x && Open(spans[i].iv, t);
    }
  }

  /** Spans open at one instant sit on different lines. */
  lemma {:induction false} BusyLinesCount(spans: seq<Span>, lines: seq<nat>, m: nat, t: int)
    requires ClashFree(spans, lines, m)
    ensures |BusyLines(spans, lines, t)| == OpenSpans(spans, t)
  {
    if spans != [] {
      var n := |spans| - 1;
      assert ClashFree(spans[..n], lines[..n], m);
      BusyLinesCount(spans[..n], lines[..n], m, t);
      if Open(spans[n].iv, t) && lines[n] in BusyLines(spans[..n], lines[..n], t) {
        BusyLinesWitness(spans[..n], lines[..n], t, lines[n]);
      }
    }
  }

  ghost function UpTo(m: nat): (s: set<nat>)
    ensures |s| == m && forall x :: x in s <==> 1 <= x <= m
  {
    if m == 0 then {} else UpTo(m - 1) + {m}
  }

  lemma SubsetSize(a: set<nat>, b: set<nat>)
    requires a <= b
    ensures |a| <= |b|
  {
    assert b == a + (b - a);
  }

  /** Any clash-free layout has at least as many lines as spans are open at one instant. */
  lemma AnyLayoutNeeds(spans: seq<Span>, lines: seq<nat>, m: nat, t: int)
    requires ClashFree(spans, lines, m)
    ensures OpenSpans(spans, t) <= m
  {
    BusyLinesCount(spans, lines, m, t);
    forall x | x in BusyLines(spans, lines, t) ensures x in UpTo(m) {
      BusyLinesWitness(spans, lines, t, x);
    }
    SubsetSize(BusyLines(spans, lines, t), UpTo(m));
  }

  // ----- the gateway spans, sorted by start

  function InsertByStart(sorted: seq<Span>, span: Span): (r: seq<Span>)
    ensures multiset(r) == multiset(sorted) + multiset{span}
  {
    if sorted == [] then [span]
    else
      var n := |sorted| - 1;
      assert sorted == sorted[..n] + [sorted[n]];
      if sorted[n].iv.start <= span.iv.start then sorted + [span]
      else InsertByStart(sorted[..n], span) + [sorted[n]]
  }

  /** Stable sort by start time. */
  function SortByStart(spans: seq<Span>): (r: seq<Span>)
    ensures multiset(r) == multiset(spans)
  {
    if spans == [] then []
    else
      var n := |spans| - 1;
      assert spans == spans[..n] + [spans[n]];
      InsertByStart(SortByStart(spans[..n]), spans[n])
  }

  ghost predicate ByStart(spans: seq<Span>) {
    forall i, j :: 0 <= i < j < |spans| ==> spans[i].iv.start <= spans[j].iv.start
  }

  lemma {:induction false} InsertByStartSorted(sorted: seq<Span>, span: Span)
    requires ByStart(sorted)
    ensures ByStart(InsertByStart(sorted, span))
  {
    if sorted != [] {
      var n := |sorted| - 1;
      if sorted[n].iv.start > span.iv.start {
        InsertByStartSorted(sorted[..n], span);
        var front := InsertByStart(sorted[..n], span);
        forall i | 0 <= i < |front| ensures front[i].iv.start <= sorted[n].iv.start {
          assert front[i] in multiset(front);
          assert front[i] == span || front[i] in sorted[..n];
        }
      }
    }
  }

  lemma {:induction false} SortByStartSorted(spans: seq<Span>)
    ensures ByStart(SortByStart(spans))
  {
    if spans != [] {
      var n := |spans| - 1;
      SortByStartSorted(spans[..n]);
      InsertByStartSorted(SortByStart(spans[..n]), spans[n]);
    }
  }

  lemma {:induction false} InsertByStartOpens(sorted: seq<Span>, span: Span, t: int)
    ensures OpenSpans(InsertByStart(sorted, span), t) == OpenSpans(sorted, t) + (if Open(span.iv, t) then 1 else 0)
  {
    var r := InsertByStart(sorted, span);
    if sorted != [] {
      var n := |sorted| - 1;
      if sorted[n].iv.start <= span.iv.start {
        assert r[..|r| - 1] == sorted;
      } else {
        InsertByStartOpens(sorted[..n], span, t);
        assert r[..|r| - 1] == InsertByStart(sorted[..n], span);
      }
    }
  }

  lemma {:induction false} SortByStartOpens(spans: seq<Span>, t: int)
    ensures OpenSpans(SortByStart(spans), t) == OpenSpans(spans, t)
  {
    if spans != [] {
      var n := |spans| - 1;
      SortByStartOpens(spans[..n], t);
      InsertByStartOpens(SortByStart(spans[..n]), spans[n], t);
    }
  }

  lemma {:induction false} PlaceAllPids(l: Layout, spans: seq<Span>, pid: Pid)
    requires StatusOk(l) && pid !in l.graph && forall i :: 0 <= i < |spans| ==> spans[i].pid != pid
    ensures pid !in PlaceAll(l, spans).graph
  {
    if spans != [] { PlaceAllPids(l, spans[..|spans| - 1], pid); }
  }

  lemma {:induction false} PlaceRequestsPids(l: Layout, requests: seq<seq<Span>>, pid: Pid)
    requires StatusOk(l) && pid !in l.graph
    requires forall i, j :: 0 <= i < |requests| && 0 <= j < |requests[i]| ==> requests[i][j].pid != pid
    ensures pid !in PlaceRequests(l, requests).graph
  {
    if requests != [] {
      var n := |requests| - 1;
      PlaceRequestsPids(l, requests[..n], pid);
      PlaceAllPids(NewRequest(PlaceRequests(l, requests[..n])), requests[n], pid);
    }
  }

  /** The whole layout gives the gateway spans, in whatever order they were read, exactly as many
      lanes as are open at one instant; every clash-free layout of them needs that many. */
  lemma GatewayLanesAreMinimal(requests: seq<seq<Span>>, smg: seq<Span>) returns (t: int)
    requires forall i, j :: 0 <= i < |requests| && 0 <= j < |requests[i]| ==> requests[i][j].pid.Engine?
    requires forall i :: 0 <= i < |requests| ==> NoZeroLength(requests[i])
    requires forall i :: 0 <= i < |smg| ==> smg[i].pid == Smg && Positive(smg[i].iv)
    ensures OpenSpans(smg, t) == |Lanes(LayoutAll(requests, SortByStart(smg)), Smg)|
    ensures forall lines, m | ClashFree(smg, lines, m) :: |Lanes(LayoutAll(requests, SortByStart(smg)), Smg)| <= m
  {
    var l, sorted := PlaceRequests(EMPTY, requests), SortByStart(smg);
    PlaceRequestsKeepsLayout(EMPTY, requests);
    PlaceRequestsPids(EMPTY, requests, Smg);
    SortByStartSorted(smg);
    forall i | 0 <= i < |sorted| ensures sorted[i].pid == Smg && Positive(sorted[i].iv) {
      assert sorted[i] in multiset(sorted);
    }
    t := LanesAreOptimal(l, sorted, Smg);
    SortByStartOpens(smg, t);
    forall lines, m | ClashFree(smg, lines, m)
      ensures |Lanes(LayoutAll(requests, SortByStart(smg)), Smg)| <= m
    {
      AnyLayoutNeeds(smg, lines, m, t);
    }
  }

  // ----- zero-length spans

  /** Conversion takes a microsecond off every span's end. */
  function Converted(startNs: int, endNs: int): Interval {
    Interval(startNs, endNs - 1000)
  }

  ghost predicate Sound(requests: seq<seq<Span>>) {
    forall i :: 0 <= i < |requests| ==> NoZeroLength(requests[i])
  }

  /** The span does no harm among these gateway spans, after these requests. */
  ghost predicate SafeInGateway(requests: seq<seq<Span>>, before: seq<Span>, span: Span, after: seq<Span>) {
    NoClash(LayoutAll(requests, before + [span] + after))
  }

  /** The span does no harm in this request, between these requests and before these gateway spans. */
  ghost predicate SafeInRequest(earlier: seq<seq<Span>>, before: seq<Span>, span: Span, after: seq<Span>,
                                later: seq<seq<Span>>, smg: seq<Span>) {
    NoClash(LayoutAll(earlier + [before + [span] + after] + later, smg))
  }

  /** Whatever is laid out around it, this gateway span does no harm. */
  ghost predicate SafeGatewaySpan(iv: Interval) {
    forall requests, before, after | Sound(requests) && NoZeroLength(before) && NoZeroLength(after) ::
      SafeInGateway(requests, before, Span(Smg, iv), after)
  }

  /** Whatever is laid out around it, this span of an engine process does no harm. */
  ghost predicate SafeEngineSpan(id: int, iv: Interval) {
    forall earlier, before, after, later, smg
      | Sound(earlier) && NoZeroLength(before) && NoZeroLength(after) && Sound(later) && NoZeroLength(smg) ::
      SafeInRequest(earlier, before, Span(Engine(id), iv), after, later, smg)
  }

  /** Just these intervals on line 1 of the process, which is the request's own. */
  ghost predicate OnLineOne(l: Layout, pid: Pid, lane: Lane) {
    StatusOk(l) && pid in l.status && l.status[pid] == 1 && pid in l.graph && l.graph[pid] == [lane]
  }

  lemma FirstSpan(l: Layout, pid: Pid, iv: Interval)
    requires StatusOk(l) && pid !in l.graph
    ensures var r := Place(l, Span(pid, iv)); OnLineOne(r, pid, [iv]) && r.tids == l.tids + [(Span(pid, iv), 1)]
  {
    assert Insert([], iv) == [iv];
  }

  lemma ZeroSpan(l: Layout, pid: Pid, a: Interval, t: int)
    requires OnLineOne(l, pid, [a]) && a.start < t
    ensures var r, b := Place(l, Span(pid, Interval(t, t))), Interval(t, t);
            OnLineOne(r, pid, [a, b]) && r.tids == l.tids + [(Span(pid, b), 1)]
  {
    var b := Interval(t, t);
    assert [a][1..] == [];
    assert Rank([a], b) == 1;
    assert Insert([a], b) == [a, b];
  }

  lemma HiddenSpan(l: Layout, pid: Pid, a: Interval, t: int, c: Interval)
    requires OnLineOne(l, pid, [a, Interval(t, t)]) && a.start < t < c.start
    ensures Place(l, Span(pid, c)).tids == l.tids + [(Span(pid, c), 1)]
  {
    var lane := [a, Interval(t, t)];
    assert lane[1..] == [Interval(t, t)] && lane[1..][1..] == [];
    assert StartsBefore(lane[1..], c.start) == 1;
    assert StartsBefore(lane, c.start) == 2;
    assert !NeighbourOverlap(lane, c);
  }

  /** A span that is running, a zero-length one inside it, and one that starts before the first ends. */
  function Around(pid: Pid, t: int): seq<Span> {
    [Span(pid, Interval(t - 2, t + 2)), Span(pid, Interval(t, t)), Span(pid, Interval(t + 1, t + 2))]
  }

  lemma ZeroHidesFrom(l: Layout, pid: Pid, t: int)
    requires StatusOk(l) && pid !in l.graph && l.tids == []
    ensures !NoClash(PlaceAll(l, Around(pid, t)))
  {
    hide Place, PlaceAll, OnLineOne;
    var a, c, spans := Interval(t - 2, t + 2), Interval(t + 1, t + 2), Around(pid, t);
    ThreeSpans(l, spans);
    FirstSpan(l, pid, a);
    var l1 := Place(l, spans[0]);
    ZeroSpan(l1, pid, a, t);
    var l2 := Place(l1, spans[1]);
    HiddenSpan(l2, pid, a, t, c);
    var tids := Place(l2, spans[2]).tids;
    assert tids == [(spans[0], 1), (spans[1], 1), (spans[2], 1)];
    assert SameLineClash(tids[0], tids[2]);
  }

  /** A zero-length span is put inside a running one and hides it from the neighbour test: the
      third span is then drawn over the first, on the same line. So among gateway spans, and within
      one request of an engine. */
  lemma ZeroLengthHides(id: int, t: int)
    ensures !NoClash(LayoutAll([], Around(Smg, t)))
    ensures !NoClash(LayoutAll([Around(Engine(id), t)], []))
  {
    hide NoClash, Around;
    ZeroHidesFrom(NewRequest(PlaceRequests(EMPTY, [])), Smg, t);
    ZeroHidesFrom(NewRequest(EMPTY), Engine(id), t);
    var request := Around(Engine(id), t);
    assert [request][..0] == [];
    assert PlaceRequests(EMPTY, [request]) == PlaceAll(NewRequest(EMPTY), request);
    var l := PlaceRequests(EMPTY, [request]);
    assert LayoutAll([request], []) == NewRequest(l);
    SameTids(l);
  }

  lemma SameTids(l: Layout)
    ensures NoClash(NewRequest(l)) == NoClash(l)
  {
  }

  lemma ThreeSpans(l: Layout, spans: seq<Span>)
    requires StatusOk(l) && |spans| == 3
    ensures PlaceAll(l, spans) == Place(Place(Place(l, spans[0]), spans[1]), spans[2])
  {
    assert spans[..2][..1] == spans[..1] && spans[..1][..0] == [];
    assert PlaceAll(l, spans[..1]) == Place(l, spans[0]);
    assert PlaceAll(l, spans[..2]) == Place(Place(l, spans[0]), spans[1]);
  }

  /** A gateway span is harmless in every company if and only if it has length once converted, that
      is, unless it lasted exactly one microsecond; and so is an engine span. */
  lemma SafeIffLength(id: int, startNs: int, endNs: int)
    ensures SafeGatewaySpan(Converted(startNs, endNs)) <==> endNs - startNs != 1000
    ensures SafeEngineSpan(id, Converted(startNs, endNs)) <==> endNs - startNs != 1000
  {
    hide NoClash, LayoutAll;
    var iv := Converted(startNs, endNs);
    if iv.start != iv.end {
      LengthIsSafe(id, iv);
    } else {
      var t := iv.start;
      ZeroLengthHides(id, t);
      forall pid | pid in {Smg, Engine(id)}
        ensures NoZeroLength([Span(pid, Interval(t - 2, t + 2))]) && NoZeroLength([Span(pid, Interval(t + 1, t + 2))])
        ensures Around(pid, t)
                == [Span(pid, Interval(t - 2, t + 2))] + [Span(pid, iv)] + [Span(pid, Interval(t + 1, t + 2))]
      {
      }
      assert !SafeInGateway([], [Span(Smg, Interval(t - 2, t + 2))], Span(Smg, iv), [Span(Smg, Interval(t + 1, t + 2))]);
      var e := Engine(id);
      assert [] + [Around(e, t)] + [] == [Around(e, t)];
      assert !SafeInRequest([], [Span(e, Interval(t - 2, t + 2))], Span(e, iv), [Span(e, Interval(t + 1, t + 2))], [], []);
    }
  }

  lemma LengthIsSafe(id: int, iv: Interval)
    requires iv.start != iv.end
    ensures SafeGatewaySpan(iv) && SafeEngineSpan(id, iv)
  {
    hide NoClash, LayoutAll;
    forall requests, before, after | Sound(requests) && NoZeroLength(before) && NoZeroLength(after)
      ensures SafeInGateway(requests, before, Span(Smg, iv), after)
    {
      LayoutIsSound(requests, before + [Span(Smg, iv)] + after);
    }
    forall earlier, before, after, later, smg
      | Sound(earlier) && NoZeroLength(before) && NoZeroLength(after) && Sound(later) && NoZeroLength(smg)
      ensures SafeInRequest(earlier, before, Span(Engine(id), iv), after, later, smg)
    {
      LayoutIsSound(earlier + [before + [Span(Engine(id), iv)] + after] + later, smg);
    }
  }
}
