/** Laying trace spans out on lanes: the specification of the allocator and its laws. */
module SpanLanes {

  datatype Interval = Interval(start: int, end: int)

  /** Engine spans carry a numeric process id; gateway spans share one of their own. */
  datatype Pid = Engine(id: int) | Smg

  datatype Span = Span(pid: Pid, iv: Interval)

  type Lane = seq<Interval>

  /** Tuple order. */
  predicate Below(a: Interval, b: Interval) {
    a.start < b.start || (a.start == b.start && a.end < b.end)
  }

  ghost predicate Sorted(lane: Lane) {
    forall i, j :: 0 <= i < j < |lane| ==> !Below(lane[j], lane[i])
  }

  /** Where an interval with this start and an infinitely small end would be inserted. */
  function StartsBefore(lane: Lane, start: int): (k: nat)
    ensures k <= |lane|
    ensures forall i :: 0 <= i < k ==> lane[i].start < start
    ensures k < |lane| ==> lane[k].start >= start
  {
    if lane == [] || lane[0].start >= start then 0 else 1 + StartsBefore(lane[1..], start)
  }

  /** The neighbour-only test. */
  predicate NeighbourOverlap(lane: Lane, iv: Interval) {
    var k := StartsBefore(lane, iv.start);
    || (k > 0 && lane[k - 1].end > iv.start)
    || (k < |lane| && lane[k].start < iv.end)
  }

  /** The leftmost place that keeps the lane sorted. */
  function Rank(lane: Lane, iv: Interval): (p: nat)
    ensures p <= |lane|
    ensures forall i :: 0 <= i < p ==> Below(lane[i], iv)
    ensures p < |lane| ==> !Below(lane[p], iv)
  {
    if lane == [] || !Below(lane[0], iv) then 0 else 1 + Rank(lane[1..], iv)
  }

  function Insert(lane: Lane, iv: Interval): Lane {
    var p := Rank(lane, iv);
    lane[..p] + [iv] + lane[p..]
  }

  // ----- the lane invariant

  predicate Positive(iv: Interval) {
    iv.start < iv.end
  }

  predicate Clash(a: Interval, b: Interval) {
    a.start < b.end && b.start < a.end
  }

  /** Sorted, and every interval of positive length ends before its successors start. */
  ghost predicate LaneOk(lane: Lane) {
    && Sorted(lane)
    && forall i, j :: 0 <= i < j < |lane| && Positive(lane[i]) ==> lane[i].end <= lane[j].start
  }

  ghost predicate AllPositive(lane: Lane) {
    forall i :: 0 <= i < |lane| ==> Positive(lane[i])
  }

  lemma SortedStarts(lane: Lane, i: nat, j: nat)
    requires Sorted(lane) && i <= j < |lane|
    ensures lane[i].start <= lane[j].start
  {
  }

  /** Looking at two neighbours is looking at all: on a lane of positive intervals the test says
      exactly whether a positive interval clashes with any of them. */
  lemma NeighbourIsFull(lane: Lane, iv: Interval)
    requires LaneOk(lane) && AllPositive(lane) && Positive(iv)
    ensures NeighbourOverlap(lane, iv) <==> exists i :: 0 <= i < |lane| && Clash(lane[i], iv)
  {
    var k := StartsBefore(lane, iv.start);
    if k > 0 && lane[k - 1].end > iv.start {
      assert Clash(lane[k - 1], iv);
    } else if k < |lane| && lane[k].start < iv.end {
      assert Clash(lane[k], iv);
    } else {
      NeighbourSound(lane, iv);
    }
  }

  /** The test is sound on every good lane: what it lets through clashes with no positive interval. */
  lemma NeighbourSound(lane: Lane, iv: Interval)
    requires LaneOk(lane) && !NeighbourOverlap(lane, iv)
    ensures forall i :: 0 <= i < |lane| && Positive(lane[i]) ==> !Clash(lane[i], iv)
  {
    var k := StartsBefore(lane, iv.start);
    forall i | 0 <= i < |lane| && Positive(lane[i]) ensures !Clash(lane[i], iv) {
      if i < k {
        if i < k - 1 { assert lane[i].end <= lane[k - 1].start; }
      } else {
        SortedStarts(lane, k, i);
      }
    }
  }

  lemma InsertAt(lane: Lane, iv: Interval, i: nat)
    requires i <= |lane|
    ensures |Insert(lane, iv)| == |lane| + 1
    ensures var p := Rank(lane, iv);
            Insert(lane, iv)[i] == if i < p then lane[i] else if i == p then iv else lane[i - 1]
  {
  }

  /** Insertion keeps any lane sorted. */
  lemma InsertKeepsSorted(lane: Lane, iv: Interval)
    requires Sorted(lane)
    ensures Sorted(Insert(lane, iv))
  {
    var p, next := Rank(lane, iv), Insert(lane, iv);
    forall i, j | 0 <= i < j < |next| ensures !Below(next[j], next[i]) {
      InsertAt(lane, iv, i);
      InsertAt(lane, iv, j);
      if i == p { BeyondRank(lane, iv, j - 1); }
    }
  }

  /** Inserting what the test lets through keeps the lane good. The length of the new interval
      does not matter: it may be positive, zero or negative. */
  lemma InsertKeepsLane(lane: Lane, iv: Interval)
    requires LaneOk(lane) && !NeighbourOverlap(lane, iv)
    ensures LaneOk(Insert(lane, iv))
  {
    hide NeighbourOverlap, Insert;
    InsertKeepsSorted(lane, iv);
    InsertAt(lane, iv, 0);
    var p, next := Rank(lane, iv), Insert(lane, iv);
    forall i, j | 0 <= i < j < |next| && Positive(next[i]) ensures next[i].end <= next[j].start {
      InsertAt(lane, iv, i);
      InsertAt(lane, iv, j);
      if j == p { EndsBefore(lane, iv, i); }
      if i == p { StartsAfter(lane, iv, j - 1); }
    }
  }

  lemma BeyondRank(lane: Lane, iv: Interval, j: nat)
    requires Sorted(lane) && Rank(lane, iv) <= j < |lane|
    ensures !Below(lane[j], iv)
  {
    assert !Below(lane[j], lane[Rank(lane, iv)]) || j == Rank(lane, iv);
  }

  /** Intervals between the two positions start together with iv and end before it. */
  lemma RankAfterStarts(lane: Lane, iv: Interval)
    requires LaneOk(lane) && !NeighbourOverlap(lane, iv)
    ensures StartsBefore(lane, iv.start) <= Rank(lane, iv)
    ensures Positive(iv) ==> StartsBefore(lane, iv.start) == Rank(lane, iv)
    ensures forall i :: StartsBefore(lane, iv.start) <= i < Rank(lane, iv) ==> !Positive(lane[i])
  {
    var k, p := StartsBefore(lane, iv.start), Rank(lane, iv);
    if p < k { assert Below(lane[p], iv); }
    forall i | k <= i < p ensures !Positive(lane[i]) && !Positive(iv) {
      assert Below(lane[i], iv);
      SortedStarts(lane, k, i);
    }
  }

  lemma EndsBefore(lane: Lane, iv: Interval, i: nat)
    requires LaneOk(lane) && !NeighbourOverlap(lane, iv) && i < Rank(lane, iv) && Positive(lane[i])
    ensures lane[i].end <= iv.start
  {
    var k := StartsBefore(lane, iv.start);
    RankAfterStarts(lane, iv);
    assert i < k;
    if i < k - 1 { assert lane[i].end <= lane[k - 1].start; }
  }

  lemma StartsAfter(lane: Lane, iv: Interval, j: nat)
    requires LaneOk(lane) && !NeighbourOverlap(lane, iv) && Rank(lane, iv) <= j < |lane| && Positive(iv)
    ensures iv.end <= lane[j].start
  {
    RankAfterStarts(lane, iv);
    SortedStarts(lane, Rank(lane, iv), j);
  }

  // ----- the allocator

  /** Lines are numbered from 1: line l of a process is lanes[l - 1]. `status` is the line a
      request last used per process, `slots` the metadata entries, `tids` the lines given out. */
  datatype Layout = Layout(
    graph: map<Pid, seq<Lane>>, status: map<Pid, nat>,
    slots: seq<(Pid, nat)>, tids: seq<(Span, nat)>)

  predicate StatusOk(l: Layout) {
    forall p :: p in l.status ==> p in l.graph && 1 <= l.status[p] <= |l.graph[p]|
  }

  /** The first line from `line` on that has room, or one past the last. */
  function FirstFit(lanes: seq<Lane>, iv: Interval, line: nat): (r: nat)
    requires 1 <= line <= |lanes| + 1
    ensures line <= r <= |lanes| + 1
    ensures r <= |lanes| ==> !NeighbourOverlap(lanes[r - 1], iv)
    ensures forall i :: line - 1 <= i < r - 1 ==> NeighbourOverlap(lanes[i], iv)
    decreases |lanes| + 1 - line
  {
    if line == |lanes| + 1 || !NeighbourOverlap(lanes[line - 1], iv) then line else FirstFit(lanes, iv, line + 1)
  }

  /** The line a span gets: the request's own line if the span has no length or fits there,
      else the first that fits, else a new one. */
  function ChosenLine(l: Layout, pid: Pid, iv: Interval): (line: nat)
    requires StatusOk(l)
    ensures line >= 1
    ensures pid in l.graph ==> line <= |l.graph[pid]| + 1
    ensures pid !in l.graph ==> line == 1
  {
    if pid in l.status && (iv.start == iv.end || !NeighbourOverlap(l.graph[pid][l.status[pid] - 1], iv)) then
      l.status[pid]
    else if pid !in l.graph then 1
    else FirstFit(l.graph[pid], iv, 1)
  }

  function Lanes(l: Layout, pid: Pid): seq<Lane> {
    if pid in l.graph then l.graph[pid] else []
  }

  /** Opening the chosen line if it is new. */
  function Opened(l: Layout, pid: Pid, line: nat): Layout {
    if line <= |Lanes(l, pid)| then l.(status := l.status[pid := line])
    else
      l.(graph := l.graph[pid := Lanes(l, pid) + [[]]], status := l.status[pid := line], slots := l.slots + [(pid, line)])
  }

  /** One span: choose its line, open it if need be, insert the span and note its line. */
  function Place(l: Layout, span: Span): (r: Layout)
    requires StatusOk(l)
    ensures StatusOk(r)
  {
    var line := ChosenLine(l, span.pid, span.iv);
    var o := Opened(l, span.pid, line);
    var lanes := o.graph[span.pid];
    o.(graph := o.graph[span.pid := lanes[line - 1 := Insert(lanes[line - 1], span.iv)]],
       tids := l.tids + [(span, line)])
  }

  function PlaceAll(l: Layout, spans: seq<Span>): (r: Layout)
    requires StatusOk(l)
    ensures StatusOk(r)
  {
    if spans == [] then l
    else var n := |spans| - 1; Place(PlaceAll(l, spans[..n]), spans[n])
  }

  /** Every request starts without a line of its own. */
  function NewRequest(l: Layout): (r: Layout)
    ensures StatusOk(r)
  {
    l.(status := map[])
  }

  function PlaceRequests(l: Layout, requests: seq<seq<Span>>): (r: Layout)
    requires StatusOk(l)
    ensures StatusOk(r)
  {
    if requests == [] then l
    else var n := |requests| - 1; PlaceAll(NewRequest(PlaceRequests(l, requests[..n])), requests[n])
  }

  const EMPTY := Layout(map[], map[], [], [])

  /** The engine requests one after the other, then the gateway spans as one more request. */
  function LayoutAll(requests: seq<seq<Span>>, smg: seq<Span>): (r: Layout) {
    PlaceAll(NewRequest(PlaceRequests(EMPTY, requests)), smg)
  }

  // ----- numbering and metadata, for every input

  /** Each line of each process has exactly one metadata entry, and no other entry exists. */
  ghost predicate SlotsOk(l: Layout) {
    forall p: Pid, line: nat ::
      multiset(l.slots)[(p, line)] == if 1 <= line <= |Lanes(l, p)| then 1 else 0
  }

  /** Every span laid out sits on the line it was given. */
  ghost predicate TidsOk(l: Layout) {
    forall i :: 0 <= i < |l.tids| ==>
      var (span, line) := l.tids[i];
      1 <= line <= |Lanes(l, span.pid)| && span.iv in Lanes(l, span.pid)[line - 1]
  }

  lemma OpenedSlots(l: Layout, pid: Pid, line: nat)
    requires SlotsOk(l) && 1 <= line <= |Lanes(l, pid)| + 1
    ensures SlotsOk(Opened(l, pid, line))
  {
    var o := Opened(l, pid, line);
    forall p: Pid, q: nat ensures multiset(o.slots)[(p, q)] == if 1 <= q <= |Lanes(o, p)| then 1 else 0 {
      assert multiset(l.slots)[(p, q)] == if 1 <= q <= |Lanes(l, p)| then 1 else 0;
      assert p != pid ==> Lanes(o, p) == Lanes(l, p);
    }
  }

  lemma PlaceKeepsSlots(l: Layout, span: Span)
    requires StatusOk(l) && SlotsOk(l)
    ensures SlotsOk(Place(l, span))
  {
    var line := ChosenLine(l, span.pid, span.iv);
    OpenedSlots(l, span.pid, line);
    var o, r := Opened(l, span.pid, line), Place(l, span);
    assert forall p :: |Lanes(r, p)| == |Lanes(o, p)|;
    forall p: Pid, q: nat ensures multiset(r.slots)[(p, q)] == if 1 <= q <= |Lanes(r, p)| then 1 else 0 {
      assert multiset(o.slots)[(p, q)] == if 1 <= q <= |Lanes(o, p)| then 1 else 0;
    }
  }

  lemma InsertMembers(lane: Lane, iv: Interval, x: Interval)
    ensures x in Insert(lane, iv) <==> x == iv || x in lane
  {
    var p := Rank(lane, iv);
    assert lane == lane[..p] + lane[p..];
  }

  // ----- the lane invariant over whole runs

  ghost predicate LanesOk(l: Layout) {
    forall p, i :: p in l.graph && 0 <= i < |l.graph[p]| ==> LaneOk(l.graph[p][i])
  }

  /** No two positive spans given the same line of the same process clash. */
  ghost predicate NoClash(l: Layout) {
    forall i, j :: 0 <= i < j < |l.tids| ==> !SameLineClash(l.tids[i], l.tids[j])
  }

  predicate SameLineClash(a: (Span, nat), b: (Span, nat)) {
    && a.0.pid == b.0.pid && a.1 == b.1
    && Positive(a.0.iv) && Positive(b.0.iv)
    && Clash(a.0.iv, b.0.iv)
  }

  ghost predicate LayoutOk(l: Layout) {
    StatusOk(l) && SlotsOk(l) && TidsOk(l) && LanesOk(l) && NoClash(l)
  }

  /** A span that has length goes to a line whose test lets it through. */
  lemma ChosenHasRoom(l: Layout, pid: Pid, iv: Interval)
    requires StatusOk(l) && iv.start != iv.end
    ensures var line := ChosenLine(l, pid, iv);
            line <= |Lanes(l, pid)| ==> !NeighbourOverlap(Lanes(l, pid)[line - 1], iv)
  {
  }

  /** The lane a span joins, before it does. */
  function JoinedLane(l: Layout, span: Span): Lane
    requires StatusOk(l)
  {
    var line := ChosenLine(l, span.pid, span.iv);
    if line <= |Lanes(l, span.pid)| then Lanes(l, span.pid)[line - 1] else []
  }

  lemma PlaceChangesOne(l: Layout, span: Span)
    requires StatusOk(l)
    ensures var line, r := ChosenLine(l, span.pid, span.iv), Place(l, span);
            && r.tids == l.tids + [(span, line)]
            && span.pid in r.graph && line <= |r.graph[span.pid]|
            && r.graph[span.pid][line - 1] == Insert(JoinedLane(l, span), span.iv)
            && r.graph.Keys == l.graph.Keys + {span.pid}
            && |r.graph[span.pid]| == (if line <= |Lanes(l, span.pid)| then |Lanes(l, span.pid)| else line)
            && (forall i :: 0 <= i < |r.graph[span.pid]| && i != line - 1 ==>
                  i < |Lanes(l, span.pid)| && r.graph[span.pid][i] == Lanes(l, span.pid)[i])
            && (forall p :: p in l.graph && p != span.pid ==> r.graph[p] == l.graph[p])
  {
  }

  lemma PlaceKeepsTids(l: Layout, span: Span)
    requires StatusOk(l) && TidsOk(l)
    ensures TidsOk(Place(l, span))
  {
    hide Place, Insert, ChosenLine, NeighbourOverlap;
    PlaceChangesOne(l, span);
    var line, r := ChosenLine(l, span.pid, span.iv), Place(l, span);
    forall i | 0 <= i < |r.tids|
      ensures var (s, q) := r.tids[i]; 1 <= q <= |Lanes(r, s.pid)| && s.iv in Lanes(r, s.pid)[q - 1]
    {
      var (s, q) := r.tids[i];
      InsertMembers(JoinedLane(l, span), span.iv, s.iv);
      if i < |l.tids| {
        assert l.tids[i] == (s, q);
        assert 1 <= q <= |Lanes(l, s.pid)| && s.iv in Lanes(l, s.pid)[q - 1];
      }
    }
  }

  lemma PlaceKeepsLanes(l: Layout, span: Span)
    requires StatusOk(l) && LanesOk(l) && span.iv.start != span.iv.end
    ensures LanesOk(Place(l, span))
  {
    hide Place, NeighbourOverlap, Insert, LaneOk;
    var r := Place(l, span);
    PlaceChangesOne(l, span);
    JoinedLaneOk(l, span);
    InsertKeepsLane(JoinedLane(l, span), span.iv);
    forall p, i | p in r.graph && 0 <= i < |r.graph[p]| ensures LaneOk(r.graph[p][i]) {
      if p != span.pid { assert r.graph[p][i] == l.graph[p][i]; }
    }
  }

  lemma JoinedLaneOk(l: Layout, span: Span)
    requires StatusOk(l) && LanesOk(l)
    ensures LaneOk(JoinedLane(l, span))
    ensures span.iv.start != span.iv.end ==> !NeighbourOverlap(JoinedLane(l, span), span.iv)
  {
    if span.iv.start != span.iv.end { ChosenHasRoom(l, span.pid, span.iv); }
  }

  lemma PlaceKeepsNoClash(l: Layout, span: Span)
    requires StatusOk(l) && TidsOk(l) && LanesOk(l) && NoClash(l) && span.iv.start != span.iv.end
    ensures NoClash(Place(l, span))
  {
    hide Place, NeighbourOverlap, Insert, LaneOk, LanesOk;
    var line, r, lane := ChosenLine(l, span.pid, span.iv), Place(l, span), JoinedLane(l, span);
    PlaceChangesOne(l, span);
    JoinedLaneOk(l, span);
    NeighbourSound(lane, span.iv);
    forall i, j | 0 <= i < j < |r.tids| ensures !SameLineClash(r.tids[i], r.tids[j]) {
      if j < |l.tids| {
        assert !SameLineClash(l.tids[i], l.tids[j]);
      } else {
        var (s, q) := l.tids[i];
        assert 1 <= q <= |Lanes(l, s.pid)| && s.iv in Lanes(l, s.pid)[q - 1];
        if s.pid == span.pid && q == line { assert s.iv in lane; }
      }
    }
  }

  /** Placing a span of any non-zero length keeps every lane good and adds no clash. */
  lemma PlaceKeepsLayout(l: Layout, span: Span)
    requires LayoutOk(l) && span.iv.start != span.iv.end
    ensures LayoutOk(Place(l, span))
  {
    hide Place, SlotsOk, TidsOk, LanesOk, NoClash;
    PlaceKeepsSlots(l, span);
    PlaceKeepsTids(l, span);
    PlaceKeepsLanes(l, span);
    PlaceKeepsNoClash(l, span);
  }

  predicate NoZeroLength(spans: seq<Span>) {
    forall i :: 0 <= i < |spans| ==> spans[i].iv.start != spans[i].iv.end
  }

  lemma {:induction false} PlaceAllKeepsLayout(l: Layout, spans: seq<Span>)
    requires LayoutOk(l) && NoZeroLength(spans)
    ensures LayoutOk(PlaceAll(l, spans))
  {
    if spans != [] {
      var n := |spans| - 1;
      PlaceAllKeepsLayout(l, spans[..n]);
      PlaceKeepsLayout(PlaceAll(l, spans[..n]), spans[n]);
    }
  }

  lemma NewRequestOk(l: Layout)
    requires LayoutOk(l)
    ensures LayoutOk(NewRequest(l))
  {
    hide LaneOk, SameLineClash;
    var r := NewRequest(l);
    assert forall p :: Lanes(r, p) == Lanes(l, p);
  }

  lemma {:induction false} PlaceRequestsKeepsLayout(l: Layout, requests: seq<seq<Span>>)
    requires LayoutOk(l) && forall i :: 0 <= i < |requests| ==> NoZeroLength(requests[i])
    ensures LayoutOk(PlaceRequests(l, requests))
  {
    hide SlotsOk, TidsOk, LanesOk, NoClash, PlaceAll;
    if requests != [] {
      var n := |requests| - 1;
      PlaceRequestsKeepsLayout(l, requests[..n]);
      NewRequestOk(PlaceRequests(l, requests[..n]));
      PlaceAllKeepsLayout(NewRequest(PlaceRequests(l, requests[..n])), requests[n]);
    }
  }

  /** Lane invariant over whole runs: without zero-length spans, lines are numbered from 1 without
      gaps and announced exactly once, every lane is sorted, and no two spans drawn on the same
      line overlap, whatever the requests and in whatever order. */
  lemma LayoutIsSound(requests: seq<seq<Span>>, smg: seq<Span>)
    requires forall i :: 0 <= i < |requests| ==> NoZeroLength(requests[i])
    requires NoZeroLength(smg)
    ensures LayoutOk(LayoutAll(requests, smg))
  {
    PlaceRequestsKeepsLayout(EMPTY, requests);
    NewRequestOk(PlaceRequests(EMPTY, requests));
    PlaceAllKeepsLayout(NewRequest(PlaceRequests(EMPTY, requests)), smg);
  }
}
