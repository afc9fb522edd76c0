/** The lane allocator as it runs: containers of intervals kept sorted in place, a table of them
    per process, and the per-request line. Every step is proved to do what `SpanLanes` specifies. */
module SpanAllocator {
  import opened SpanLanes
  import opened SpanDepth

  /** A binary search ends at the only place that splits the lane. */
  lemma {:induction false} SplitsAtStart(lane: Lane, start: int, k: nat)
    requires k <= |lane|
    requires forall i :: 0 <= i < k ==> lane[i].start < start
    requires forall i :: k <= i < |lane| ==> lane[i].start >= start
    ensures k == StartsBefore(lane, start)
  {
    if k > 0 { SplitsAtStart(lane[1..], start, k - 1); }
  }

  lemma {:induction false} SplitsAtInterval(lane: Lane, iv: Interval, k: nat)
    requires k <= |lane|
    requires forall i :: 0 <= i < k ==> Below(lane[i], iv)
    requires forall i :: k <= i < |lane| ==> !Below(lane[i], iv)
    ensures k == Rank(lane, iv)
  {
    if k > 0 { SplitsAtInterval(lane[1..], iv, k - 1); }
  }

  class SpanLayoutContainer {
    ghost const pid: Pid   // the line this container was opened for
    ghost const line: nat

    var intervals: seq<Interval>

    ghost predicate Valid()
      reads this
    {
      Sorted(intervals)
    }

    constructor (ghost pid: Pid, ghost line: nat)
      ensures Valid() && intervals == [] && this.pid == pid && this.line == line
    {
      this.pid, this.line := pid, line;
      intervals := [];
    }

    /** Binary search for the first interval that does not start before `start`. */
    method BisectStart(start: int) returns (lo: nat)
      requires Valid()
      ensures lo == StartsBefore(intervals, start)
    {
      lo := 0;
      var hi := |intervals|;
      while lo < hi
        invariant 0 <= lo <= hi <= |intervals|
        invariant forall i :: 0 <= i < lo ==> intervals[i].start < start
        invariant forall i :: hi <= i < |intervals| ==> intervals[i].start >= start
      {
        var mid := (lo + hi) / 2;
        if intervals[mid].start < start {
          lo := mid + 1;
        } else {
          hi := mid;
        }
      }
      SplitsAtStart(intervals, start, lo);
    }

    /** Binary search for the leftmost place of an interval. */
    method BisectInterval(iv: Interval) returns (lo: nat)
      requires Valid()
      ensures lo == Rank(intervals, iv)
    {
      lo := 0;
      var hi := |intervals|;
      while lo < hi
        invariant 0 <= lo <= hi <= |intervals|
        invariant forall i :: 0 <= i < lo ==> Below(intervals[i], iv)
        invariant forall i :: hi <= i < |intervals| ==> !Below(intervals[i], iv)
      {
        var mid := (lo + hi) / 2;
        if Below(intervals[mid], iv) {
          lo := mid + 1;
        } else {
          hi := mid;
        }
      }
      SplitsAtInterval(intervals, iv, lo);
    }

    method CheckOverlap(iv: Interval) returns (overlap: bool)
      requires Valid()
      ensures overlap == NeighbourOverlap(intervals, iv)
    {
      var idx := BisectStart(iv.start);
      if idx > 0 && intervals[idx - 1].end > iv.start {
        return true;
      }
      if idx < |intervals| && intervals[idx].start < iv.end {
        return true;
      }
      return false;
    }

    method InsertSpan(iv: Interval)
      requires Valid()
      modifies this
      ensures Valid() && intervals == Insert(old(intervals), iv)
    {
      InsertKeepsSorted(intervals, iv);
      var idx := BisectInterval(iv);
      intervals := intervals[..idx] + [iv] + intervals[idx..];
    }
  }

  type Table = map<Pid, seq<SpanLayoutContainer>>
  type LaneTable = map<Pid, seq<Lane>>

  /** The container is this line's own and holds these intervals. */
  ghost predicate Serves(c: SpanLayoutContainer, pid: Pid, line: nat, lane: Lane)
    reads c
  {
    c.pid == pid && c.line == line && c.Valid() && c.intervals == lane
  }

  /** The containers of a table hold the lanes of another, line by line. */
  ghost predicate Holds(graph: Table, lanes: LaneTable, repr: set<SpanLayoutContainer>)
    reads repr
  {
    && graph.Keys == lanes.Keys
    && (forall p :: p in graph ==> |graph[p]| == |lanes[p]|)
    && (forall p, i :: p in graph && 0 <= i < |graph[p]| ==> graph[p][i] in repr)
    && (forall p, i :: p in graph && 0 <= i < |graph[p]| ==> Serves(graph[p][i], p, i + 1, lanes[p][i]))
  }

  lemma HoldsShape(graph: Table, lanes: LaneTable, repr: set<SpanLayoutContainer>)
    requires Holds(graph, lanes, repr)
    ensures graph.Keys == lanes.Keys && forall p :: p in graph ==> |graph[p]| == |lanes[p]|
  {
  }

  lemma HoldsOneMore(graph: Table, lanes: LaneTable, repr: set<SpanLayoutContainer>, pid: Pid, c: SpanLayoutContainer)
    requires Holds(graph, lanes, repr)
    requires Serves(c, pid, (if pid in graph then |graph[pid]| else 0) + 1, [])
    ensures Holds(graph[pid := (if pid in graph then graph[pid] else []) + [c]],
                  lanes[pid := (if pid in lanes then lanes[pid] else []) + [[]]], repr + {c})
  {
    hide Serves;
  }

  /** The tables of one layout run. Line l of a process is container l - 1 of its sequence. */
  class Allocator {
    ghost var view: Layout  // what the tables stand for
    ghost var repr: set<SpanLayoutContainer>  // the containers in use

    var graph: Table
    var status: map<Pid, nat>
    var slots: seq<(Pid, nat)>
    var tids: seq<(Span, nat)>

    ghost predicate Valid()
      reads this, repr
    {
      && Holds(graph, view.graph, repr)
      && status == view.status && slots == view.slots && tids == view.tids
      && StatusOk(view)
    }

    constructor ()
      ensures Valid() && view == EMPTY && repr == {}
    {
      graph, status, slots, tids := map[], map[], [], [];
      view, repr := EMPTY, {};
    }

    /** Open the next line of a process. */
    method OpenLine(pid: Pid) returns (line: nat)
      requires Valid()
      modifies this
      ensures Valid() && line == |Lanes(old(view), pid)| + 1
      ensures view == Opened(old(view), pid, line)
      ensures fresh(repr - old(repr))
    {
      hide Holds, Sorted, Opened, StatusOk;
      HoldsShape(graph, view.graph, repr);
      OpenedNew(view, pid);
      var lines := if pid in graph then graph[pid] else [];
      line := |lines| + 1;
      var container := new SpanLayoutContainer(pid, line);
      HoldsOneMore(graph, view.graph, repr, pid, container);
      graph := graph[pid := lines + [container]];
      status := status[pid := line];
      slots := slots + [(pid, line)];
      view, repr := Opened(view, pid, line), repr + {container};
    }

    /** The first line of a process with room for the span, or one past the last. */
    method FirstWithRoom(pid: Pid, iv: Interval) returns (line: nat)
      requires Valid() && pid in graph
      ensures pid in view.graph && line == FirstFit(view.graph[pid], iv, 1)
      ensures |graph[pid]| == |view.graph[pid]|
    {
      line := 1;
      while line <= |graph[pid]|
        invariant 1 <= line <= |graph[pid]| + 1
        invariant FirstFit(view.graph[pid], iv, 1) == FirstFit(view.graph[pid], iv, line)
      {
        var overlap := HasNoRoom(pid, line, iv);
        if !overlap {
          return;
        }
        line := line + 1;
      }
    }

    method HasNoRoom(pid: Pid, line: nat, iv: Interval) returns (overlap: bool)
      requires Valid() && pid in graph && 1 <= line <= |graph[pid]|
      ensures pid in view.graph && |view.graph[pid]| == |graph[pid]|
      ensures overlap == NeighbourOverlap(view.graph[pid][line - 1], iv)
    {
      overlap := graph[pid][line - 1].CheckOverlap(iv);
    }

    /** The line for a span, opened if it is new. */
    method FindLine(pid: Pid, iv: Interval) returns (line: nat)
      requires Valid()
      modifies this
      ensures Valid() && line == ChosenLine(old(view), pid, iv)
      ensures view == Opened(old(view), pid, line)
      ensures fresh(repr - old(repr))
    {
      hide Holds, Opened, NeighbourOverlap, FirstFit;
      HoldsShape(graph, view.graph, repr);
      if pid in status {
        line := status[pid];
        OpenedOwn(view, pid);
        if iv.start == iv.end {
          return;
        }
        var overlap := HasNoRoom(pid, line, iv);
        if !overlap {
          return;
        }
      }
      if pid !in graph {
        line := OpenLine(pid);
        return;
      }
      line := FirstWithRoom(pid, iv);
      if line <= |graph[pid]| {
        OpenedOther(view, pid, line);
        status := status[pid := line];
        view := Opened(view, pid, line);
        return;
      }
      line := OpenLine(pid);
    }

    static lemma OpenedOwn(l: Layout, pid: Pid)
      requires StatusOk(l) && pid in l.status
      ensures Opened(l, pid, l.status[pid]) == l
    {
      assert l.status[pid := l.status[pid]] == l.status;
    }

    static lemma OpenedNew(l: Layout, pid: Pid)
      requires StatusOk(l)
      ensures var line := |Lanes(l, pid)| + 1;
              && Opened(l, pid, line) == l.(graph := l.graph[pid := (if pid in l.graph then l.graph[pid] else []) + [[]]],
                                            status := l.status[pid := line], slots := l.slots + [(pid, line)])
              && StatusOk(Opened(l, pid, line))
    {
    }

    static lemma OpenedOther(l: Layout, pid: Pid, line: nat)
      requires StatusOk(l) && 1 <= line <= |Lanes(l, pid)|
      ensures Opened(l, pid, line) == l.(status := l.status[pid := line])
      ensures StatusOk(Opened(l, pid, line))
    {
    }

    static lemma OpenedHasLine(l: Layout, pid: Pid, line: nat)
      requires 1 <= line <= |Lanes(l, pid)| + 1
      ensures var o := Opened(l, pid, line); pid in o.graph && line <= |o.graph[pid]| && o.tids == l.tids
    {
    }

    /** Lay one span out: find its line, insert it there, give it the line as its track. */
    method PlaceSpan(span: Span) returns (line: nat)
      requires Valid()
      modifies this, repr
      ensures Valid() && line == ChosenLine(old(view), span.pid, span.iv)
      ensures view == Place(old(view), span)
      ensures fresh(repr - old(repr))
    {
      hide ChosenLine, Opened, Insert, Sorted, NeighbourOverlap;
      line := FindLine(span.pid, span.iv);
      OpenedHasLine(old(view), span.pid, line);
      var container := graph[span.pid][line - 1];
      ghost var lanes := view.graph;
      container.InsertSpan(span.iv);
      tids := tids + [(span, line)];
      view := Place(old(view), span);
      forall p, i | p in graph && 0 <= i < |graph[p]| ensures Serves(graph[p][i], p, i + 1, view.graph[p][i]) {
        if p != span.pid || i != line - 1 {
          assert graph[p][i] != container;
          assert view.graph[p][i] == lanes[p][i];
        }
      }
    }

    /** A whole list of spans sharing one request's status. */
    method PlaceSpans(spans: seq<Span>)
      requires Valid()
      modifies this, repr
      ensures Valid() && view == PlaceAll(old(view), spans)
      ensures fresh(repr - old(repr))
    {
      hide Holds, Place;
      for i := 0 to |spans|
        invariant Valid() && view == PlaceAll(old(view), spans[..i])
        invariant fresh(repr - old(repr))
      {
        assert spans[..i + 1][..i] == spans[..i];
        var line := PlaceSpan(spans[i]);
      }
      assert spans[..|spans|] == spans;
    }

    /** The whole layout: every request from a fresh status, then the gateway spans by start. */
    method Run(requests: seq<seq<Span>>, smg: seq<Span>)
      requires Valid() && view == EMPTY
      modifies this, repr
      ensures Valid() && view == LayoutAll(requests, SortByStart(smg))
    {
      hide Holds, PlaceAll, SortByStart;
      for i := 0 to |requests|
        invariant Valid() && view == PlaceRequests(EMPTY, requests[..i])
        invariant fresh(repr - old(repr))
      {
        assert requests[..i + 1][..i] == requests[..i];
        status := map[];
        view := NewRequest(view);
        PlaceSpans(requests[i]);
      }
      assert requests[..|requests|] == requests;
      status := map[];
      view := NewRequest(view);
      PlaceSpans(SortByStart(smg));
    }
  }
}
