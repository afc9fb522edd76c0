/** The all_to_all cells: split sizes, marked buffers and the known answer. */
module BenchExchange {
  import opened Maxima
  import opened BenchCells

  // ----- split sizes

  /** Rows every rank but the first gets from each sender. */
  function Share(rows: nat, world: nat, pattern: Pattern, skew: nat): nat
    requires world >= 1 && skew >= 1
  {
    if pattern.Equal? then rows / world else rows / (skew + world - 1)
  }

  /** `counts` deals out all the rows: everyone gets the same share, the first rank the rest. */
  ghost predicate Deals(counts: seq<int>, rows: nat, world: nat, pattern: Pattern, skew: nat)
    requires world >= 1 && skew >= 1
  {
    && |counts| == world
    && Sum(counts) == rows
    && (forall j :: 1 <= j < world ==> counts[j] == Share(rows, world, pattern, skew))
    && counts[0] >= (if pattern.Equal? then 1 else skew) * Share(rows, world, pattern, skew)
  }

  lemma {:induction false} SumConstant(n: nat, x: int)
    ensures Sum(seq(n, _ => x)) == n * x
  {
    if n > 0 {
      assert seq(n, _ => x)[1..] == seq(n - 1, _ => x);
      SumConstant(n - 1, x);
      assert n * x == (n - 1) * x + x;
    }
  }

  /** Weighted shares before the remainder is added: they never exceed the rows. */
  lemma SharesFit(rows: nat, world: nat, first: nat)
    requires world >= 1 && first >= 1
    ensures var base := rows / (first + world - 1);
            Sum([first * base] + seq(world - 1, _ => base)) <= rows
  {
    var total := first + world - 1;
    var base := rows / total;
    SumConcat([first * base], seq(world - 1, _ => base));
    SumConstant(world - 1, base);
    assert first * base + (world - 1) * base == total * base <= rows;
  }

  lemma SumHead(x: int, d: int, rest: seq<int>)
    ensures Sum([x + d] + rest) == Sum([x] + rest) + d
  {
    assert ([x + d] + rest)[1..] == rest && ([x] + rest)[1..] == rest;
  }

  method SplitSizes(rows: nat, world: nat, pattern: Pattern, skew: nat) returns (s: seq<int>)
    requires world >= 1 && skew >= 1
    ensures Deals(s, rows, world, pattern, skew)
  {
    var first := if pattern.Equal? then 1 else skew;
    var base := rows / (first + world - 1);
    s := [first * base];
    for j := 1 to world
      invariant |s| == j && s[0] == first * base
      invariant forall i :: 1 <= i < j ==> s[i] == base
    {
      s := s + [1 * base];
    }
    ghost var rest := seq(world - 1, _ => base);
    assert s == [first * base] + rest;
    SharesFit(rows, world, first);
    var left := rows - Sum(s);
    SumHead(first * base, left, rest);
    s := s[0 := s[0] + left];
    assert s == [first * base + left] + rest;
  }

  /** The rows dealt out are determined, non-negative, and the first rank's share is largest. */
  lemma DealsDetermined(a: seq<int>, b: seq<int>, rows: nat, world: nat, pattern: Pattern, skew: nat)
    requires world >= 1 && skew >= 1
    requires Deals(a, rows, world, pattern, skew) && Deals(b, rows, world, pattern, skew)
    ensures a == b
    ensures forall j :: 0 <= j < world ==> 0 <= a[j] <= a[0]
  {
    assert a == [a[0]] + a[1..] && b == [b[0]] + b[1..];
    assert a[1..] == b[1..];
    var share := Share(rows, world, pattern, skew);
    if !pattern.Equal? { assert skew * share >= share; }
  }

  // ----- buffers

  type Row = seq<real>

  /** Tells the pair apart. */
  function Marker(world: nat, sender: nat, receiver: nat): nat {
    sender * world + receiver + 1
  }

  /** A row of a block: the marker plus half a step per column, four columns around. */
  function MarkedRow(width: nat, marker: nat): Row {
    seq(width, k requires k >= 0 => marker as real + 0.5 * (k % 4) as real)
  }

  function Block(width: nat, marker: nat, n: nat): seq<Row> {
    seq(n, _ => MarkedRow(width, marker))
  }

  /** Block after block: counts[j] rows with markers[j]. */
  function Laid(width: nat, counts: seq<nat>, markers: seq<nat>): seq<Row>
    requires |counts| == |markers|
  {
    if counts == [] then [] else Block(width, markers[0], counts[0]) + Laid(width, counts[1..], markers[1..])
  }

  lemma {:induction false} LaidLength(width: nat, counts: seq<nat>, markers: seq<nat>)
    requires |counts| == |markers|
    ensures |Laid(width, counts, markers)| == Sum(counts)
  {
    if counts != [] { LaidLength(width, counts[1..], markers[1..]); }
  }

  lemma {:induction false} LaidSnoc(width: nat, counts: seq<nat>, markers: seq<nat>, n: nat)
    requires |counts| == |markers| && n < |counts|
    ensures Laid(width, counts[..n + 1], markers[..n + 1])
            == Laid(width, counts[..n], markers[..n]) + Block(width, markers[n], counts[n])
  {
    var c, m := counts[..n + 1], markers[..n + 1];
    if n == 0 {
      assert c[1..] == [] && counts[..0] == [];
    } else {
      assert c[1..] == counts[1..][..n] && m[1..] == markers[1..][..n];
      assert counts[..n][1..] == counts[1..][..n - 1] && markers[..n][1..] == markers[1..][..n - 1];
      LaidSnoc(width, counts[1..], markers[1..], n - 1);
    }
  }

  /** Filling a buffer block by block, in place, lays the blocks out. */
  method FillBlocks(width: nat, counts: seq<nat>, markers: seq<nat>) returns (x: array<Row>)
    requires |counts| == |markers|
    ensures fresh(x) && x[..] == Laid(width, counts, markers)
  {
    var rows := 0;
    for j := 0 to |counts|
      invariant rows == Sum(counts[..j]) && rows >= 0
    {
      SumSnoc(counts, j);
      rows := rows + counts[j];
    }
    assert counts[..|counts|] == counts;
    x := new Row[rows](_ => []);
    var o := 0;
    for j := 0 to |counts|
      invariant o == Sum(counts[..j]) && 0 <= o <= x.Length
      invariant x[..o] == Laid(width, counts[..j], markers[..j])
    {
      var n := counts[j];
      SumSnoc(counts, j);
      SumPrefix(counts, j + 1);
      ghost var done := x[..o];
      var row := MarkedRow(width, markers[j]);
      for k := 0 to n
        invariant o + n <= x.Length
        invariant x[..o] == done
        invariant forall q :: o <= q < o + k ==> x[q] == row
      {
        x[o + k] := row;
      }
      LaidSnoc(width, counts, markers, j);
      assert x[..o + n] == done + Block(width, markers[j], n);
      o := o + n;
    }
    assert markers[..|markers|] == markers;
    assert x[..o] == x[..];
  }

  lemma SumSnoc(xs: seq<int>, n: nat)
    requires n < |xs|
    ensures Sum(xs[..n + 1]) == Sum(xs[..n]) + xs[n]
  {
    assert xs[..n + 1] == xs[..n] + [xs[n]];
    SumConcat(xs[..n], [xs[n]]);
  }

  lemma SumPrefix(xs: seq<nat>, n: nat)
    requires n <= |xs|
    ensures 0 <= Sum(xs[..n]) <= Sum(xs)
  {
    assert xs == xs[..n] + xs[n..];
    SumConcat(xs[..n], xs[n..]);
    SumNonNegative(xs[..n]);
    SumNonNegative(xs[n..]);
  }

  lemma SumNonNegative(xs: seq<nat>)
    ensures Sum(xs) >= 0
  {
  }

  // ----- the exchange

  function SendMarkers(world: nat, sender: nat): seq<nat> {
    seq(world, j requires 0 <= j => Marker(world, sender, j))
  }

  function ReceiveMarkers(world: nat, receiver: nat): seq<nat> {
    seq(world, i requires 0 <= i => Marker(world, i, receiver))
  }

  /** What a rank puts in: one block per receiver. */
  function SendBuffer(width: nat, send: seq<nat>, sender: nat): seq<Row> {
    Laid(width, send, SendMarkers(|send|, sender))
  }

  /** The known answer: one block per sender, each as long as this rank's own split. */
  function KnownAnswer(width: nat, send: seq<nat>, receiver: nat): seq<Row>
    requires receiver < |send|
  {
    Laid(width, seq(|send|, _ => send[receiver]), ReceiveMarkers(|send|, receiver))
  }

  /** The part of a buffer that goes to receiver j. */
  function Slice(buffer: seq<Row>, send: seq<nat>, j: nat): seq<Row>
    requires j < |send| && |buffer| == Sum(send)
  {
    SumPrefix(send, j);
    SumSnoc(send, j);
    SumPrefix(send, j + 1);
    buffer[Sum(send[..j])..Sum(send[..j + 1])]
  }

  /** What an exact exchange delivers to receiver j: every sender's slice, in rank order. */
  function Delivered(buffers: seq<seq<Row>>, send: seq<nat>, j: nat): seq<Row>
    requires j < |send| && forall i :: 0 <= i < |buffers| ==> |buffers[i]| == Sum(send)
  {
    if buffers == [] then [] else Slice(buffers[0], send, j) + Delivered(buffers[1..], send, j)
  }

  lemma {:induction false} SliceOfLaid(width: nat, counts: seq<nat>, markers: seq<nat>, j: nat)
    requires |counts| == |markers| && j < |counts|
    requires |Laid(width, counts, markers)| == Sum(counts)
    ensures Slice(Laid(width, counts, markers), counts, j) == Block(width, markers[j], counts[j])
  {
    var front, back := Laid(width, counts[..j + 1], markers[..j + 1]), Laid(width, counts[j + 1..], markers[j + 1..]);
    LaidConcat(width, counts, markers, j + 1);
    LaidLength(width, counts[..j + 1], markers[..j + 1]);
    LaidLength(width, counts[..j], markers[..j]);
    LaidSnoc(width, counts, markers, j);
    assert Slice(Laid(width, counts, markers), counts, j) == front[Sum(counts[..j])..];
  }

  lemma {:induction false} LaidConcat(width: nat, counts: seq<nat>, markers: seq<nat>, n: nat)
    requires |counts| == |markers| && n <= |counts|
    ensures Laid(width, counts, markers)
            == Laid(width, counts[..n], markers[..n]) + Laid(width, counts[n..], markers[n..])
    decreases |counts| - n
  {
    if n == |counts| {
      assert counts[..n] == counts && markers[..n] == markers && counts[n..] == [];
    } else {
      LaidConcat(width, counts, markers, n + 1);
      LaidSnoc(width, counts, markers, n);
    }
  }

  function SendBuffers(width: nat, send: seq<nat>, first: nat): (bs: seq<seq<Row>>)
    requires first <= |send|
    ensures |bs| == |send| - first
    ensures forall i :: 0 <= i < |bs| ==> bs[i] == SendBuffer(width, send, first + i)
    decreases |send| - first
  {
    if first == |send| then [] else [SendBuffer(width, send, first)] + SendBuffers(width, send, first + 1)
  }

  lemma {:induction false} DeliveredFrom(width: nat, send: seq<nat>, j: nat, first: nat)
    requires j < |send| && first <= |send|
    requires forall i :: 0 <= i < |send| - first ==> |SendBuffers(width, send, first)[i]| == Sum(send)
    ensures Delivered(SendBuffers(width, send, first), send, j)
            == Laid(width, seq(|send|, _ => send[j])[first..], ReceiveMarkers(|send|, j)[first..])
    decreases |send| - first
  {
    if first < |send| {
      var rest := SendBuffers(width, send, first + 1);
      assert SendBuffers(width, send, first)[1..] == rest;
      DeliveredFrom(width, send, j, first + 1);
      LaidLength(width, send, SendMarkers(|send|, first));
      SliceOfLaid(width, send, SendMarkers(|send|, first), j);
      var counts, markers := seq(|send|, _ => send[j])[first..], ReceiveMarkers(|send|, j)[first..];
      assert counts[1..] == seq(|send|, _ => send[j])[first + 1..];
      assert markers[1..] == ReceiveMarkers(|send|, j)[first + 1..];
      assert markers[0] == Marker(|send|, first, j) == SendMarkers(|send|, first)[j];
    }
  }

  /** The known answer is exactly what the exchange of the sent buffers delivers, for every world
      size, every split and every rank. */
  lemma KnownAnswerIsDelivered(width: nat, send: seq<nat>, receiver: nat)
    requires receiver < |send|
    ensures forall i :: 0 <= i < |send| ==> |SendBuffers(width, send, 0)[i]| == Sum(send)
    ensures Delivered(SendBuffers(width, send, 0), send, receiver) == KnownAnswer(width, send, receiver)
  {
    forall i | 0 <= i < |send| ensures |SendBuffers(width, send, 0)[i]| == Sum(send) {
      LaidLength(width, send, SendMarkers(|send|, i));
    }
    DeliveredFrom(width, send, receiver, 0);
    assert seq(|send|, _ => send[receiver])[0..] == seq(|send|, _ => send[receiver]);
    assert ReceiveMarkers(|send|, receiver)[0..] == ReceiveMarkers(|send|, receiver);
  }

  /** Blocks of different pairs never look alike, not even in one row. */
  lemma MarkedRowsDiffer(world: nat, width: nat, i: nat, j: nat, i': nat, j': nat)
    requires width > 0 && j < world && j' < world
    requires MarkedRow(width, Marker(world, i, j)) == MarkedRow(width, Marker(world, i', j'))
    ensures i == i' && j == j'
  {
    assert MarkedRow(width, Marker(world, i, j))[0] == Marker(world, i, j) as real;
    assert MarkedRow(width, Marker(world, i', j'))[0] == Marker(world, i', j') as real;
    assert i * world + j == i' * world + j';
    MultiplesOrdered(i, i', world);
    MultiplesOrdered(i', i, world);
  }
}
