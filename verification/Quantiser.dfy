/** Symmetric per-row INT8 quantisation over exact reals: the row-blocked loop and its error. */
module Quantiser {

  type Row = seq<real>

  function Abs(x: real): real {
    if x < 0.0 then -x else x
  }

  /** The largest magnitude in a row. */
  function RowMax(row: Row): (m: real)
    ensures m >= 0.0
    ensures forall k :: 0 <= k < |row| ==> Abs(row[k]) <= m
    ensures row != [] ==> exists k :: 0 <= k < |row| && Abs(row[k]) == m
  {
    if row == [] then 0.0
    else
      var n := |row| - 1;
      var m := RowMax(row[..n]);
      assert n > 0 ==> exists k :: 0 <= k < n && Abs(row[..n][k]) == m && Abs(row[k]) == m;
      if m < Abs(row[n]) || n == 0 then Abs(row[n]) else m
  }

  /** One step of the row's grid; the floor keeps an all-zero row from dividing by zero. */
  function Scale(row: Row, tiny: real): (s: real)
    requires tiny > 0.0
    ensures s > 0.0 && RowMax(row) <= 127.0 * s
    ensures RowMax(row) / 127.0 >= tiny ==> RowMax(row) == 127.0 * s
  {
    if RowMax(row) / 127.0 < tiny then tiny else RowMax(row) / 127.0
  }

  /** To the nearest integer, ties to the even one. */
  function RoundHalfEven(x: real): int {
    var f := x.Floor;
    var d := x - f as real;
    if d < 0.5 || (d == 0.5 && f % 2 == 0) then f else f + 1
  }

  function Clamp(n: int): int {
    if n < -127 then -127 else if n > 127 then 127 else n
  }

  function Code(w: real, s: real): int
    requires s > 0.0
  {
    Clamp(RoundHalfEven(w / s))
  }

  /** The inverse the runtime applies. */
  function Dequant(code: int, stored: real): real {
    code as real * stored
  }

  function QuantRow(row: Row, tiny: real): (q: seq<int>)
    requires tiny > 0.0
    ensures |q| == |row|
  {
    seq(|row|, k requires 0 <= k < |row| => Code(row[k], Scale(row, tiny)))
  }

  function QuantMatrix(weight: seq<Row>, tiny: real): (q: seq<seq<int>>)
    requires tiny > 0.0
    ensures |q| == |weight|
  {
    seq(|weight|, i requires 0 <= i < |weight| => QuantRow(weight[i], tiny))
  }

  function Scales(weight: seq<Row>, tiny: real): (s: seq<real>)
    requires tiny > 0.0
    ensures |s| == |weight|
  {
    seq(|weight|, i requires 0 <= i < |weight| => Scale(weight[i], tiny))
  }

  // ----- the blocked loop

  function BlockSize(rows: nat): (b: nat)
    ensures b >= 1
  {
    if rows < 1 then 1 else if rows < 8192 then rows else 8192
  }

  /** Quantising block after block of rows, in place, gives the whole-matrix result, whatever the
      number of rows and the block size. */
  method QuantizeBlocked(weight: seq<Row>, tiny: real, block: nat)
    returns (q: array<seq<int>>, scale: array<real>)
    requires tiny > 0.0 && block >= 1
    ensures fresh(q) && fresh(scale)
    ensures q[..] == QuantMatrix(weight, tiny) && scale[..] == Scales(weight, tiny)
  {
    var rows := |weight|;
    q := new seq<int>[rows](_ => []);
    scale := new real[rows](_ => 0.0);
    var start := 0;
    while start < rows
      invariant 0 <= start <= rows
      invariant forall i :: 0 <= i < start ==> q[i] == QuantRow(weight[i], tiny) && scale[i] == Scale(weight[i], tiny)
    {
      var stop := if start + block < rows then start + block else rows;
      for i := start to stop
        invariant forall j :: 0 <= j < i ==> q[j] == QuantRow(weight[j], tiny) && scale[j] == Scale(weight[j], tiny)
      {
        scale[i] := Scale(weight[i], tiny);
        q[i] := QuantRow(weight[i], tiny);
      }
      start := stop;
    }
  }

  method Quantize(weight: seq<Row>, tiny: real) returns (q: array<seq<int>>, scale: array<real>)
    requires tiny > 0.0
    ensures fresh(q) && fresh(scale)
    ensures q[..] == QuantMatrix(weight, tiny) && scale[..] == Scales(weight, tiny)
  {
    q, scale := QuantizeBlocked(weight, tiny, BlockSize(|weight|));
  }

  // ----- rounding

  lemma RoundNearest(x: real)
    ensures Abs(RoundHalfEven(x) as real - x) <= 0.5
  {
  }

  lemma RoundMonotone(x: real, y: real)
    requires x <= y
    ensures RoundHalfEven(x) <= RoundHalfEven(y)
  {
  }

  lemma FloorOf(x: real, n: int)
    requires n as real <= x < n as real + 1.0
    ensures x.Floor == n
  {
  }

  lemma RoundOdd(x: real)
    ensures RoundHalfEven(-x) == -RoundHalfEven(x)
  {
    var f := x.Floor;
    var d := x - f as real;
    if d == 0.0 {
      FloorOf(-x, -f);
    } else {
      FloorOf(-x, -f - 1);
    }
  }

  /** Reaching 127 takes more than 126.5 steps: a tie at 126.5 goes to 126. */
  lemma RoundRail(x: real)
    requires Abs(x) <= 127.0
    ensures -127 <= RoundHalfEven(x) <= 127
    ensures RoundHalfEven(x) == 127 <==> x > 126.5
    ensures RoundHalfEven(x) == -127 <==> x < -126.5
  {
    RoundOdd(x);
  }

  // ----- what the codes mean

  lemma DivBound(w: real, s: real, b: real)
    requires s > 0.0
    ensures w / s <= b <==> w <= b * s
    ensures w / s >= b <==> w >= b * s
  {
    var x := w / s;
    assert x * s == w;
    if x < b {
      assert x * s < b * s;
    } else if x == b {
    } else {
      assert x * s > b * s;
    }
  }

  lemma DivMonotone(w: real, v: real, s: real)
    requires s > 0.0 && w <= v
    ensures w / s <= v / s
  {
    assert v / s * s == v;
    DivBound(w, s, v / s);
  }

  lemma NegDiv(w: real, s: real)
    requires s > 0.0
    ensures -w / s == -(w / s)
  {
  }

  lemma StepsWithin(w: real, s: real)
    requires s > 0.0 && Abs(w) <= 127.0 * s
    ensures Abs(w / s) <= 127.0
  {
    DivBound(w, s, 127.0);
    DivBound(w, s, -127.0);
  }

  /** The clamp never changes a code. */
  lemma ClampIsIdle(row: Row, tiny: real, k: nat)
    requires tiny > 0.0 && k < |row|
    ensures QuantRow(row, tiny)[k] == RoundHalfEven(row[k] / Scale(row, tiny))
    ensures -127 <= QuantRow(row, tiny)[k] <= 127
  {
    StepsWithin(row[k], Scale(row, tiny));
    RoundRail(row[k] / Scale(row, tiny));
  }

  lemma ScaledError(q: int, w: real, s: real)
    requires s > 0.0 && Abs(q as real - w / s) <= 0.5
    ensures Abs(q as real * s - w) <= 0.5 * s
  {
    var d := q as real - w / s;
    assert (w / s) * s == w;
    assert q as real * s - w == d * s;
    assert -0.5 * s <= d * s <= 0.5 * s;
  }

  lemma StoredError(q: int, s: real, stored: real)
    requires s > 0.0 && -127 <= q <= 127 && Abs(stored - s) <= s / 256.0
    ensures Abs(q as real * stored - q as real * s) <= 127.0 * (s / 256.0)
  {
    var e, r := stored - s, q as real;
    assert r * stored - r * s == r * e;
    ProductBound(r, e, 127.0, s / 256.0);
  }

  lemma MulMonotone(x: real, y: real, z: real)
    requires x <= y && z >= 0.0
    ensures x * z <= y * z
  {
  }

  lemma AbsProduct(r: real, e: real)
    ensures Abs(r * e) == Abs(r) * Abs(e)
  {
    if r >= 0.0 && e >= 0.0 {
      assert r * e >= 0.0;
    } else if r < 0.0 && e < 0.0 {
      assert r * e == (-r) * (-e) >= 0.0;
    } else if r < 0.0 {
      assert r * e == -((-r) * e) <= 0.0;
    } else {
      assert r * e == -(r * (-e)) <= 0.0;
    }
  }

  lemma ProductBound(r: real, e: real, a: real, b: real)
    requires Abs(r) <= a && Abs(e) <= b
    ensures Abs(r * e) <= a * b
  {
    AbsProduct(r, e);
    MulMonotone(Abs(r), a, Abs(e));
    MulMonotone(Abs(e), b, a);
  }

  lemma HalfAndStored(s: real)
    ensures 127.0 * (s / 256.0) + 0.5 * s == 255.0 / 256.0 * s
  {
    var u := s / 256.0;
    assert u * 256.0 == s;
    assert 255.0 / 256.0 * s == 255.0 * u;
  }

  lemma CodeError(q: int, w: real, s: real, stored: real)
    requires s > 0.0 && -127 <= q <= 127 && Abs(q as real - w / s) <= 0.5
    requires Abs(stored - s) <= s / 256.0
    ensures Abs(Dequant(q, stored) - w) <= 255.0 / 256.0 * s
  {
    ScaledError(q, w, s);
    StoredError(q, s, stored);
    HalfAndStored(s);
    Triangle(q as real * stored, q as real * s, w, 127.0 * (s / 256.0), 0.5 * s);
  }

  /** Quantisation bound: with the scale stored to relative error 1/256, every entry comes back
      within 255/256 of one step of the original. */
  lemma RoundTripError(row: Row, tiny: real, k: nat, stored: real)
    requires tiny > 0.0 && k < |row|
    requires Abs(stored - Scale(row, tiny)) <= Scale(row, tiny) / 256.0
    ensures Abs(Dequant(QuantRow(row, tiny)[k], stored) - row[k]) <= 255.0 / 256.0 * Scale(row, tiny)
  {
    hide *;
    ClampIsIdle(row, tiny, k);
    RoundNearest(row[k] / Scale(row, tiny));
    CodeError(QuantRow(row, tiny)[k], row[k], Scale(row, tiny), stored);
  }

  lemma Triangle(a: real, b: real, c: real, d: real, e: real)
    requires Abs(a - b) <= d && Abs(b - c) <= e
    ensures Abs(a - c) <= d + e
  {
  }

  /** A row reaches the rail exactly when its largest entry is more than 126.5 steps, which every
      row above the floor is. */
  lemma RailReached(row: Row, tiny: real)
    requires tiny > 0.0
    ensures (exists k :: 0 <= k < |row| && (QuantRow(row, tiny)[k] == 127 || QuantRow(row, tiny)[k] == -127))
            <==> RowMax(row) > 126.5 * Scale(row, tiny)
    ensures row != [] && RowMax(row) / 127.0 >= tiny ==> RowMax(row) > 126.5 * Scale(row, tiny)
  {
    var s, q := Scale(row, tiny), QuantRow(row, tiny);
    forall k | 0 <= k < |row| ensures q[k] == 127 || q[k] == -127 <==> Abs(row[k]) > 126.5 * s {
      ClampIsIdle(row, tiny, k);
      StepsWithin(row[k], s);
      RoundRail(row[k] / s);
      StepsBeyond(row[k], s);
    }
    if RowMax(row) > 126.5 * s {
      var k :| 0 <= k < |row| && Abs(row[k]) == RowMax(row);
      assert q[k] == 127 || q[k] == -127;
    }
  }

  lemma StepsBeyond(w: real, s: real)
    requires s > 0.0
    ensures w / s > 126.5 <==> w > 126.5 * s
    ensures w / s < -126.5 <==> w < -126.5 * s
  {
    DivBound(w, s, 126.5);
    DivBound(w, s, -126.5);
  }

  /** Within a row the codes keep the order of the entries. */
  lemma CodesKeepOrder(row: Row, tiny: real, j: nat, k: nat)
    requires tiny > 0.0 && j < |row| && k < |row| && row[j] <= row[k]
    ensures QuantRow(row, tiny)[j] <= QuantRow(row, tiny)[k]
  {
    hide RoundHalfEven, Clamp, Scale;
    var s := Scale(row, tiny);
    ClampIsIdle(row, tiny, j);
    ClampIsIdle(row, tiny, k);
    DivMonotone(row[j], row[k], s);
    RoundMonotone(row[j] / s, row[k] / s);
  }

  function Negated(row: Row): (r: Row)
    ensures |r| == |row|
  {
    seq(|row|, k requires 0 <= k < |row| => -row[k])
  }

  lemma {:induction false} NegatedMax(row: Row)
    ensures RowMax(Negated(row)) == RowMax(row)
  {
    if row != [] {
      var n := |row| - 1;
      assert Negated(row)[..n] == Negated(row[..n]);
      NegatedMax(row[..n]);
    }
  }

  /** The scheme is symmetric: negating a row negates its codes and keeps its scale. */
  lemma QuantSymmetric(row: Row, tiny: real, k: nat)
    requires tiny > 0.0 && k < |row|
    ensures Scale(Negated(row), tiny) == Scale(row, tiny)
    ensures QuantRow(Negated(row), tiny)[k] == -QuantRow(row, tiny)[k]
  {
    hide RoundHalfEven, RowMax;
    NegatedMax(row);
    var s := Scale(row, tiny);
    NegDiv(row[k], s);
    RoundOdd(row[k] / s);
  }
}
