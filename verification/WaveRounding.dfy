/** Division rounded up: its bounds, and how it meets sums and maxima. */
module WaveRounding {
  import opened Maxima
  import opened WaveModel

  lemma CeilDivBounds(num: int, d: int)
    requires d > 0
    ensures num <= CeilDiv(num, d) * d < num + d
  {
  }

  /** `CeilDiv` is characterised by its bounds. */
  lemma CeilDivUnique(num: int, d: int, q: int)
    requires d > 0 && num <= q * d < num + d
    ensures q == CeilDiv(num, d)
  {
    var e := CeilDiv(num, d);
    CeilDivBounds(num, d);
    MultiplesOrdered(q, e, d);
    MultiplesOrdered(e, q, d);
  }

  lemma CeilDivShift(num: int, d: int, k: int)
    requires d > 0
    ensures CeilDiv(num + k * d, d) == CeilDiv(num, d) + k
  {
    var e := CeilDiv(num, d);
    CeilDivBounds(num, d);
    assert (e + k) * d == e * d + k * d;
    CeilDivUnique(num + k * d, d, e + k);
  }

  lemma CeilDivMonotone(a: int, b: int, d: int)
    requires d > 0 && a <= b
    ensures CeilDiv(a, d) <= CeilDiv(b, d)
  {
    CeilDivBounds(a, d);
    CeilDivBounds(b, d);
    MultiplesOrdered(CeilDiv(a, d), CeilDiv(b, d), d);
  }

  lemma CeilDivMax(a: int, b: int, d: int)
    requires d > 0
    ensures CeilDiv(Max(a, b), d) == Max(CeilDiv(a, d), CeilDiv(b, d))
  {
    if a <= b { CeilDivMonotone(a, b, d); } else { CeilDivMonotone(b, a, d); }
  }

  lemma CeilDivMaxShift(h: int, g: int, d: int, k: int)
    requires d > 0
    ensures CeilDiv(Max(h, d * k + g), d) == Max(CeilDiv(h, d), k + CeilDiv(g, d))
  {
    CeilDivMax(h, d * k + g, d);
    assert d * k + g == g + k * d;
    CeilDivShift(g, d, k);
  }
}
