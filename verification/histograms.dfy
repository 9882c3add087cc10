/** `np.histogram(values, range=(0, top), bins=bins)` with exact arithmetic.
    The `bins` bins share the fixed edges `k * top / bins` for
    `k = 0, ..., bins`; bin `b` holds the values from its lower edge up to but
    excluding its upper edge, except that the last bin also holds `top`.
    Values outside `[0, top]` are not counted at all. Counts are naturals. */
module Histograms {

  /** Edge `k` of the fixed edge set over `[0, top]`. */
  function Edge(top: real, bins: nat, k: nat): real
    requires 1 <= bins
  {
    k as real * top / bins as real
  }

  /** `v` falls into bin `b`: `b * top / bins <= v < (b + 1) * top / bins`,
      or `v == top` and `b` is the last bin; stated multiplied through by
      `bins`. */
  predicate InBin(v: real, top: real, bins: nat, b: nat) {
    && 0.0 <= v <= top
    && b < bins
    && b as real * top <= v * bins as real
    && (v * bins as real < (b + 1) as real * top || (b == bins - 1 && v == top))
  }

  /** The fixed edges start at 0, end at `top`, increase strictly and so all
      lie within `[0, top]`. */
  lemma EdgesWithinRange(top: real, bins: nat, j: nat, k: nat)
    requires 0.0 < top && 1 <= bins
    requires j < k <= bins
    ensures Edge(top, bins, 0) == 0.0 && Edge(top, bins, bins) == top
    ensures 0.0 <= Edge(top, bins, j) < Edge(top, bins, k) <= top
  {
    EdgeTop(top, bins);
    EdgeOrder(top, bins, j, k);
    if 0 < j {
      EdgeOrder(top, bins, 0, j);
    }
    if k < bins {
      EdgeOrder(top, bins, k, bins);
    }
  }

  lemma EdgeTop(top: real, bins: nat)
    requires 0.0 < top && 1 <= bins
    ensures Edge(top, bins, 0) == 0.0 && Edge(top, bins, bins) == top
  {
    var n := bins as real;
    assert n * top / n == top;
  }

  lemma EdgeOrder(top: real, bins: nat, j: nat, k: nat)
    requires 0.0 < top && 1 <= bins && j < k
    ensures Edge(top, bins, j) < Edge(top, bins, k)
  {
    var n := bins as real;
    var a, b := j as real * top, k as real * top;
    ScaleOrder(j as real, k as real, top);
    ScaleOrder(a / n, b / n, n);
    assert a / n * n == a && b / n * n == b;
  }

  /** `InBin` is the edge condition: the lower edge of bin `b` is at most
      `v`, and `v` is below the upper edge or is the closed end of the last
      bin. */
  lemma InBinIsBetweenEdges(v: real, top: real, bins: nat, b: nat)
    requires 0.0 < top && 1 <= bins && b < bins
    ensures InBin(v, top, bins, b) <==>
      && 0.0 <= v <= top
      && Edge(top, bins, b) <= v
      && (v < Edge(top, bins, b + 1) || (b == bins - 1 && v == Edge(top, bins, bins)))
  {
    var n := bins as real;
    EdgeTop(top, bins);
    var lo, hi := b as real * top, (b + 1) as real * top;
    ScaleOrder(lo / n, v, n);
    ScaleOrder(v, hi / n, n);
    assert lo / n * n == lo && hi / n * n == hi;
  }

  /** Multiplying by a positive factor preserves and reflects order. */
  lemma ScaleOrder(a: real, b: real, c: real)
    requires 0.0 < c
    ensures a <= b <==> a * c <= b * c
    ensures a < b <==> a * c < b * c
  {
  }

  /** The scaled position `y` of an in-range value (`y * top == v * bins`)
      lies in `[0, bins]` and reaches `bins` only at `v == top`. */
  lemma ScaledPosition(v: real, top: real, n: real, y: real)
    requires 0.0 < top && 1.0 <= n && 0.0 <= v <= top
    requires y * top == v * n
    ensures 0.0 <= y <= n
    ensures y == n ==> v == top
  {
    ScaleOrder(v, top, n);
    ScaleOrder(y, n, top);
    ScaleOrder(0.0, y, top);
    ScaleOrder(0.0, v, n);
    if y == n {
      ScaleOrder(top, v, n);
    }
  }

  /** The floor `x` of the scaled position bounds `v` between
      `x * top / bins` and `(x + 1) * top / bins`. */
  lemma FloorBounds(v: real, top: real, n: real, y: real, x: int)
    requires 0.0 < top
    requires y * top == v * n
    requires x == y.Floor
    ensures x as real * top <= v * n
    ensures v * n < (x + 1) as real * top
  {
    assert x as real <= y < x as real + 1.0;
    assert y < (x + 1) as real;
    ScaleOrder(y, (x + 1) as real, top);
    ScaleOrder(x as real, y, top);
  }

  /** The bin `np.histogram` assigns to an in-range value: the floor of its
      scaled position, with `top` itself moved into the last bin. */
  function BinOf(v: real, top: real, bins: nat): (b: nat)
    requires 0.0 < top && 1 <= bins && 0.0 <= v <= top
    ensures InBin(v, top, bins, b)
  {
    var n := bins as real;
    var y := v * n / top;
    assert y * top == v * n;
    ScaledPosition(v, top, n, y);
    FloorBounds(v, top, n, y, y.Floor);
    if y.Floor >= bins then
      assert y == n;
      assert (bins - 1) as real * top <= top * n by {
        ScaleOrder((bins - 1) as real, n, top);
      }
      bins - 1
    else
      y.Floor
  }

  /** A value lies in at most one bin. */
  lemma BinUnique(v: real, top: real, bins: nat, b: nat, c: nat)
    requires 0.0 < top
    requires InBin(v, top, bins, b) && InBin(v, top, bins, c)
    ensures b == c
  {
  }

  /** The in-range value `v` lies exactly in bin `BinOf(v)`. */
  lemma BinOfExactly(v: real, top: real, bins: nat)
    requires 0.0 < top && 1 <= bins && 0.0 <= v <= top
    ensures forall b :: InBin(v, top, bins, b) <==> b == BinOf(v, top, bins)
  {
    forall b | InBin(v, top, bins, b)
      ensures b == BinOf(v, top, bins)
    {
      BinUnique(v, top, bins, b, BinOf(v, top, bins));
    }
  }

  /** The number of values that fall into bin `b` (the reference count). */
  function CountInBin(values: seq<real>, top: real, bins: nat, b: nat): nat
    decreases |values|
  {
    if |values| == 0 then 0
    else
      CountInBin(values[..|values| - 1], top, bins, b)
      + (if InBin(values[|values| - 1], top, bins, b) then 1 else 0)
  }

  /** The number of values within `[0, top]`: those that `np.histogram`
      counts. */
  function InRangeCount(values: seq<real>, top: real): (r: nat)
    ensures r <= |values|
    ensures r == |values| <==> forall k :: 0 <= k < |values| ==> 0.0 <= values[k] <= top
    decreases |values|
  {
    if |values| == 0 then 0
    else
      var prefix := values[..|values| - 1];
      var v := values[|values| - 1];
      var c := InRangeCount(prefix, top);
      assert forall k :: 0 <= k < |prefix| ==> prefix[k] == values[k];
      c + (if 0.0 <= v <= top then 1 else 0)
  }

  function Sum(h: seq<nat>): nat
    decreases |h|
  {
    if |h| == 0 then 0 else Sum(h[..|h| - 1]) + h[|h| - 1]
  }

  lemma {:induction false} SumIncrement(h: seq<nat>, k: nat)
    requires k < |h|
    ensures Sum(h[k := h[k] + 1]) == Sum(h) + 1
    decreases |h|
  {
    var h' := h[k := h[k] + 1];
    if k < |h| - 1 {
      assert h'[..|h| - 1] == h[..|h| - 1][k := h[k] + 1];
      SumIncrement(h[..|h| - 1], k);
    } else {
      assert h'[..|h| - 1] == h[..|h| - 1];
    }
  }

  lemma {:induction false} SumZeros(n: nat)
    ensures Sum(seq(n, _ => 0)) == 0
  {
    if n > 0 {
      assert seq(n, _ => 0)[..n - 1] == seq(n - 1, _ => 0);
      SumZeros(n - 1);
    }
  }

  /** The histogram, accumulated value by value as `np.histogram` counts
      them: bin `b` holds the number of values in bin `b`, and the counts
      add up to the number of values within the range. */
  function Histogram(values: seq<real>, top: real, bins: nat): (h: seq<nat>)
    requires 0.0 < top && 1 <= bins
    ensures |h| == bins
    ensures forall b :: 0 <= b < bins ==> h[b] == CountInBin(values, top, bins, b)
    ensures Sum(h) == InRangeCount(values, top)
    decreases |values|
  {
    if |values| == 0 then
      SumZeros(bins);
      seq(bins, _ => 0)
    else
      var prefix := values[..|values| - 1];
      var v := values[|values| - 1];
      var h := Histogram(prefix, top, bins);
      if 0.0 <= v <= top then
        var k := BinOf(v, top, bins);
        BinOfExactly(v, top, bins);
        SumIncrement(h, k);
        h[k := h[k] + 1]
      else
        h
  }

  /** When every value lies in `[0, top]` the counts add up to the number of
      values. */
  lemma HistogramCountsEveryValue(values: seq<real>, top: real, bins: nat)
    requires 0.0 < top && 1 <= bins
    requires forall k :: 0 <= k < |values| ==> 0.0 <= values[k] <= top
    ensures Sum(Histogram(values, top, bins)) == |values|
  {
  }
}
