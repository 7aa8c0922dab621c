/**
 * Choropleth binning: six boundaries that cut the range of the per-region
 * burned area into five intervals of equal width. Arithmetic is over `real`,
 * an idealisation of the floating-point values the dashboard computes with.
 */
module Binning {

  /** Number of equal-width intervals. */
  const Intervals: nat := 5

  /** Smallest value of a non-empty column (`Series.min`). */
  function Min(s: seq<real>): (m: real)
    requires |s| > 0
    ensures m in s
    ensures forall i :: 0 <= i < |s| ==> m <= s[i]
  {
    if |s| == 1 then s[0]
    else
      var rest := Min(s[1..]);
      if s[0] <= rest then s[0] else rest
  }

  /** Largest value of a non-empty column (`Series.max`). */
  function Max(s: seq<real>): (m: real)
    requires |s| > 0
    ensures m in s
    ensures forall i :: 0 <= i < |s| ==> s[i] <= m
  {
    if |s| == 1 then s[0]
    else
      var rest := Max(s[1..]);
      if rest <= s[0] then s[0] else rest
  }

  /** Width of one interval. */
  function Width(lo: real, hi: real): real {
    (hi - lo) / Intervals as real
  }

  /** Boundary `i` of the scheme spanning `lo..hi`: `lo + i * width`. */
  function Boundary(lo: real, hi: real, i: nat): real {
    lo + i as real * Width(lo, hi)
  }

  /**
   * The bins of a non-empty burned-area column: six boundaries, the first
   * the column's minimum, the last its maximum, consecutive ones exactly one
   * interval width apart.
   */
  function Bins(areas: seq<real>): (b: seq<real>)
    requires |areas| > 0
    ensures |b| == Intervals + 1
    ensures b[0] in areas && forall i :: 0 <= i < |areas| ==> b[0] <= areas[i]
    ensures b[Intervals] in areas && forall i :: 0 <= i < |areas| ==> areas[i] <= b[Intervals]
    ensures forall i :: 0 <= i < Intervals ==> b[i + 1] - b[i] == (b[Intervals] - b[0]) / Intervals as real
  {
    var lo, hi := Min(areas), Max(areas);
    var b := seq(Intervals + 1, i requires 0 <= i <= Intervals => Boundary(lo, hi, i));
    assert b[Intervals] == hi;
    forall i | 0 <= i < Intervals
      ensures b[i + 1] - b[i] == Width(lo, hi)
    {
      StepIsWidth(lo, hi, i);
    }
    b
  }

  /** Consecutive boundaries are one width apart. */
  lemma StepIsWidth(lo: real, hi: real, i: nat)
    ensures Boundary(lo, hi, i + 1) - Boundary(lo, hi, i) == Width(lo, hi)
  {
    assert (i + 1) as real * Width(lo, hi) == i as real * Width(lo, hi) + Width(lo, hi);
  }

  /** Boundaries never decrease, and strictly increase exactly when the column is not constant. */
  lemma {:induction false} BinsOrdered(areas: seq<real>, i: nat, j: nat)
    requires |areas| > 0 && i < j <= Intervals
    ensures Bins(areas)[i] <= Bins(areas)[j]
    ensures Bins(areas)[i] < Bins(areas)[j] <==> Min(areas) < Max(areas)
    decreases j - i
  {
    var b := Bins(areas);
    if j > i + 1 {
      BinsOrdered(areas, i, j - 1);
    }
  }

  /** A constant column collapses every boundary onto its one value. */
  lemma BinsDegenerate(areas: seq<real>, v: real)
    requires |areas| > 0
    requires forall i :: 0 <= i < |areas| ==> areas[i] == v
    ensures forall k :: 0 <= k <= Intervals ==> Bins(areas)[k] == v
  {
    var b := Bins(areas);
    assert b[0] == v && b[Intervals] == v;
    forall k | 0 <= k <= Intervals
      ensures b[k] == v
    {
      if 0 < k {
        BinsOrdered(areas, 0, k);
      }
      if k < Intervals {
        BinsOrdered(areas, k, Intervals);
      }
    }
  }

  /** Every value of the column falls in one of the five intervals. */
  lemma BinsCoverColumn(areas: seq<real>, a: real)
    requires |areas| > 0 && a in areas
    ensures exists k :: 0 <= k < Intervals && Bins(areas)[k] <= a <= Bins(areas)[k + 1]
  {
    var b := Bins(areas);
    forall k | 0 <= k < Intervals
      ensures b[k] <= b[k + 1]
    {
      BinsOrdered(areas, k, k + 1);
    }
    if a <= b[1] {
      assert b[0] <= a <= b[1];
    } else if a <= b[2] {
      assert b[1] <= a <= b[2];
    } else if a <= b[3] {
      assert b[2] <= a <= b[3];
    } else if a <= b[4] {
      assert b[3] <= a <= b[4];
    } else {
      assert b[4] <= a <= b[5];
    }
  }
}
