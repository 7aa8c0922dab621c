/**
 * The dashboard's three tables, reduced to the columns its aggregation reads,
 * and boolean-mask row selection (`df[mask]`), which every filter in the
 * dashboard uses.
 */
module Tables {

  datatype Option<T> = None | Some(value: T)

  /** A row of the yearly series: `Year` and `Burned Area [ha]`. */
  datatype YearRecord = YearRecord(year: int, area: real)

  /** A row of the per-region table: `Region`, `Burned_Are` and `of_Fires`. */
  datatype RegionRow = RegionRow(region: string, burned: real, fires: real)

  /** No value occurs twice. */
  ghost predicate Distinct<T>(s: seq<T>) {
    forall p, q :: 0 <= p < q < |s| ==> s[p] != s[q]
  }

  /** Strictly increasing positions: the order a selection keeps. */
  ghost predicate Increasing(idx: seq<nat>) {
    forall p, q :: 0 <= p < q < |idx| ==> idx[p] < idx[q]
  }

  /** The number of true entries of a mask. */
  function Count(mask: seq<bool>): (n: nat)
    ensures n <= |mask|
    decreases |mask|
  {
    if mask == [] then 0
    else Count(mask[..|mask| - 1]) + (if mask[|mask| - 1] then 1 else 0)
  }

  /**
   * `rows[mask]`: the rows whose mask entry is true, in their original order.
   * The mask is aligned with the rows, one entry per row.
   */
  function Where<T>(rows: seq<T>, mask: seq<bool>): (r: seq<T>)
    requires |mask| == |rows|
    ensures |r| == Count(mask)
    decreases |rows|
  {
    if rows == [] then []
    else
      var n := |rows| - 1;
      Where(rows[..n], mask[..n]) + (if mask[n] then [rows[n]] else [])
  }

  /**
   * The selection is exactly the masked rows, as an order-preserving
   * subsequence: `idx` lists the positions kept, in increasing order, each
   * kept position is true in the mask, and every true position is kept.
   */
  lemma {:induction false} WhereSelects<T>(rows: seq<T>, mask: seq<bool>) returns (idx: seq<nat>)
    requires |mask| == |rows|
    ensures |idx| == |Where(rows, mask)|
    ensures Increasing(idx)
    ensures forall k :: 0 <= k < |idx| ==>
              idx[k] < |rows| && mask[idx[k]] && Where(rows, mask)[k] == rows[idx[k]]
    ensures forall i :: 0 <= i < |rows| && mask[i] ==> i in idx
    decreases |rows|
  {
    if rows == [] {
      idx := [];
    } else {
      var n := |rows| - 1;
      var init := WhereSelects(rows[..n], mask[..n]);
      var w := Where(rows[..n], mask[..n]);
      forall k | 0 <= k < |init|
        ensures init[k] < n && mask[init[k]] && w[k] == rows[init[k]]
      {
        assert mask[..n][init[k]] == mask[init[k]];
      }
      forall i | 0 <= i < n && mask[i]
        ensures i in init
      {
        assert mask[..n][i];
      }
      if mask[n] {
        idx := init + [n];
        KeepLast(rows, mask, w, init, n);
      } else {
        idx := init;
        assert Where(rows, mask) == w;
      }
    }
  }

  /** The step of `WhereSelects` where the last row is kept. */
  lemma KeepLast<T>(rows: seq<T>, mask: seq<bool>, w: seq<T>, init: seq<nat>, n: nat)
    requires |mask| == |rows| == n + 1 && mask[n]
    requires w == Where(rows[..n], mask[..n]) && |init| == |w| && Increasing(init)
    requires forall k :: 0 <= k < |init| ==> init[k] < n && mask[init[k]] && w[k] == rows[init[k]]
    requires forall i :: 0 <= i < n && mask[i] ==> i in init
    ensures |init + [n]| == |Where(rows, mask)|
    ensures Increasing(init + [n])
    ensures forall k :: 0 <= k < |init + [n]| ==>
              (init + [n])[k] < |rows| && mask[(init + [n])[k]] && Where(rows, mask)[k] == rows[(init + [n])[k]]
    ensures forall i :: 0 <= i < |rows| && mask[i] ==> i in init + [n]
  {
    var idx := init + [n];
    assert Where(rows, mask) == w + [rows[n]];
    forall k | 0 <= k < |idx|
      ensures idx[k] < |rows| && mask[idx[k]] && Where(rows, mask)[k] == rows[idx[k]]
    {
      if k < |init| {
        assert idx[k] == init[k];
      }
    }
  }

  /** A mask that keeps every row keeps the table unchanged. */
  lemma {:induction false} WhereAll<T>(rows: seq<T>, mask: seq<bool>)
    requires |mask| == |rows|
    requires forall i :: 0 <= i < |mask| ==> mask[i]
    ensures Where(rows, mask) == rows
    decreases |rows|
  {
    if rows != [] {
      var n := |rows| - 1;
      assert mask[n];
      WhereAll(rows[..n], mask[..n]);
    }
  }

  /** A mask that keeps no row gives the empty table. */
  lemma {:induction false} WhereNone<T>(rows: seq<T>, mask: seq<bool>)
    requires |mask| == |rows|
    requires forall i :: 0 <= i < |mask| ==> !mask[i]
    ensures Where(rows, mask) == []
    decreases |rows|
  {
    if rows != [] {
      var n := |rows| - 1;
      assert !mask[n];
      WhereNone(rows[..n], mask[..n]);
    }
  }

  /** Selecting from two stacked tables selects from each and stacks the results. */
  lemma {:induction false} WhereAppend<T>(a: seq<T>, ma: seq<bool>, b: seq<T>, mb: seq<bool>)
    requires |ma| == |a| && |mb| == |b|
    ensures Where(a + b, ma + mb) == Where(a, ma) + Where(b, mb)
    decreases |b|
  {
    if b == [] {
      assert a + b == a && ma + mb == ma;
    } else {
      var n := |b| - 1;
      var ab, mab := a + b, ma + mb;
      assert ab[..|a| + n] == a + b[..n];
      assert mab[..|a| + n] == ma + mb[..n];
      assert ab[|a| + n] == b[n] && mab[|a| + n] == mb[n];
      WhereAppend(a, ma, b[..n], mb[..n]);
      assert Where(ab, mab) == Where(a + b[..n], ma + mb[..n]) + (if mb[n] then [b[n]] else []);
    }
  }
}
