/**
 * The yearly bar chart's filter: keep the records of the yearly series whose
 * year the user selected (`csv_data[csv_data['Year'].isin(selected_years)]`).
 */
module YearFilter {
  import opened Tables

  /** `Year.isin(selected)`: one flag per record. */
  function YearMask(series: seq<YearRecord>, selected: set<int>): (m: seq<bool>)
    ensures |m| == |series|
    ensures forall i :: 0 <= i < |series| ==> (m[i] <==> series[i].year in selected)
  {
    seq(|series|, i requires 0 <= i < |series| => series[i].year in selected)
  }

  /**
   * The records shown in the bar chart: every record kept has a selected
   * year, and every record with a selected year is kept.
   */
  function FilterYears(series: seq<YearRecord>, selected: set<int>): (r: seq<YearRecord>)
    ensures |r| <= |series|
    ensures forall k :: 0 <= k < |r| ==> r[k].year in selected
    ensures forall i :: 0 <= i < |series| && series[i].year in selected ==> series[i] in r
  {
    YearMaskKeeps(series, selected);
    Where(series, YearMask(series, selected))
  }

  lemma YearMaskKeeps(series: seq<YearRecord>, selected: set<int>)
    ensures forall k :: 0 <= k < |Where(series, YearMask(series, selected))| ==>
              Where(series, YearMask(series, selected))[k].year in selected
    ensures forall i :: 0 <= i < |series| && series[i].year in selected ==>
              series[i] in Where(series, YearMask(series, selected))
  {
    var mask := YearMask(series, selected);
    var w := Where(series, mask);
    var idx := WhereSelects(series, mask);
    forall k | 0 <= k < |w|
      ensures w[k].year in selected
    {
      assert mask[idx[k]] && w[k] == series[idx[k]];
    }
    forall i | 0 <= i < |series| && series[i].year in selected
      ensures series[i] in w
    {
      var k :| 0 <= k < |idx| && idx[k] == i;
      assert w[k] == series[i];
    }
  }

  /** The years present in the series: the multiselect's default selection. */
  function AllYears(series: seq<YearRecord>): (ys: set<int>)
    ensures forall i :: 0 <= i < |series| ==> series[i].year in ys
    ensures forall y :: y in ys ==> exists i :: 0 <= i < |series| && series[i].year == y
  {
    set i | 0 <= i < |series| :: series[i].year
  }

  /**
   * The filtered series is the order-preserving subsequence of exactly those
   * records whose year is selected: `idx` gives the positions kept, in
   * increasing order, and a position is kept if and only if its year is selected.
   */
  lemma FilterYearsSelects(series: seq<YearRecord>, selected: set<int>) returns (idx: seq<nat>)
    ensures |idx| == |FilterYears(series, selected)|
    ensures Increasing(idx)
    ensures forall k :: 0 <= k < |idx| ==>
              idx[k] < |series| && FilterYears(series, selected)[k] == series[idx[k]]
    ensures forall i :: 0 <= i < |series| ==> (i in idx <==> series[i].year in selected)
  {
    var mask := YearMask(series, selected);
    idx := WhereSelects(series, mask);
    forall i | 0 <= i < |series| && i in idx
      ensures series[i].year in selected
    {
      var k :| 0 <= k < |idx| && idx[k] == i;
      assert mask[idx[k]];
    }
  }

  /** No year selected: nothing is shown. */
  lemma FilterYearsNone(series: seq<YearRecord>)
    ensures FilterYears(series, {}) == []
  {
    WhereNone(series, YearMask(series, {}));
  }

  /** The default selection, every year of the series, shows the series unchanged. */
  lemma FilterYearsDefault(series: seq<YearRecord>)
    ensures FilterYears(series, AllYears(series)) == series
  {
    WhereAll(series, YearMask(series, AllYears(series)));
  }

  /** Any selection containing every year of the series shows the series unchanged. */
  lemma FilterYearsSuperset(series: seq<YearRecord>, selected: set<int>)
    requires AllYears(series) <= selected
    ensures FilterYears(series, selected) == series
  {
    WhereAll(series, YearMask(series, selected));
  }

  /** Filtering stacked series filters each part. */
  lemma FilterYearsAppend(a: seq<YearRecord>, b: seq<YearRecord>, selected: set<int>)
    ensures FilterYears(a + b, selected) == FilterYears(a, selected) + FilterYears(b, selected)
  {
    assert YearMask(a + b, selected) == YearMask(a, selected) + YearMask(b, selected);
    WhereAppend(a, YearMask(a, selected), b, YearMask(b, selected));
  }

  /** A one-record series is kept whole when its year is selected and dropped otherwise. */
  lemma FilterYearsSingle(rec: YearRecord, selected: set<int>)
    ensures FilterYears([rec], selected) == if rec.year in selected then [rec] else []
  {
  }

  /** Filtering twice keeps the years in both selections. */
  lemma {:induction false} FilterYearsTwice(series: seq<YearRecord>, first: set<int>, second: set<int>)
    ensures FilterYears(FilterYears(series, first), second) == FilterYears(series, first * second)
    decreases |series|
  {
    if series != [] {
      var n := |series| - 1;
      var init, last := series[..n], [series[n]];
      assert series == init + last;
      FilterYearsAppend(init, last, first);
      FilterYearsAppend(init, last, first * second);
      FilterYearsTwice(init, first, second);
      FilterYearsSingle(series[n], first);
      FilterYearsSingle(series[n], first * second);
      var once := FilterYears(last, first);
      if series[n].year in first {
        FilterYearsSingle(series[n], second);
      } else {
        assert |FilterYears(once, second)| == 0;
      }
      FilterYearsAppend(FilterYears(init, first), once, second);
    }
  }
}
