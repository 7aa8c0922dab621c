/**
 * The sidebar panel's two figures for one region: the sums of `Burned_Are`
 * and of `of_Fires` (fires per km² of region area, a fractional figure) over
 * every row of the per-region table whose `Region` is that region (`table[table['Region'] == region][column].sum()`).
 */
module RegionSummary {
  import opened Tables

  /** The panel's pair of totals. */
  datatype Summary = Summary(burned: real, fires: real) {
    function Plus(other: Summary): Summary {
      Summary(burned + other.burned, fires + other.fires)
    }
  }

  const Zero := Summary(0.0, 0.0)

  /** `Burned_Are.sum()`: zero for no rows. */
  function SumBurned(rows: seq<RegionRow>): real
    decreases |rows|
  {
    if rows == [] then 0.0 else SumBurned(rows[..|rows| - 1]) + rows[|rows| - 1].burned
  }

  /** `of_Fires.sum()`: zero for no rows. */
  function SumFires(rows: seq<RegionRow>): real
    decreases |rows|
  {
    if rows == [] then 0.0 else SumFires(rows[..|rows| - 1]) + rows[|rows| - 1].fires
  }

  /** The totals of a whole table. */
  function Totals(rows: seq<RegionRow>): Summary {
    Summary(SumBurned(rows), SumFires(rows))
  }

  /** `table['Region'] == region`: one flag per row. */
  function RegionMask(table: seq<RegionRow>, region: string): (m: seq<bool>)
    ensures |m| == |table|
    ensures forall i :: 0 <= i < |table| ==> (m[i] <==> table[i].region == region)
  {
    seq(|table|, i requires 0 <= i < |table| => table[i].region == region)
  }

  /**
   * The panel's figures for `region`: the sums over the masked rows, which
   * equal the row-by-row tally of the rows naming `region`.
   */
  function Summarize(table: seq<RegionRow>, region: string): (r: Summary)
    ensures r == Tally(table, region)
  {
    MaskedTotalsIsTally(table, region);
    Totals(Where(table, RegionMask(table, region)))
  }

  /** The contribution of one row to the totals of `region`. */
  function Contribution(row: RegionRow, region: string): Summary {
    if row.region == region then Summary(row.burned, row.fires) else Zero
  }

  /** A reference definition: the running tally of matching rows, row by row. */
  function Tally(table: seq<RegionRow>, region: string): Summary
    decreases |table|
  {
    if table == [] then Zero
    else Tally(table[..|table| - 1], region).Plus(Contribution(table[|table| - 1], region))
  }

  lemma {:induction false} TotalsAppend(a: seq<RegionRow>, b: seq<RegionRow>)
    ensures Totals(a + b) == Totals(a).Plus(Totals(b))
    decreases |b|
  {
    if b != [] {
      var n := |b| - 1;
      assert (a + b)[..|a| + n] == a + b[..n];
      assert (a + b)[|a| + n] == b[n];
      TotalsAppend(a, b[..n]);
      assert SumBurned(a + b) == SumBurned(a + b[..n]) + b[n].burned;
      assert SumFires(a + b) == SumFires(a + b[..n]) + b[n].fires;
    } else {
      assert a + b == a;
    }
  }

  /** The masked sums equal the row-by-row tally of matching rows. */
  lemma {:induction false} MaskedTotalsIsTally(table: seq<RegionRow>, region: string)
    ensures Totals(Where(table, RegionMask(table, region))) == Tally(table, region)
    decreases |table|
  {
    if table != [] {
      var n := |table| - 1;
      var init := table[..n];
      MaskedTotalsIsTally(init, region);
      var mask := RegionMask(table, region);
      assert mask[..n] == RegionMask(init, region);
      var last := if table[n].region == region then [table[n]] else [];
      assert Where(table, mask) == Where(init, RegionMask(init, region)) + last;
      TotalsAppend(Where(init, RegionMask(init, region)), last);
      assert last == [] || last[..0] == [];
    }
  }

  /** Stacking two tables adds their figures: duplicate rows of a region are summed. */
  lemma SummarizeAppend(a: seq<RegionRow>, b: seq<RegionRow>, region: string)
    ensures Summarize(a + b, region) == Summarize(a, region).Plus(Summarize(b, region))
  {
    assert RegionMask(a + b, region) == RegionMask(a, region) + RegionMask(b, region);
    WhereAppend(a, RegionMask(a, region), b, RegionMask(b, region));
    TotalsAppend(Where(a, RegionMask(a, region)), Where(b, RegionMask(b, region)));
  }

  /** A region that no row names gets zero burned area and zero fires. */
  lemma SummarizeMissing(table: seq<RegionRow>, region: string)
    requires forall i :: 0 <= i < |table| ==> table[i].region != region
    ensures Summarize(table, region) == Zero
  {
    WhereNone(table, RegionMask(table, region));
  }

  /** Appending a row adds its contribution to a region's figures. */
  lemma SummarizeSnoc(table: seq<RegionRow>, row: RegionRow, region: string)
    ensures Summarize(table + [row], region) == Summarize(table, region).Plus(Contribution(row, region))
  {
    assert (table + [row])[..|table|] == table;
  }

  /** Rows of other regions do not change a region's figures. */
  lemma {:induction false} SummarizeIgnoresOthers(table: seq<RegionRow>, region: string, row: RegionRow)
    requires row.region != region
    ensures Summarize(table + [row], region) == Summarize(table, region)
  {
    SummarizeSnoc(table, row, region);
  }

  /** A region named by one row only gets exactly that row's figures. */
  lemma SummarizeSingle(table: seq<RegionRow>, k: nat)
    requires k < |table|
    requires forall i :: 0 <= i < |table| && i != k ==> table[i].region != table[k].region
    ensures Summarize(table, table[k].region) == Summary(table[k].burned, table[k].fires)
  {
    var region := table[k].region;
    var before, after := table[..k], table[k + 1..];
    var upto := table[..k + 1];
    assert upto == before + [table[k]];
    assert table == upto + after;
    SummarizeMissing(before, region);
    assert Summarize(upto, region) == Summary(table[k].burned, table[k].fires);
    forall i | 0 <= i < |after|
      ensures after[i].region != region
    {
      assert after[i] == table[k + 1 + i];
    }
    SummarizeMissing(after, region);
    SummarizeAppend(upto, after, region);
  }

  /** The sum of the figures of every name in `names`. */
  function SummarizeEach(table: seq<RegionRow>, names: seq<string>): Summary
    decreases |names|
  {
    if names == [] then Zero
    else SummarizeEach(table, names[..|names| - 1]).Plus(Summarize(table, names[|names| - 1]))
  }

  /** The sum of the contributions of one row to every name in `names`. */
  function ContributionEach(row: RegionRow, names: seq<string>): Summary
    decreases |names|
  {
    if names == [] then Zero
    else ContributionEach(row, names[..|names| - 1]).Plus(Contribution(row, names[|names| - 1]))
  }

  lemma {:induction false} ContributionAbsent(row: RegionRow, names: seq<string>)
    requires row.region !in names
    ensures ContributionEach(row, names) == Zero
    decreases |names|
  {
    if names != [] {
      ContributionAbsent(row, names[..|names| - 1]);
    }
  }

  /** A row counts once towards a list that names its region exactly once. */
  lemma {:induction false} ContributionOnce(row: RegionRow, names: seq<string>)
    requires row.region in names
    requires Distinct(names)
    ensures ContributionEach(row, names) == Summary(row.burned, row.fires)
    decreases |names|
  {
    var n := |names| - 1;
    var init := names[..n];
    assert names == init + [names[n]];
    if names[n] == row.region {
      forall p | 0 <= p < n
        ensures init[p] != row.region
      {
        assert names[p] != names[n];
      }
      ContributionAbsent(row, init);
    } else {
      var k :| 0 <= k < |names| && names[k] == row.region;
      assert init[k] == row.region;
      assert Distinct(init) by {
        forall p, q | 0 <= p < q < |init|
          ensures init[p] != init[q]
        {
          assert names[p] != names[q];
        }
      }
      ContributionOnce(row, init);
    }
  }

  /** Adding a row to the table adds its contributions to every name's figures. */
  lemma {:induction false} SummarizeEachSnoc(table: seq<RegionRow>, row: RegionRow, names: seq<string>)
    ensures SummarizeEach(table + [row], names) == SummarizeEach(table, names).Plus(ContributionEach(row, names))
    decreases |names|
  {
    if names != [] {
      var n := |names| - 1;
      var init, last := names[..n], names[n];
      SummarizeEachSnoc(table, row, init);
      SummarizeSnoc(table, row, last);
      PlusShuffle(SummarizeEach(table, init), ContributionEach(row, init),
                  Summarize(table, last), Contribution(row, last));
    }
  }

  lemma PlusShuffle(a: Summary, b: Summary, c: Summary, d: Summary)
    ensures a.Plus(b).Plus(c.Plus(d)) == a.Plus(c).Plus(b.Plus(d))
  {
  }

  /**
   * The panels of a duplicate-free list of names covering every region of the
   * table add up to the table's totals: every row is counted in exactly one panel.
   */
  lemma {:induction false} PanelsPartitionTable(table: seq<RegionRow>, names: seq<string>)
    requires Distinct(names)
    requires forall i :: 0 <= i < |table| ==> table[i].region in names
    ensures SummarizeEach(table, names) == Totals(table)
    decreases |table|
  {
    if table == [] {
      ZeroEach(table, names);
    } else {
      var n := |table| - 1;
      var init, row := table[..n], table[n];
      assert table == init + [row];
      PanelsPartitionTable(init, names);
      SummarizeEachSnoc(init, row, names);
      ContributionOnce(row, names);
    }
  }

  /** Every name's figures over an empty table are zero. */
  lemma {:induction false} ZeroEach(table: seq<RegionRow>, names: seq<string>)
    requires table == []
    ensures SummarizeEach(table, names) == Zero
    decreases |names|
  {
    if names != [] {
      ZeroEach(table, names[..|names| - 1]);
      SummarizeMissing(table, names[|names| - 1]);
    }
  }

  /** A two-region table: each region's panel shows its own row. */
  lemma SummarizeExample()
    ensures Summarize([RegionRow("Alentejo", 100.0, 5.0), RegionRow("Algarve", 50.0, 2.0)], "Alentejo")
         == Summary(100.0, 5.0)
    ensures Summarize([RegionRow("Alentejo", 100.0, 5.0), RegionRow("Algarve", 50.0, 2.0)], "Nonexistent")
         == Zero
  {
    var table := [RegionRow("Alentejo", 100.0, 5.0), RegionRow("Algarve", 50.0, 2.0)];
    assert table[0].region != table[1].region;
    SummarizeSingle(table, 0);
    assert forall i :: 0 <= i < |table| ==> table[i].region != "Nonexistent";
    SummarizeMissing(table, "Nonexistent");
  }
}
