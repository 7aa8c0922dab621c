/**
 * The two sidebar region selectors: build the list of regions offered by a
 * select box, sort it in place, and pick the entry selected by default.
 */
module RegionSelector {
  import opened Tables
  import opened Strings
  import opened RegionSummary

  /** The `Region` column. */
  function Regions(table: seq<RegionRow>): (names: seq<string>)
    ensures |names| == |table|
    ensures forall i :: 0 <= i < |table| ==> names[i] == table[i].region
  {
    seq(|table|, i requires 0 <= i < |table| => table[i].region)
  }

  /** `Series.unique()`: each value of the column exactly once. */
  function Unique(s: seq<string>): (u: seq<string>)
    ensures Distinct(u)
    ensures forall x :: x in u <==> x in s
    decreases |s|
  {
    if s == [] then []
    else
      var n := |s| - 1;
      var seen := Unique(s[..n]);
      assert s == s[..n] + [s[n]];
      if s[n] in seen then seen else seen + [s[n]]
  }

  /** `list.index(x)`: the first position holding `x`. */
  function IndexOf(s: seq<string>, x: string): (k: nat)
    requires x in s
    ensures k < |s| && s[k] == x
    ensures forall j :: 0 <= j < k ==> s[j] != x
  {
    if s[0] == x then 0 else 1 + IndexOf(s[1..], x)
  }

  /** A sequence is duplicate-free exactly when no value occurs in it twice. */
  lemma {:induction false} DistinctMultiset(s: seq<string>)
    ensures Distinct(s) <==> forall x :: multiset(s)[x] <= 1
    decreases |s|
  {
    if s != [] {
      var n := |s| - 1;
      var init := s[..n];
      assert s == init + [s[n]];
      DistinctMultiset(init);
      if Distinct(s) {
        assert Distinct(init);
        assert s[n] !in init by {
          forall p | 0 <= p < n
            ensures init[p] != s[n]
          {
            assert s[p] != s[n];
          }
        }
        forall x
          ensures multiset(s)[x] <= 1
        {
          assert multiset(s) == multiset(init) + multiset{s[n]};
        }
      } else {
        var p, q :| 0 <= p < q < |s| && s[p] == s[q];
        assert multiset(s)[s[p]] >= 2 by {
          assert s == s[..p] + [s[p]] + s[p + 1..q] + [s[q]] + s[q + 1..];
        }
      }
    }
  }

  /** Copy a list into a fresh array (`list(...)`). */
  method ToArray(s: seq<string>) returns (a: array<string>)
    ensures fresh(a) && a[..] == s
  {
    a := new string[|s|](i requires 0 <= i < |s| => s[i]);
  }

  /**
   * `display_state_filter`: the choices are `''` followed by the regions,
   * sorted; the default is the position of `stateName` when that is a
   * non-empty name on the list, and position 0, which holds `''`, otherwise.
   */
  method DisplayStateFilter(table: seq<RegionRow>, stateName: string)
    returns (stateList: seq<string>, stateIndex: nat)
    ensures multiset(stateList) == multiset([""] + Unique(Regions(table)))
    ensures Sorted(stateList)
    ensures |stateList| > 0 && stateList[0] == ""
    ensures stateIndex < |stateList|
    ensures stateName != "" && stateName in Regions(table) ==>
              stateList[stateIndex] == stateName && forall j :: 0 <= j < stateIndex ==> stateList[j] != stateName
    ensures !(stateName != "" && stateName in Regions(table)) ==> stateIndex == 0
    ensures Distinct(stateList) <==> "" !in Regions(table)
  {
    var choices := [""] + Unique(Regions(table));
    var a := ToArray(choices);
    Sort(a);
    stateList := a[..];
    assert "" in multiset(stateList);
    var k :| 0 <= k < |stateList| && stateList[k] == "";
    assert k > 0 ==> StrLe(stateList[0], stateList[k]);
    DistinctMultiset(stateList);
    DistinctMultiset(choices);
    DistinctMultiset(Unique(Regions(table)));
    if "" in Regions(table) {
      assert multiset(choices)[""] == 2;
    } else {
      forall x
        ensures multiset(choices)[x] <= 1
      {
        assert multiset(choices) == multiset{""} + multiset(Unique(Regions(table)));
      }
    }
    assert stateName in stateList <==> stateName in multiset(choices);
    assert stateName in choices <==> stateName == "" || stateName in Unique(Regions(table));
    if stateName != "" && stateName in stateList {
      stateIndex := IndexOf(stateList, stateName);
    } else {
      stateIndex := 0;
    }
  }

  /**
   * `display_fire_filters`: the choices are the regions, sorted, and the
   * select box starts on the last one. `pick` is the position the user chose
   * in the select box, if any; the panel shows the totals of the selected
   * region, and zero when the table offers no region to select.
   */
  method DisplayFireFilters(table: seq<RegionRow>, pick: Option<nat>)
    returns (stateList: seq<string>, selected: Option<string>, panel: Summary)
    requires pick.Some? ==> pick.value < |Unique(Regions(table))|
    ensures |stateList| == |Unique(Regions(table))|
    ensures Sorted(stateList) && Distinct(stateList)
    ensures forall x :: x in stateList <==> x in Regions(table)
    ensures pick.Some? ==> selected == Some(stateList[pick.value])
    ensures pick.None? && table != [] ==>
              |stateList| > 0 && selected == Some(stateList[|stateList| - 1]) &&
              forall i :: 0 <= i < |table| ==> StrLe(table[i].region, selected.value)
    ensures table == [] ==> selected == None && panel == Zero
    ensures selected.Some? ==> selected.value in Regions(table) && panel == Summarize(table, selected.value)
  {
    var choices := Unique(Regions(table));
    var a := ToArray(choices);
    Sort(a);
    stateList := a[..];
    DistinctMultiset(stateList);
    DistinctMultiset(choices);
    assert forall x :: x in stateList <==> x in multiset(choices);
    if pick.Some? {
      selected := Some(stateList[pick.value]);
    } else if |stateList| > 0 {
      var last := |stateList| - 1;
      selected := Some(stateList[last]);
      forall i | 0 <= i < |table|
        ensures StrLe(table[i].region, stateList[last])
      {
        assert Regions(table)[i] == table[i].region;
        assert table[i].region in choices;
        assert table[i].region in multiset(stateList);
        var k :| 0 <= k < |stateList| && stateList[k] == table[i].region;
        if k == last {
          StrLeReflexive(stateList[last]);
        }
      }
    } else {
      selected := None;
    }
    if selected.Some? {
      panel := Summarize(table, selected.value);
    } else {
      panel := Zero;
    }
    if table == [] {
      assert Regions(table) == [];
    } else {
      assert table[0].region in Regions(table);
    }
  }

  /**
   * The panels of all the regions the fire selector offers add up to the
   * totals of the whole table: every row is shown under exactly one choice.
   */
  lemma PanelsCoverTable(table: seq<RegionRow>)
    ensures SummarizeEach(table, Unique(Regions(table))) == Totals(table)
  {
    var names := Unique(Regions(table));
    forall i | 0 <= i < |table|
      ensures table[i].region in names
    {
      assert Regions(table)[i] == table[i].region;
    }
    PanelsPartitionTable(table, names);
  }
}
