/** `group_by_date` (import.py:61-67): `itertools.groupby` on the `Date` key splits the rows
    into maximal runs of consecutive rows sharing a date; each run is yielded with its date as
    a list of its own. */
module Grouping {
  import opened DateOrder
  import opened Rows
  import opened Sorting

  /** One `(date, list(rows))` pair the generator yields. */
  datatype Group = Group(date: string, rows: seq<Row>)

  /** The groups' rows laid end to end. */
  function Flatten(groups: seq<Group>): seq<Row>
    decreases |groups|
  {
    if groups == [] then [] else Flatten(groups[..|groups| - 1]) + groups[|groups| - 1].rows
  }

  /** The dates of the groups, in order. */
  function GroupDates(groups: seq<Group>): (ds: seq<string>)
    ensures |ds| == |groups| && forall k :: 0 <= k < |groups| ==> ds[k] == groups[k].date
  {
    seq(|groups|, k requires 0 <= k < |groups| => groups[k].date)
  }

  /** Each group is a non-empty run of its own date, and neighbouring groups have different
      dates (the runs are maximal). */
  predicate Runs(groups: seq<Group>) {
    (forall k :: 0 <= k < |groups| ==> groups[k].rows != [] && SameDate(groups[k].rows, groups[k].date)) &&
    (forall k :: 0 < k < |groups| ==> groups[k - 1].date != groups[k].date)
  }

  /** What `groupby` promises: the groups are maximal runs and concatenate to the input. */
  predicate IsGrouping(s: seq<Row>, groups: seq<Group>) {
    Flatten(groups) == s && Runs(groups)
  }

  /** The groups yielded so far followed by the run `groupby` is still building, if any. */
  function Pending(groups: seq<Group>, current: seq<Row>, key: string): seq<Group> {
    if current == [] then groups else groups + [Group(key, current)]
  }

  /** A row carrying the date of the open run extends that run. */
  lemma {:induction false} ExtendRun(s: seq<Row>, groups: seq<Group>, current: seq<Row>, key: string, row: Row)
    requires IsGrouping(s, groups + [Group(key, current)]) && row.date == key
    ensures IsGrouping(s + [row], groups + [Group(key, current + [row])])
  {
    var before := groups + [Group(key, current)];
    var after := groups + [Group(key, current + [row])];
    assert before[..|groups|] == groups && after[..|groups|] == groups;
    assert before[|groups|] == Group(key, current);
    forall k | 0 <= k < |after| ensures after[k].rows != [] && SameDate(after[k].rows, after[k].date) {
      if k < |groups| {
        assert after[k] == before[k];
      }
    }
    forall k | 0 < k < |after| ensures after[k - 1].date != after[k].date {
      assert after[k - 1].date == before[k - 1].date && after[k].date == before[k].date;
    }
  }

  /** A row carrying another date than the last group opens a new run. */
  lemma {:induction false} OpenRun(s: seq<Row>, groups: seq<Group>, row: Row)
    requires IsGrouping(s, groups)
    requires groups != [] ==> groups[|groups| - 1].date != row.date
    ensures IsGrouping(s + [row], groups + [Group(row.date, [row])])
  {
    var after := groups + [Group(row.date, [row])];
    assert after[..|groups|] == groups;
    forall k | 0 <= k < |after| ensures after[k].rows != [] && SameDate(after[k].rows, after[k].date) {
      if k < |groups| {
        assert after[k] == groups[k];
      }
    }
    forall k | 0 < k < |after| ensures after[k - 1].date != after[k].date {
      if k < |groups| {
        assert after[k - 1] == groups[k - 1] && after[k] == groups[k];
      }
    }
  }

  /** The generator of lines 61-67, consumed to the end. `current` is the run `groupby` is
      building, `key` its date. */
  method GroupByDate(sortedRows: seq<Row>) returns (groups: seq<Group>)
    ensures IsGrouping(sortedRows, groups)
  {
    groups := [];
    var current: seq<Row> := [];
    var key: string := "";
    for i := 0 to |sortedRows|
      invariant IsGrouping(sortedRows[..i], Pending(groups, current, key))
      invariant current == [] ==> groups == []
    {
      var row := sortedRows[i];
      assert sortedRows[..i + 1] == sortedRows[..i] + [row];
      if current != [] && row.date == key {
        ExtendRun(sortedRows[..i], groups, current, key, row);
        current := current + [row];
      } else {
        OpenRun(sortedRows[..i], Pending(groups, current, key), row);
        groups := Pending(groups, current, key);
        current := [row];
        key := row.date;
      }
    }
    assert sortedRows[..|sortedRows|] == sortedRows;
    groups := Pending(groups, current, key);
  }

  /** Dropping the last group leaves a grouping of the rows before it. */
  lemma {:induction false} GroupingPrefix(s: seq<Row>, groups: seq<Group>)
    requires IsGrouping(s, groups) && groups != []
    ensures IsGrouping(Flatten(groups[..|groups| - 1]), groups[..|groups| - 1])
    ensures s == Flatten(groups[..|groups| - 1]) + groups[|groups| - 1].rows
  {
  }

  /** The last row of a grouping carries the last group's date. */
  lemma {:induction false} LastRowDate(s: seq<Row>, groups: seq<Group>)
    requires IsGrouping(s, groups) && groups != []
    ensures s != [] && Last(s).date == groups[|groups| - 1].date
  {
    var g := groups[|groups| - 1];
    GroupingPrefix(s, groups);
    assert Last(s) == g.rows[|g.rows| - 1];
  }

  /** The row just before the last run carries another date than the run. */
  lemma {:induction false} RowBeforeLastRun(s: seq<Row>, groups: seq<Group>)
    requires IsGrouping(s, groups) && |groups| >= 2
    ensures var t := Flatten(groups[..|groups| - 1]);
            0 < |t| <= |s| && s[|t| - 1].date != groups[|groups| - 1].date
  {
    var n := |groups|;
    var init := groups[..n - 1];
    var t := Flatten(init);
    GroupingPrefix(s, groups);
    LastRowDate(t, init);
    assert init[n - 2] == groups[n - 2];
    assert s[|t| - 1] == Last(t);
  }

  /** Every row of the last run carries the run's date. */
  lemma {:induction false} LastRunRows(s: seq<Row>, groups: seq<Group>)
    requires IsGrouping(s, groups) && groups != []
    ensures var t := Flatten(groups[..|groups| - 1]);
            |t| <= |s| && forall j :: |t| <= j < |s| ==> s[j].date == groups[|groups| - 1].date
  {
    var n := |groups|;
    var t := Flatten(groups[..n - 1]);
    GroupingPrefix(s, groups);
    forall j | |t| <= j < |s| ensures s[j].date == groups[n - 1].date {
      assert s[j] == groups[n - 1].rows[j - |t|];
    }
  }

  /** The last run of one grouping is at least as long as the last run of another grouping of
      the same rows. */
  lemma {:induction false} LastRunNotShorter(s: seq<Row>, g1: seq<Group>, g2: seq<Group>)
    requires IsGrouping(s, g1) && IsGrouping(s, g2) && g1 != [] && g2 != []
    ensures |g2[|g2| - 1].rows| <= |g1[|g1| - 1].rows|
  {
    var n1, n2 := |g1|, |g2|;
    var t1, t2 := Flatten(g1[..n1 - 1]), Flatten(g2[..n2 - 1]);
    GroupingPrefix(s, g1);
    GroupingPrefix(s, g2);
    LastRowDate(s, g1);
    LastRowDate(s, g2);
    if n1 >= 2 {
      RowBeforeLastRun(s, g1);
      LastRunRows(s, g2);
      assert |t1| - 1 < |t2|;
    } else {
      assert g1[..n1 - 1] == [];
    }
  }

  /** `groupby`'s output is determined by its input: two groupings of the same rows agree. */
  lemma {:induction false} GroupingUnique(s: seq<Row>, g1: seq<Group>, g2: seq<Group>)
    requires IsGrouping(s, g1) && IsGrouping(s, g2)
    ensures g1 == g2
    decreases |s|
  {
    if g1 != [] && g2 != [] {
      var n1, n2 := |g1|, |g2|;
      var a, b := g1[n1 - 1], g2[n2 - 1];
      GroupingPrefix(s, g1);
      GroupingPrefix(s, g2);
      LastRowDate(s, g1);
      LastRowDate(s, g2);
      LastRunNotShorter(s, g1, g2);
      LastRunNotShorter(s, g2, g1);
      var t1, t2 := Flatten(g1[..n1 - 1]), Flatten(g2[..n2 - 1]);
      assert t1 == s[..|t1|] && t2 == s[..|t2|];
      assert a.rows == s[|t1|..] && b.rows == s[|t2|..];
      GroupingUnique(t1, g1[..n1 - 1], g2[..n2 - 1]);
      assert g1 == g1[..n1 - 1] + [a] && g2 == g2[..n2 - 1] + [b];
    } else if g1 != [] {
      LastRowDate(s, g1);
    } else if g2 != [] {
      LastRowDate(s, g2);
    }
  }

  /** A prefix of sorted rows is sorted. */
  lemma {:induction false} SortedPrefix(s: seq<Row>, t: seq<Row>)
    requires SortedByDate(s) && t <= s
    ensures SortedByDate(t)
  {
    forall i, j | 0 <= i < j < |t| ensures LexLe(t[i].date, t[j].date) {
      assert t[i] == s[i] && t[j] == s[j];
    }
  }

  /** Every row of a grouping carries the date of one of the groups. */
  lemma {:induction false} GroupingDates(s: seq<Row>, groups: seq<Group>)
    requires IsGrouping(s, groups)
    ensures forall i :: 0 <= i < |s| ==> exists k :: 0 <= k < |groups| && s[i].date == groups[k].date
    decreases |groups|
  {
    if groups != [] {
      var n := |groups|;
      var t := Flatten(groups[..n - 1]);
      GroupingPrefix(s, groups);
      GroupingDates(t, groups[..n - 1]);
      forall i | 0 <= i < |s| ensures exists k :: 0 <= k < n && s[i].date == groups[k].date {
        if i < |t| {
          assert s[i] == t[i];
          var k :| 0 <= k < n - 1 && t[i].date == groups[..n - 1][k].date;
          assert s[i].date == groups[k].date;
        } else {
          assert s[i] == groups[n - 1].rows[i - |t|];
        }
      }
    }
  }

  /** On sorted rows, the last group's date is above the one before it. */
  lemma {:induction false} LastStep(s: seq<Row>, groups: seq<Group>)
    requires SortedByDate(s) && IsGrouping(s, groups) && |groups| > 1
    ensures LexLt(groups[|groups| - 2].date, groups[|groups| - 1].date)
  {
    var n := |groups|;
    var init := groups[..n - 1];
    var t := Flatten(init);
    var prev := groups[n - 2];
    var last := groups[n - 1];
    GroupingPrefix(s, groups);
    GroupingPrefix(t, init);
    assert init[n - 2] == prev;
    assert s[|t| - 1] == prev.rows[|prev.rows| - 1];
    assert s[|t|] == last.rows[0];
    assert LexLe(s[|t| - 1].date, s[|t|].date);
  }

  /** On sorted rows, the group dates strictly ascend. */
  lemma {:induction false} GroupsAscending(s: seq<Row>, groups: seq<Group>)
    requires SortedByDate(s) && IsGrouping(s, groups)
    ensures forall k, l :: 0 <= k < l < |groups| ==> LexLt(groups[k].date, groups[l].date)
    decreases |groups|
  {
    if |groups| > 1 {
      var n := |groups|;
      var init := groups[..n - 1];
      var t := Flatten(init);
      GroupingPrefix(s, groups);
      SortedPrefix(s, t);
      GroupsAscending(t, init);
      LastStep(s, groups);
      forall k, l | 0 <= k < l < n ensures LexLt(groups[k].date, groups[l].date) {
        if l < n - 1 {
          assert init[k] == groups[k] && init[l] == groups[l];
        } else if k < n - 2 {
          assert init[k] == groups[k] && init[n - 2] == groups[n - 2];
          LexLeLt(groups[k].date, groups[n - 2].date, groups[n - 1].date);
        }
      }
    }
  }

  /** On sorted rows, the rows before the last group never carry its date. */
  lemma {:induction false} LastDateFresh(s: seq<Row>, groups: seq<Group>)
    requires SortedByDate(s) && IsGrouping(s, groups) && groups != []
    ensures groups[|groups| - 1].date !in Dates(Flatten(groups[..|groups| - 1]))
  {
    var n := |groups|;
    var init := groups[..n - 1];
    var t := Flatten(init);
    var d := groups[n - 1].date;
    GroupingPrefix(s, groups);
    GroupsAscending(s, groups);
    GroupingDates(t, init);
    forall i | 0 <= i < |t| ensures t[i].date != d {
      var k :| 0 <= k < n - 1 && t[i].date == init[k].date;
      assert LexLt(groups[k].date, d);
    }
  }

  /** A run of date `d` appended after rows that never carry `d` adds `d` as a new distinct date. */
  lemma {:induction false} DistinctDatesAppendRun(a: seq<Row>, b: seq<Row>, d: string)
    requires b != [] && SameDate(b, d) && d !in Dates(a)
    ensures DistinctDates(a + b) == DistinctDates(a) + [d]
    decreases |b|
  {
    var p := b[..|b| - 1];
    assert (a + b)[..|a + b| - 1] == a + p;
    DistinctDatesMembers(a + p);
    if p == [] {
      assert a + p == a;
    } else {
      DistinctDatesAppendRun(a, p, d);
    }
  }

  /** Filtering rows followed by a run of date `e`. */
  lemma {:induction false} FilterRun(t: seq<Row>, run: seq<Row>, e: string, d: string)
    requires SameDate(run, e)
    ensures Filter(t + run, d) == Filter(t, d) + (if d == e then run else [])
  {
    FilterAppend(t, run, d);
    FilterSameDate(run, e, d);
  }

  /** On sorted rows, group `k` holds every row of its date. */
  lemma {:induction false} GroupsFilter(s: seq<Row>, groups: seq<Group>)
    requires SortedByDate(s) && IsGrouping(s, groups)
    ensures forall k :: 0 <= k < |groups| ==> Filter(s, groups[k].date) == groups[k].rows
    decreases |groups|
  {
    if groups != [] {
      var n := |groups|;
      var init := groups[..n - 1];
      var last := groups[n - 1];
      var t := Flatten(init);
      GroupingPrefix(s, groups);
      SortedPrefix(s, t);
      GroupsFilter(t, init);
      LastDateFresh(s, groups);
      FilterNonEmpty(t, last.date);
      forall k | 0 <= k < n ensures Filter(s, groups[k].date) == groups[k].rows {
        if k < n - 1 {
          assert init[k] == groups[k];
        }
        FilterGroupAt(t, groups, k);
      }
    }
  }

  /** Group `k` keeps its rows when the last group's run, of a date absent before it, is
      appended to the rows of the groups before it. */
  lemma {:induction false} FilterGroupAt(t: seq<Row>, groups: seq<Group>, k: nat)
    requires k < |groups|
    requires SameDate(groups[|groups| - 1].rows, groups[|groups| - 1].date)
    requires Filter(t, groups[|groups| - 1].date) == []
    requires k < |groups| - 1 ==> groups[k].rows != [] && Filter(t, groups[k].date) == groups[k].rows
    ensures Filter(t + groups[|groups| - 1].rows, groups[k].date) == groups[k].rows
  {
    var last := groups[|groups| - 1];
    FilterRun(t, last.rows, last.date, groups[k].date);
  }

  /** On sorted rows, the group dates are the distinct dates of the rows. */
  lemma {:induction false} GroupsDistinct(s: seq<Row>, groups: seq<Group>)
    requires SortedByDate(s) && IsGrouping(s, groups)
    ensures GroupDates(groups) == DistinctDates(s)
    decreases |groups|
  {
    if groups != [] {
      var n := |groups|;
      var init := groups[..n - 1];
      var last := groups[n - 1];
      var t := Flatten(init);
      GroupingPrefix(s, groups);
      SortedPrefix(s, t);
      GroupsDistinct(t, init);
      LastDateFresh(s, groups);
      DistinctDatesAppendRun(t, last.rows, last.date);
      assert GroupDates(groups) == GroupDates(init) + [last.date];
    }
  }

  /** On rows sorted by date, the groups come in strictly ascending date order, group `k`
      holds every row of its date, and the group dates are the input's distinct dates. */
  lemma {:induction false} GroupsOfSorted(s: seq<Row>, groups: seq<Group>)
    requires SortedByDate(s) && IsGrouping(s, groups)
    ensures forall k, l :: 0 <= k < l < |groups| ==> LexLt(groups[k].date, groups[l].date)
    ensures forall k :: 0 <= k < |groups| ==> Filter(s, groups[k].date) == groups[k].rows
    ensures GroupDates(groups) == DistinctDates(s)
  {
    GroupsAscending(s, groups);
    GroupsFilter(s, groups);
    GroupsDistinct(s, groups);
  }
}
