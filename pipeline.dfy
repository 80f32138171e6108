/** The aggregation core of `read_file` (import.py:70-84): skip the first data row, sort the
    rest by date, group them by date, run `add_hours_for_day` on every group and collect what
    it yields. Each call of `add_hours_for_day` starts its totals from zero, so every date gets
    the totals of its own rows only. */
module Pipeline {
  import opened Results
  import opened DateOrder
  import opened Rows
  import opened DailyTotals
  import opened Sorting
  import opened Grouping

  /** The row kept for one day: the day's last row, carrying 3600 times the day's hours and
      the day's cost. */
  function DayTotal(day: seq<Row>): Row
    requires day != []
  {
    WithTotals(Last(day), HoursSum(day) * 3600.0, CostSum(day))
  }

  /** The day total of date `d` over the data rows. */
  function DayOf(data: seq<Row>, d: string): Row
    requires d in Dates(data)
  {
    FilterNonEmpty(data, d);
    DayTotal(Filter(data, d))
  }

  /** What lines 77-84 collect from the data rows `data`: one row per distinct date, in
      ascending date order, each the day total of that date's rows (see DailyEntriesMeaning). */
  function DailyEntries(data: seq<Row>): seq<Row> {
    var ds := DistinctDates(SortByDate(data));
    DistinctDatesMembers(SortByDate(data));
    SortByDateDates(data);
    seq(|ds|, k requires 0 <= k < |ds| => DayOf(data, ds[k]))
  }

  /** Dates of sorted rows, taken at their first occurrence, strictly ascend. */
  lemma {:induction false} DistinctDatesSorted(s: seq<Row>)
    requires SortedByDate(s)
    ensures forall k, l :: 0 <= k < l < |DistinctDates(s)| ==> LexLt(DistinctDates(s)[k], DistinctDates(s)[l])
    decreases |s|
  {
    if s != [] {
      var p := s[..|s| - 1];
      var x := Last(s);
      SortedPrefix(s, p);
      DistinctDatesSorted(p);
      if x.date !in DistinctDates(p) {
        DistinctDatesMembers(p);
        forall k | 0 <= k < |DistinctDates(p)| ensures LexLt(DistinctDates(p)[k], x.date) {
          var d := DistinctDates(p)[k];
          assert d in Dates(p);
          var r :| r in p && r.date == d;
          var i :| 0 <= i < |p| && p[i] == r;
          assert s[i] == r && s[|s| - 1] == x;
        }
      }
    }
  }

  lemma DailyEntriesLength(data: seq<Row>)
    ensures |DailyEntries(data)| == |DistinctDates(SortByDate(data))|
  {
  }

  /** Entry `k` is the day total of the `k`-th distinct date of the sorted rows. */
  lemma {:induction false} DailyEntriesAt(data: seq<Row>, k: nat)
    requires k < |DistinctDates(SortByDate(data))|
    ensures |DailyEntries(data)| == |DistinctDates(SortByDate(data))|
    ensures var d := DistinctDates(SortByDate(data))[k];
            d in Dates(data) && Filter(data, d) != [] &&
            DailyEntries(data)[k] == DayTotal(Filter(data, d)) && DailyEntries(data)[k].date == d
  {
    var d := DistinctDates(SortByDate(data))[k];
    DistinctDatesMembers(SortByDate(data));
    SortByDateDates(data);
    FilterNonEmpty(data, d);
    FilterDate(data, d);
    assert Last(Filter(data, d)).date == d;
  }

  /** `read_file` keeps one row per distinct date of the data rows, in strictly ascending date
      order, and the row for date `d` is the last data row of `d` (in file order) carrying
      3600 times the hours of all data rows of `d` and their summed cost. */
  lemma {:induction false} DailyEntriesMeaning(data: seq<Row>)
    ensures forall d :: d in Dates(data) <==> exists k :: 0 <= k < |DailyEntries(data)| && DailyEntries(data)[k].date == d
    ensures forall k, l :: 0 <= k < l < |DailyEntries(data)| ==>
              LexLt(DailyEntries(data)[k].date, DailyEntries(data)[l].date)
    ensures forall k :: 0 <= k < |DailyEntries(data)| ==>
              Filter(data, DailyEntries(data)[k].date) != [] &&
              DailyEntries(data)[k] == DayTotal(Filter(data, DailyEntries(data)[k].date))
  {
    var s := SortByDate(data);
    var ds := DistinctDates(s);
    var e := DailyEntries(data);
    assert |e| == |ds|;
    forall k | 0 <= k < |e| ensures e[k].date == ds[k] && ds[k] in Dates(data) && Filter(data, e[k].date) != [] &&
                                     e[k] == DayTotal(Filter(data, e[k].date)) {
      DailyEntriesAt(data, k);
    }
    DistinctDatesMembers(s);
    SortByDateDates(data);
    forall d | d in Dates(data) ensures exists k :: 0 <= k < |e| && e[k].date == d {
      assert d in ds;
      var k :| 0 <= k < |ds| && ds[k] == d;
      assert e[k].date == d;
    }
    SortByDateSorted(data);
    DistinctDatesSorted(s);
    forall k, l | 0 <= k < l < |e| ensures LexLt(e[k].date, e[l].date) {
      assert e[k].date == ds[k] && e[l].date == ds[l];
    }
  }

  /** Two strictly ascending sequences of dates with the same members are equal. */
  lemma {:induction false} AscendingUnique(xs: seq<string>, ys: seq<string>)
    requires forall k, l :: 0 <= k < l < |xs| ==> LexLt(xs[k], xs[l])
    requires forall k, l :: 0 <= k < l < |ys| ==> LexLt(ys[k], ys[l])
    requires forall d :: d in xs <==> d in ys
    ensures xs == ys
    decreases |xs|
  {
    if xs != [] {
      assert xs[|xs| - 1] in ys;
    }
    if ys != [] {
      assert ys[|ys| - 1] in xs;
    }
    if xs != [] {
      var x, y := xs[|xs| - 1], ys[|ys| - 1];
      var xs', ys' := xs[..|xs| - 1], ys[..|ys| - 1];
      forall j | 0 <= j < |ys| ensures LexLe(ys[j], y) {
        if j == |ys| - 1 {
          LexLeRefl(y);
        }
      }
      forall j | 0 <= j < |xs| ensures LexLe(xs[j], x) {
        if j == |xs| - 1 {
          LexLeRefl(x);
        }
      }
      LexLeAntisym(x, y);
      forall d ensures d in xs' <==> d in ys' {
        if d in xs' {
          var k :| 0 <= k < |xs'| && xs'[k] == d;
          assert xs[k] == d && LexLt(d, x) && d in xs;
          var j :| 0 <= j < |ys| && ys[j] == d;
          assert j < |ys| - 1 && ys'[j] == d;
        }
        if d in ys' {
          var k :| 0 <= k < |ys'| && ys'[k] == d;
          assert ys[k] == d && LexLt(d, y) && d in ys;
          var j :| 0 <= j < |xs| && xs[j] == d;
          assert j < |xs| - 1 && xs'[j] == d;
        }
      }
      AscendingUnique(xs', ys');
      assert xs == xs' + [x] && ys == ys' + [y];
    }
  }

  /** Rearranging the data rows changes no entry's date or totals: the entries of any
      permutation of the rows carry the same dates, in the same order, with the same
      `Total Hours` and `Total Cost Amount`. Only the other columns of an entry, which are
      those of its date's last row, depend on the order of the rows. */
  lemma DailyEntriesPermutation(a: seq<Row>, b: seq<Row>)
    requires multiset(a) == multiset(b)
    ensures |DailyEntries(a)| == |DailyEntries(b)|
    ensures forall k :: 0 <= k < |DailyEntries(a)| ==>
              DailyEntries(a)[k].date == DailyEntries(b)[k].date &&
              DailyEntries(a)[k].totalHours == DailyEntries(b)[k].totalHours &&
              DailyEntries(a)[k].totalCost == DailyEntries(b)[k].totalCost
  {
    var sa, sb := SortByDate(a), SortByDate(b);
    DatesPerm(a, b);
    SortByDateDates(a);
    SortByDateDates(b);
    DistinctDatesMembers(sa);
    DistinctDatesMembers(sb);
    SortByDateSorted(a);
    SortByDateSorted(b);
    DistinctDatesSorted(sa);
    DistinctDatesSorted(sb);
    AscendingUnique(DistinctDates(sa), DistinctDates(sb));
    DailyEntriesLength(a);
    DailyEntriesLength(b);
    forall k | 0 <= k < |DailyEntries(a)|
      ensures DailyEntries(a)[k].date == DailyEntries(b)[k].date &&
              DailyEntries(a)[k].totalHours == DailyEntries(b)[k].totalHours &&
              DailyEntries(a)[k].totalCost == DailyEntries(b)[k].totalCost
    {
      DailyEntriesAt(a, k);
      DailyEntriesAt(b, k);
      var d := DistinctDates(sa)[k];
      FilterPerm(a, b, d);
      SumsPerm(Filter(a, d), Filter(b, d));
    }
  }

  /** On the grouping of the sorted data rows, group `k` yields entry `k`. */
  lemma {:induction false} EntriesOfGroups(data: seq<Row>, s: seq<Row>, groups: seq<Group>)
    requires s == SortByDate(data) && IsGrouping(s, groups)
    ensures |groups| == |DailyEntries(data)|
    ensures forall k :: 0 <= k < |groups| ==> groups[k].rows != [] && DailyEntries(data)[k] == DayTotal(groups[k].rows)
  {
    SortByDateSorted(data);
    GroupsOfSorted(s, groups);
    forall k | 0 <= k < |groups| ensures groups[k].rows != [] && DailyEntries(data)[k] == DayTotal(groups[k].rows) {
      SortByDateStable(data, groups[k].date);
      assert GroupDates(groups)[k] == groups[k].date;
    }
  }

  /** `add_hours_for_day` on one group yields just that group's day total. */
  lemma {:induction false} OneDay(g: seq<Row>, d: string, out: seq<Row>)
    requires g != [] && SameDate(g, d) && LastPerDate(g, Stamped(g), out)
    ensures out == [DayTotal(g)]
  {
    var t := Stamped(g);
    DistinctDatesSameDate(g, d);
    assert SameDate(t, d) by {
      forall i | 0 <= i < |t| ensures t[i].date == d {
        assert t[i].date == g[i].date;
      }
    }
    FilterSameDate(t, d, d);
    StampedAt(g, |g| - 1);
    assert g[..|g|] == g;
  }

  /** `add_hours_for_day(rows)` on the list `list(rows)` that line 67 builds for one group:
      a group of one date yields exactly one row, the day total. */
  method AddHoursForGroup(group: Group) returns (updated: seq<Row>)
    requires group.rows != [] && SameDate(group.rows, group.date)
    ensures updated == [DayTotal(group.rows)]
  {
    var rows := group.rows;
    var a := new Row[|rows|](j requires 0 <= j < |rows| => rows[j]);
    assert a[..] == rows;
    updated := AddHoursForDay(a);
    OneDay(rows, group.date, updated);
  }

  /** Lines 83-84 for one group: every row `add_hours_for_day` yields is appended. */
  method CollectGroup(modifiedData: seq<Row>, group: Group) returns (extended: seq<Row>)
    requires group.rows != [] && SameDate(group.rows, group.date)
    ensures extended == modifiedData + [DayTotal(group.rows)]
  {
    var updated := AddHoursForGroup(group);
    extended := modifiedData;
    for m := 0 to |updated|
      invariant extended == modifiedData + updated[..m]
    {
      extended := extended + [updated[m]];
    }
  }

  /** Lines 82-84: every group's yielded rows are appended, group after group. */
  method CollectGroups(groups: seq<Group>) returns (modifiedData: seq<Row>)
    requires forall k :: 0 <= k < |groups| ==> groups[k].rows != [] && SameDate(groups[k].rows, groups[k].date)
    ensures |modifiedData| == |groups|
    ensures forall k :: 0 <= k < |groups| ==> modifiedData[k] == DayTotal(groups[k].rows)
  {
    modifiedData := [];
    for k := 0 to |groups|
      invariant |modifiedData| == k
      invariant forall j :: 0 <= j < k ==> modifiedData[j] == DayTotal(groups[j].rows)
    {
      modifiedData := CollectGroup(modifiedData, groups[k]);
    }
  }

  /** Lines 77-84 on the rows `csv.DictReader` produces: `next(reader)` drops the first data
      row (and fails when there is none), then the rest is sorted, grouped and aggregated. */
  method ReadRows(reader: seq<Row>) returns (r: Result<seq<Row>>)
    ensures reader == [] ==> r == Failure(NoDataRow)
    ensures reader != [] ==> r == Success(DailyEntries(reader[1..]))
  {
    if reader == [] {
      return Failure(NoDataRow);
    }
    var data := reader[1..];
    var sortedRows := SortByDate(data);
    var groups := GroupByDate(sortedRows);
    EntriesOfGroups(data, sortedRows, groups);
    assert forall k :: 0 <= k < |groups| ==> SameDate(groups[k].rows, groups[k].date);
    var modifiedData := CollectGroups(groups);
    assert modifiedData == DailyEntries(data);
    return Success(modifiedData);
  }
}
