/** A parsed timesheet row and the sequence functions the properties of the core are stated with. */
module Rows {
  import opened Results

  /** One `csv.DictReader` row: the `Date`, `Hours` and `Cost Amount` columns the core reads,
      the `Total Hours` and `Total Cost Amount` keys it writes (absent until written), and
      every other column, which the core never touches. */
  datatype Row = Row(date: string, hours: real, cost: real,
                     totalHours: Option<real>, totalCost: Option<real>,
                     others: map<string, string>)

  /** The row with both total keys set, as lines 34-35 of import.py leave it. */
  function WithTotals(r: Row, totalHours: real, totalCost: real): Row {
    r.(totalHours := Some(totalHours), totalCost := Some(totalCost))
  }

  function Last(s: seq<Row>): Row
    requires s != []
  {
    s[|s| - 1]
  }

  /** Sum of the `Hours` column. */
  function HoursSum(s: seq<Row>): real {
    if s == [] then 0.0 else HoursSum(s[..|s| - 1]) + Last(s).hours
  }

  /** Sum of the `Cost Amount` column. */
  function CostSum(s: seq<Row>): real {
    if s == [] then 0.0 else CostSum(s[..|s| - 1]) + Last(s).cost
  }

  /** The rows carrying date `d`, in their order in `s`. */
  function Filter(s: seq<Row>, d: string): (f: seq<Row>)
    ensures |f| <= |s|
  {
    if s == [] then []
    else Filter(s[..|s| - 1], d) + (if Last(s).date == d then [Last(s)] else [])
  }

  /** The set of dates occurring in `s`. */
  function Dates(s: seq<Row>): set<string> {
    set r | r in s :: r.date
  }

  /** The distinct dates of `s`, each at the position of its first occurrence. */
  function DistinctDates(s: seq<Row>): seq<string> {
    if s == [] then []
    else
      var ds := DistinctDates(s[..|s| - 1]);
      if Last(s).date in ds then ds else ds + [Last(s).date]
  }

  /** Every row of `s` carries date `d`. */
  predicate SameDate(s: seq<Row>, d: string) {
    forall i :: 0 <= i < |s| ==> s[i].date == d
  }

  /** `a` and `b` agree on the date of every position. */
  predicate DatesAgree(a: seq<Row>, b: seq<Row>) {
    |a| == |b| && forall i :: 0 <= i < |a| ==> a[i].date == b[i].date
  }

  lemma {:induction false} HoursSumAppend(a: seq<Row>, b: seq<Row>)
    ensures HoursSum(a + b) == HoursSum(a) + HoursSum(b)
    ensures CostSum(a + b) == CostSum(a) + CostSum(b)
    decreases |b|
  {
    if b != [] {
      assert (a + b)[..|a + b| - 1] == a + b[..|b| - 1];
      HoursSumAppend(a, b[..|b| - 1]);
    } else {
      assert a + b == a;
    }
  }

  lemma {:induction false} FilterAppend(a: seq<Row>, b: seq<Row>, d: string)
    ensures Filter(a + b, d) == Filter(a, d) + Filter(b, d)
    decreases |b|
  {
    if b == [] {
      assert a + b == a;
    } else {
      assert (a + b)[..|a + b| - 1] == a + b[..|b| - 1];
      FilterAppend(a, b[..|b| - 1], d);
    }
  }

  /** Filtering on the date every row carries keeps everything; on another date, nothing. */
  lemma {:induction false} FilterSameDate(s: seq<Row>, d: string, e: string)
    requires SameDate(s, d)
    ensures Filter(s, e) == if d == e then s else []
    decreases |s|
  {
    if s != [] {
      FilterSameDate(s[..|s| - 1], d, e);
    }
  }

  /** Filtering on `d` keeps only rows carrying `d`. */
  lemma {:induction false} FilterDate(s: seq<Row>, d: string)
    ensures SameDate(Filter(s, d), d)
    decreases |s|
  {
    if s != [] {
      FilterDate(s[..|s| - 1], d);
    }
  }

  /** A date occurs in `s` exactly when filtering on it keeps something. */
  lemma {:induction false} FilterNonEmpty(s: seq<Row>, d: string)
    ensures Filter(s, d) != [] <==> d in Dates(s)
    decreases |s|
  {
    if s != [] {
      var p := s[..|s| - 1];
      FilterNonEmpty(p, d);
      assert s == p + [Last(s)];
      assert Dates(s) == Dates(p) + {Last(s).date};
    }
  }

  /** Last-wins: `Last(Filter(s, d))` is the row at the last position of `s` that carries `d`. */
  lemma {:induction false} LastOfDate(s: seq<Row>, d: string)
    requires Filter(s, d) != []
    ensures exists i :: 0 <= i < |s| && s[i] == Last(Filter(s, d)) && s[i].date == d &&
                        forall j :: i < j < |s| ==> s[j].date != d
    decreases |s|
  {
    var p := s[..|s| - 1];
    var i: int;
    if Last(s).date == d {
      i := |s| - 1;
      assert Filter(s, d) == Filter(p, d) + [Last(s)];
    } else {
      assert Filter(s, d) == Filter(p, d);
      LastOfDate(p, d);
      i :| 0 <= i < |p| && p[i] == Last(Filter(p, d)) && p[i].date == d &&
           forall j :: i < j < |p| ==> p[j].date != d;
      assert s[i] == p[i];
      assert forall j :: i < j < |s| ==> s[j].date != d by {
        forall j | i < j < |s| ensures s[j].date != d {
          if j < |p| { assert s[j] == p[j]; }
        }
      }
    }
    assert 0 <= i < |s| && s[i] == Last(Filter(s, d)) && s[i].date == d;
  }

  /** The distinct dates are exactly the dates that occur, each once. */
  lemma {:induction false} DistinctDatesMembers(s: seq<Row>)
    ensures forall d :: d in DistinctDates(s) <==> d in Dates(s)
    ensures forall i, j :: 0 <= i < j < |DistinctDates(s)| ==> DistinctDates(s)[i] != DistinctDates(s)[j]
    decreases |s|
  {
    if s != [] {
      var p := s[..|s| - 1];
      DistinctDatesMembers(p);
      assert s == p + [Last(s)];
      assert Dates(s) == Dates(p) + {Last(s).date};
    }
  }

  /** There are at most as many distinct dates as rows, and at least one when there is a row. */
  lemma {:induction false} DistinctDatesLength(s: seq<Row>)
    ensures |DistinctDates(s)| <= |s|
    ensures s != [] ==> DistinctDates(s) != []
    decreases |s|
  {
    if s != [] {
      DistinctDatesLength(s[..|s| - 1]);
    }
  }

  /** Rows that only gain totals keep their distinct dates. */
  lemma {:induction false} DistinctDatesAgree(a: seq<Row>, b: seq<Row>)
    requires DatesAgree(a, b)
    ensures DistinctDates(a) == DistinctDates(b)
    decreases |a|
  {
    if a != [] {
      DistinctDatesAgree(a[..|a| - 1], b[..|b| - 1]);
    }
  }

  /** A non-empty run of one date has that single date. */
  lemma {:induction false} DistinctDatesSameDate(s: seq<Row>, d: string)
    requires s != [] && SameDate(s, d)
    ensures DistinctDates(s) == [d]
    decreases |s|
  {
    if |s| > 1 {
      DistinctDatesSameDate(s[..|s| - 1], d);
    } else {
      assert s[..|s| - 1] == [];
    }
  }
  /** Removing the row at position `i` removes one copy of it from the multiset. */
  lemma MultisetRemove(b: seq<Row>, i: nat)
    requires i < |b|
    ensures multiset(b[..i] + b[i + 1..]) == multiset(b) - multiset{b[i]}
  {
    assert b == b[..i] + [b[i]] + b[i + 1..];
    assert multiset(b) == multiset(b[..i]) + multiset{b[i]} + multiset(b[i + 1..]);
  }

  /** Removing the row at position `i` removes its hours and cost from the sums. */
  lemma SumsRemove(b: seq<Row>, i: nat)
    requires i < |b|
    ensures HoursSum(b) == HoursSum(b[..i] + b[i + 1..]) + b[i].hours
    ensures CostSum(b) == CostSum(b[..i] + b[i + 1..]) + b[i].cost
  {
    var upto, after := b[..i + 1], b[i + 1..];
    assert b == upto + after;
    assert upto[..i] == b[..i] && Last(upto) == b[i];
    HoursSumAppend(upto, after);
    HoursSumAppend(b[..i], after);
  }

  /** Rearranging rows keeps their hour and cost sums (with exact arithmetic). */
  lemma {:induction false} SumsPerm(a: seq<Row>, b: seq<Row>)
    requires multiset(a) == multiset(b)
    ensures HoursSum(a) == HoursSum(b) && CostSum(a) == CostSum(b)
    decreases |a|
  {
    assert |a| == |multiset(a)| == |multiset(b)| == |b|;
    if a != [] {
      var x := Last(a);
      var p := a[..|a| - 1];
      assert a == p + [x];
      assert multiset(p) == multiset(a) - multiset{x};
      assert x in multiset(b);
      var i :| 0 <= i < |b| && b[i] == x;
      MultisetRemove(b, i);
      SumsPerm(p, b[..i] + b[i + 1..]);
      SumsRemove(b, i);
    }
  }

  /** Row `r` occurs in the rows of date `d` as often as in `s` when it carries `d`, and not
      at all otherwise. */
  lemma {:induction false} FilterCount(s: seq<Row>, d: string, r: Row)
    ensures multiset(Filter(s, d))[r] == if r.date == d then multiset(s)[r] else 0
    decreases |s|
  {
    if s != [] {
      var p := s[..|s| - 1];
      FilterCount(p, d, r);
      assert s == p + [Last(s)];
    }
  }

  /** Rearranging rows rearranges the rows of every date. */
  lemma FilterPerm(a: seq<Row>, b: seq<Row>, d: string)
    requires multiset(a) == multiset(b)
    ensures multiset(Filter(a, d)) == multiset(Filter(b, d))
  {
    forall r ensures multiset(Filter(a, d))[r] == multiset(Filter(b, d))[r] {
      FilterCount(a, d, r);
      FilterCount(b, d, r);
    }
  }

  /** Rearranging rows keeps their dates. */
  lemma DatesPerm(a: seq<Row>, b: seq<Row>)
    requires multiset(a) == multiset(b)
    ensures Dates(a) == Dates(b)
  {
    forall d | d in Dates(a) ensures d in Dates(b) {
      var r :| r in a && r.date == d;
      assert r in multiset(b);
    }
    forall d | d in Dates(b) ensures d in Dates(a) {
      var r :| r in b && r.date == d;
      assert r in multiset(a);
    }
  }
}
