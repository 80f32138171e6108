/** `add_hours_for_day` (import.py:19-42): a running-total fold over a list of rows that writes
    the totals into every row and keeps, per date, the last row it saw. */
module DailyTotals {
  import opened Results
  import opened Rows
  import OrderedDict

  /** `last_row_per_date` after the loop has stored every row of `s` (line 38). */
  function Collect(s: seq<Row>): (d: OrderedDict.Dict<string, Row>)
    ensures d.Valid()
  {
    if s == [] then OrderedDict.Empty()
    else
      var d := Collect(s[..|s| - 1]);
      OrderedDict.PutValid(d, Last(s).date, Last(s));
      d.Put(Last(s).date, Last(s))
  }

  /** The dictionary keeps each date at its first insertion and the last row stored under it;
      so its values are one row per distinct date, the last one carrying that date. */
  lemma {:induction false} CollectLastWins(s: seq<Row>)
    ensures Collect(s).keys == DistinctDates(s)
    ensures forall d :: d in Collect(s).entries ==> Filter(s, d) != [] && Collect(s).entries[d] == Last(Filter(s, d))
    ensures |Collect(s).Values()| == |DistinctDates(s)|
    ensures forall k :: 0 <= k < |DistinctDates(s)| ==>
              Filter(s, DistinctDates(s)[k]) != [] &&
              Collect(s).Values()[k] == Last(Filter(s, DistinctDates(s)[k]))
    decreases |s|
  {
    if s != [] {
      var p := s[..|s| - 1];
      CollectLastWins(p);
      forall d | d in Collect(s).entries
        ensures Filter(s, d) != [] && Collect(s).entries[d] == Last(Filter(s, d))
      {
        if d != Last(s).date {
          assert Filter(s, d) == Filter(p, d);
        }
      }
    }
  }

  /** The rows as the loop of lines 24-38 leaves them: each one carries the running totals
      up to and including itself. */
  function Stamped(s: seq<Row>): (t: seq<Row>)
    ensures DatesAgree(t, s)
  {
    if s == [] then []
    else Stamped(s[..|s| - 1]) + [WithTotals(Last(s), HoursSum(s) * 3600.0, CostSum(s))]
  }

  /** Row `i` carries 3600 times the hours of rows 0..i and the cost of rows 0..i: the totals
      are never reset, whatever the dates; nothing but the two total keys changes. */
  lemma {:induction false} StampedAt(s: seq<Row>, i: nat)
    requires i < |s|
    ensures Stamped(s)[i] == WithTotals(s[i], HoursSum(s[..i + 1]) * 3600.0, CostSum(s[..i + 1]))
    ensures Stamped(s)[i].date == s[i].date && Stamped(s)[i].hours == s[i].hours &&
            Stamped(s)[i].cost == s[i].cost && Stamped(s)[i].others == s[i].others
    decreases |s|
  {
    if i == |s| - 1 {
      assert s[..i + 1] == s;
    } else {
      var p := s[..|s| - 1];
      StampedAt(p, i);
      assert p[..i + 1] == s[..i + 1];
    }
  }

  /** `out` holds one row per distinct date of `input`, in the order the dates first occur,
      and the row for a date is the last row of `rows` carrying it. */
  ghost predicate LastPerDate(input: seq<Row>, rows: seq<Row>, out: seq<Row>) {
    |out| == |DistinctDates(input)| &&
    forall k :: 0 <= k < |out| ==>
      out[k].date == DistinctDates(input)[k] &&
      Filter(rows, out[k].date) != [] && out[k] == Last(Filter(rows, out[k].date))
  }

  /** What lines 41-42 yield after the loop: one row per distinct date of the input, in
      first-occurrence order, namely the last stamped row carrying that date. */
  lemma {:induction false} YieldedRows(input: seq<Row>, stamped: seq<Row>, out: seq<Row>)
    requires stamped == Stamped(input) && out == Collect(stamped).Values()
    ensures LastPerDate(input, stamped, out)
  {
    CollectLastWins(stamped);
    DistinctDatesAgree(stamped, input);
    forall k | 0 <= k < |out|
      ensures out[k].date == DistinctDates(input)[k]
    {
      LastOfDate(stamped, DistinctDates(input)[k]);
    }
  }

  /** At most one row is yielded per input row, and nothing exactly when the input is empty. */
  lemma YieldCount(input: seq<Row>, rows: seq<Row>, out: seq<Row>)
    requires LastPerDate(input, rows, out)
    ensures |out| <= |input|
    ensures out == [] <==> input == []
  {
    DistinctDatesLength(input);
  }

  /** The state the loop of lines 24-38 carries: the two accumulators, the rows stamped so
      far and `last_row_per_date`. */
  datatype Fold = Fold(hours: real, cost: real, done: seq<Row>, lastRowPerDate: OrderedDict.Dict<string, Row>)

  /** One turn of the loop (lines 26-38) on `row`: both totals grow, the row is stamped with
      them and stored under its date. */
  function Turn(f: Fold, row: Row): Fold {
    var data := Stamp(f, row);
    Fold(f.hours + row.hours, f.cost + row.cost, f.done + [data], f.lastRowPerDate.Put(data.date, data))
  }

  /** `row` with the totals it gets in that turn (lines 34-35). */
  function Stamp(f: Fold, row: Row): Row {
    WithTotals(row, (f.hours + row.hours) * 3600.0, f.cost + row.cost)
  }

  /** The state after the loop has handled rows `0..i` of `input`. */
  function FoldAt(input: seq<Row>, i: nat): (f: Fold)
    requires i <= |input|
    ensures |f.done| == i
  {
    if i == 0 then Fold(0.0, 0.0, [], OrderedDict.Empty()) else Turn(FoldAt(input, i - 1), input[i - 1])
  }

  /** The accumulators after `i` turns are the sums over the first `i` rows. */
  lemma {:induction false} FoldAtSums(input: seq<Row>, i: nat)
    requires i <= |input|
    ensures FoldAt(input, i).hours == HoursSum(input[..i]) && FoldAt(input, i).cost == CostSum(input[..i])
  {
    if i > 0 {
      FoldAtSums(input, i - 1);
      assert input[..i][..i - 1] == input[..i - 1];
    }
  }

  /** The rows stamped after `i` turns are `Stamped` of the first `i` rows. */
  lemma {:induction false} FoldAtDone(input: seq<Row>, i: nat)
    requires i <= |input|
    ensures FoldAt(input, i).done == Stamped(input[..i])
  {
    if i > 0 {
      var p := input[..i];
      var f := FoldAt(input, i - 1);
      var row := WithTotals(input[i - 1], HoursSum(p) * 3600.0, CostSum(p));
      FoldAtDone(input, i - 1);
      FoldAtSums(input, i);
      assert FoldAt(input, i).done == f.done + [row];
      assert p[..i - 1] == input[..i - 1];
      assert Stamped(p) == Stamped(input[..i - 1]) + [row];
    }
  }

  /** The dictionary after `i` turns is `Collect` of the rows stamped so far. */
  lemma {:induction false} FoldAtDict(input: seq<Row>, i: nat)
    requires i <= |input|
    ensures FoldAt(input, i).lastRowPerDate == Collect(FoldAt(input, i).done)
  {
    if i > 0 {
      FoldAtDict(input, i - 1);
      var done := FoldAt(input, i).done;
      assert done[..|done| - 1] == FoldAt(input, i - 1).done;
    }
  }

  /** One turn of the loop at row `i`: from the state `f` after `i` turns, growing both
      totals by the row's values, stamping the row with them and storing it under its date
      gives the state after `i + 1` turns. */
  lemma {:induction false} FoldTurn(input: seq<Row>, i: nat, f: Fold, data: Row, next: Fold)
    requires i < |input| && f == FoldAt(input, i)
    requires data == WithTotals(input[i], (f.hours + input[i].hours) * 3600.0, f.cost + input[i].cost)
    requires next == Fold(f.hours + input[i].hours, f.cost + input[i].cost, f.done + [data],
                          f.lastRowPerDate.Put(data.date, data))
    ensures next == FoldAt(input, i + 1)
    ensures |next.done| == i + 1 && next.done[i] == data
    ensures forall j :: 0 <= j < i ==> next.done[j] == f.done[j]
  {
  }

  /** When the loop ends, the array is `Stamped` of the input and the dictionary's values are
      one row per distinct date, in first-occurrence order, the last stamped row of each date. */
  lemma {:induction false} FoldEnd(input: seq<Row>)
    ensures FoldAt(input, |input|).done == Stamped(input)
    ensures FoldAt(input, |input|).lastRowPerDate.Valid()
    ensures LastPerDate(input, Stamped(input), FoldAt(input, |input|).lastRowPerDate.Values())
  {
    FoldAtDone(input, |input|);
    FoldAtDict(input, |input|);
    assert input[..|input|] == input;
    YieldedRows(input, Stamped(input), FoldAt(input, |input|).lastRowPerDate.Values());
  }

  /** The loop of lines 24-38 run over `rows`, followed by the yield loop of lines 41-42.
      The rows end up as `Stamped` describes them (see StampedAt); the result holds one row
      per distinct date, in the order the dates first occur, and that row is the last one
      carrying the date. */
  method AddHoursForDay(rows: array<Row>) returns (out: seq<Row>)
    modifies rows
    ensures rows[..] == Stamped(old(rows[..]))
    ensures LastPerDate(old(rows[..]), rows[..], out)
  {
    ghost var input := rows[..];
    var totalHours: real := 0.0;
    var totalCostAmount: real := 0.0;
    var lastRowPerDate: OrderedDict.Dict<string, Row> := OrderedDict.Empty();
    ghost var f := FoldAt(input, 0);
    for i := 0 to rows.Length
      invariant f == FoldAt(input, i)
      invariant totalHours == f.hours && totalCostAmount == f.cost && lastRowPerDate == f.lastRowPerDate
      invariant forall j :: 0 <= j < i ==> rows[j] == f.done[j]
      invariant forall j :: i <= j < rows.Length ==> rows[j] == input[j]
    {
      var data := rows[i];
      var hours := data.hours;
      var costAmount := data.cost;
      totalHours := totalHours + hours;
      totalCostAmount := totalCostAmount + costAmount;
      data := WithTotals(data, totalHours * 3600.0, totalCostAmount);
      rows[i] := data;
      lastRowPerDate := lastRowPerDate.Put(data.date, data);
      ghost var next := Fold(totalHours, totalCostAmount, f.done + [data], lastRowPerDate);
      FoldTurn(input, i, f, data, next);
      f := next;
    }
    assert rows[..] == f.done;
    FoldEnd(input);
    out := lastRowPerDate.Values();
  }
}
