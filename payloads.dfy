/** The second half of `read_file` (import.py:88-101): one time entry is submitted per
    collected row, in order. The entry is billable, lasts `int(row["Total Hours"])` seconds and
    starts at 14:00 on the row's date. */
module Payloads {
  import opened Results
  import opened Rows
  import opened Timestamps
  import opened Pipeline

  /** `int(x)` on a float: the integer part, rounding toward zero. */
  function Trunc(x: real): (n: int)
    ensures 0.0 <= x ==> 0 <= n && n as real <= x < n as real + 1.0
    ensures x < 0.0 ==> n <= 0 && n as real - 1.0 < x <= n as real
  {
    if x >= 0.0 then x.Floor else -((-x).Floor)
  }

  /** The JSON body of one `time_entries` request. */
  datatype Payload = Payload(
    billable: bool,
    createdWith: string,
    description: string,
    duration: int,
    projectId: int,
    start: string,
    wid: int,
    workspaceId: int)

  /** The dictionary literal of lines 92-101, given the value of `int(row["Total Hours"])`'s
      argument and the result of `format_datetime`. */
  function Body(total: real, start: Result<string>, projectId: int, workspaceId: int): Result<Payload> {
    match start
    case Failure(e) => Failure(e)
    case Success(s) =>
      Success(Payload(true, "python-toggl", "Software development", Trunc(total), projectId, s, workspaceId, workspaceId))
  }

  /** The body built for `row` (import.py:92-101). The dictionary's values are computed in
      order, so a missing `Total Hours` fails before the date is looked at. */
  function BuildPayload(row: Row, projectId: int, workspaceId: int): Result<Payload> {
    match row.totalHours
    case None => Failure(MissingField("Total Hours"))
    case Some(total) => Body(total, FormatDatetime(row.date), projectId, workspaceId)
  }

  /** A body is built exactly when the row has a `Total Hours` and its date formats; otherwise
      the first of the two to fail gives the error. It is billable, created by `python-toggl`
      for "Software development", charged to the given project and workspace, lasts the whole
      seconds of `Total Hours` (rounded toward zero, also when negative), and starts at
      14:00:00 on the date's first three segments. */
  lemma BuildPayloadMeaning(row: Row, projectId: int, workspaceId: int)
    ensures BuildPayload(row, projectId, workspaceId).Success? <==>
              row.totalHours.Some? && FormatDatetime(row.date).Success?
    ensures row.totalHours.None? ==> BuildPayload(row, projectId, workspaceId) == Failure(MissingField("Total Hours"))
    ensures row.totalHours.Some? && FormatDatetime(row.date).Failure? ==>
              BuildPayload(row, projectId, workspaceId) == Failure(FormatDatetime(row.date).error)
    ensures BuildPayload(row, projectId, workspaceId).Success? ==>
              var p := BuildPayload(row, projectId, workspaceId).value;
              var ns := ParseDate(row.date).value;
              p.billable && p.createdWith == "python-toggl" && p.description == "Software development" &&
              p.projectId == projectId && p.wid == workspaceId && p.workspaceId == workspaceId &&
              p.duration == Trunc(row.totalHours.value) &&
              |p.start| == 20 && ValidDate(ns[0], ns[1], ns[2]) &&
              p.start == IsoDate(ns[0], ns[1], ns[2]) + "T14:00:00Z"
  {
    if BuildPayload(row, projectId, workspaceId).Success? {
      FormatShape(row.date);
    }
  }

  /** The body submitted for one day, computed from the day's data rows alone: it lasts the
      whole seconds of the day's summed hours and starts at 14:00 on the day's date. */
  function DayPayload(day: seq<Row>, projectId: int, workspaceId: int): Result<Payload>
    requires day != []
  {
    Body(HoursSum(day) * 3600.0, FormatDatetime(Last(day).date), projectId, workspaceId)
  }

  /** The body of a day total is the day's body. */
  lemma DayTotalPayload(day: seq<Row>, projectId: int, workspaceId: int)
    requires day != []
    ensures BuildPayload(DayTotal(day), projectId, workspaceId) == DayPayload(day, projectId, workspaceId)
  {
  }

  /** The `k`-th entry `read_file` submits for the data rows `data` is the body of the data
      rows of its date, whose last row carries that date. */
  lemma EntryPayload(data: seq<Row>, k: nat, projectId: int, workspaceId: int)
    requires k < |DailyEntries(data)|
    ensures var e := DailyEntries(data)[k];
            Filter(data, e.date) != [] && Last(Filter(data, e.date)).date == e.date &&
            BuildPayload(e, projectId, workspaceId) == DayPayload(Filter(data, e.date), projectId, workspaceId)
  {
    DailyEntriesLength(data);
    DailyEntriesAt(data, k);
    var e := DailyEntries(data)[k];
    DayTotalPayload(Filter(data, e.date), projectId, workspaceId);
  }

  /** The bodies `read_file` submits do not depend on the order of the data rows: a body
      reads only an entry's date and `Total Hours`, and those are the same for any
      rearrangement of the rows. */
  lemma PayloadsPermutation(a: seq<Row>, b: seq<Row>, projectId: int, workspaceId: int)
    requires multiset(a) == multiset(b)
    ensures |DailyEntries(a)| == |DailyEntries(b)|
    ensures forall k :: 0 <= k < |DailyEntries(a)| ==>
              BuildPayload(DailyEntries(a)[k], projectId, workspaceId) ==
              BuildPayload(DailyEntries(b)[k], projectId, workspaceId)
  {
    DailyEntriesPermutation(a, b);
  }

  /** For a date written `YYYY-MM-DD` the day's body starts at `<date>T14:00:00Z`. */
  lemma CanonicalDayPayload(rows: seq<Row>, projectId: int, workspaceId: int, year: nat, month: nat, day: nat)
    requires rows != [] && ValidDate(year, month, day) && Last(rows).date == IsoDate(year, month, day)
    ensures DayPayload(rows, projectId, workspaceId) ==
              Success(Payload(true, "python-toggl", "Software development", Trunc(HoursSum(rows) * 3600.0),
                              projectId, Last(rows).date + "T14:00:00Z", workspaceId, workspaceId))
  {
    FormatCanonical(year, month, day);
  }

  /** `sent` are the bodies of the first `|sent|` rows, and `failure` is the error of the next
      row, or none when every row was sent. */
  predicate Submission(rows: seq<Row>, projectId: int, workspaceId: int, sent: seq<Payload>, failure: Option<Error>) {
    |sent| <= |rows| &&
    (forall k :: 0 <= k < |sent| ==> BuildPayload(rows[k], projectId, workspaceId) == Success(sent[k])) &&
    (failure.None? ==> |sent| == |rows|) &&
    (failure.Some? ==> |sent| < |rows| && BuildPayload(rows[|sent|], projectId, workspaceId) == Failure(failure.value))
  }

  /** A submission is determined by the rows: it stops at the first row whose body cannot be
      built. */
  lemma SubmissionUnique(rows: seq<Row>, projectId: int, workspaceId: int,
                         sent1: seq<Payload>, failure1: Option<Error>, sent2: seq<Payload>, failure2: Option<Error>)
    requires Submission(rows, projectId, workspaceId, sent1, failure1)
    requires Submission(rows, projectId, workspaceId, sent2, failure2)
    ensures sent1 == sent2 && failure1 == failure2
  {
    if |sent1| == |sent2| {
      assert forall k :: 0 <= k < |sent1| ==> Success(sent1[k]) == Success(sent2[k]);
    }
  }

  /** Lines 88-101 with `dry_run` false: the rows are posted in order, and an exception while
      building a body ends the loop after the rows before it were posted. The request itself
      is left out; `sent` is what was posted. */
  method SubmitAll(modifiedData: seq<Row>, projectId: int, workspaceId: int) returns (sent: seq<Payload>, failure: Option<Error>)
    ensures Submission(modifiedData, projectId, workspaceId, sent, failure)
  {
    sent := [];
    for k := 0 to |modifiedData|
      invariant |sent| == k
      invariant forall j :: 0 <= j < k ==> BuildPayload(modifiedData[j], projectId, workspaceId) == Success(sent[j])
    {
      var payload := BuildPayload(modifiedData[k], projectId, workspaceId);
      if payload.Failure? {
        return sent, Some(payload.error);
      }
      sent := sent + [payload.value];
    }
    failure := None;
  }

  /** `read_file` on the rows `csv.DictReader` produces, with `dry_run` false: without a first
      data row nothing is sent; otherwise the daily entries are sent in order until one fails. */
  method ReadFile(reader: seq<Row>, projectId: int, workspaceId: int) returns (sent: seq<Payload>, failure: Option<Error>)
    ensures reader == [] ==> sent == [] && failure == Some(NoDataRow)
    ensures reader != [] ==> Submission(DailyEntries(reader[1..]), projectId, workspaceId, sent, failure)
  {
    var modifiedData := ReadRows(reader);
    if modifiedData.Failure? {
      return [], Some(modifiedData.error);
    }
    sent, failure := SubmitAll(modifiedData.value, projectId, workspaceId);
  }
}
