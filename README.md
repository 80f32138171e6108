# Harvest timesheet aggregation, modelled in Dafny

`import.py` of harvest-toggl-sync reads a Harvest timesheet export and posts one Toggl time
entry per day. This project models the timesheet core of that script and proves what it
computes:

- `add_hours_for_day` (import.py:19-42) is a method over an `array` of rows. It writes the
  running totals into each row in place, keeps the last row of each date in an
  insertion-ordered dictionary, and yields the dictionary's values. It is proved against
  `Stamped` (the rows after the loop) and `LastPerDate` (what is yielded), through a ghost fold
  state that mirrors the loop variables.
- `group_by_date` (import.py:61-67) is a method that builds `itertools.groupby`'s maximal
  runs step by step. It is proved against `IsGrouping`, and `IsGrouping` is shown to determine
  the groups uniquely.
- The aggregation loop of `read_file` (import.py:73-84) is modelled by the methods `ReadRows`,
  `CollectGroups`, `CollectGroup` and `AddHoursForGroup`. It drops the first data row, sorts
  stably by the `Date` string (`Sorting.SortByDate`, a stable insertion sort), groups, runs
  `add_hours_for_day` once per group, and appends what each call yields. It is proved equal to `DailyEntries`: one row per distinct date, in
  ascending order, carrying that date's own sums.
- `parse_date` and `format_datetime` (import.py:45-58) are the functions
  `Timestamps.ParseDate` and `Timestamps.FormatDatetime` over strings. They are built from
  `split` (`Timestamps.Split`), `int` (`Timestamps.ParseInt`), the argument checks of
  `datetime`, and `strftime`'s zero padding (`Timestamps.Pad`).
- The request bodies of import.py:88-101 are modelled as `BuildPayload`. `SubmitAll` covers the
  loop that submits them, which stops at the first body that cannot be built.

Numbers are Dafny `real`s. A row is a datatype value with the `Date`, `Hours` and
`Cost Amount` columns, the two keys the core writes (absent until written), and every other
column as a map. Python exceptions are `Failure` values of `Result`.

The code calls `add_hours_for_day` once per group, and `total_hours` starts at `0.00` in
every call (import.py:20, 82-83). So each emitted row carries the totals of its own date,
even though a single call never resets the totals between dates (`StampedAt`).

## Model

| member | source | states |
|---|---|---|
| OrderedDict.PutValid | import.py:38 | assigning `d[k] = v` keeps the dict well formed, maps `k` to `v`, leaves every other key as it was, and adds `k` at the end of the order exactly when it was absent |
| DailyTotals.Collect | import.py:22-38 | the dictionary built by storing each row under its date is well formed |
| DailyTotals.CollectLastWins | import.py:38-42 | the dictionary's keys are the distinct dates in first-occurrence order, and each value is the last row of its date |
| DailyTotals.Stamped | import.py:24-35 | the loop leaves every row in place, with the same date at each position |
| DailyTotals.StampedAt | import.py:20-35 | row `i` gets `Total Hours` = 3600 × the hours of rows 0..i and `Total Cost Amount` = the cost of rows 0..i, with no reset when the date changes; its date, hours, cost and other columns are unchanged |
| DailyTotals.YieldedRows | import.py:41-42 | the values yielded are one row per distinct input date, in first-occurrence order, each the last stamped row of its date |
| DailyTotals.YieldCount | import.py:22-42 | at most one row is yielded per input row, and nothing exactly when the input is empty |
| DailyTotals.FoldAtSums | import.py:20-31 | after `i` turns the accumulators hold the hour and cost sums of the first `i` rows |
| DailyTotals.FoldAtDone | import.py:24-35 | after `i` turns the first `i` rows are stamped as `Stamped` says |
| DailyTotals.FoldAtDict | import.py:38 | after `i` turns `last_row_per_date` is the dictionary of the rows stamped so far |
| DailyTotals.FoldEnd | import.py:24-42 | after the loop the rows are `Stamped` of the input, and the yielded values satisfy `LastPerDate` |
| DailyTotals.AddHoursForDay | import.py:19-42 | the array ends as `Stamped` of its old contents; the result is one row per distinct date, in first-occurrence order, the last row of that date |
| Sorting.InsertSorted | import.py:80 | inserting a row into date-sorted rows keeps them sorted |
| Sorting.InsertFilter | import.py:80 | inserting a row keeps the order of the rows of every date, the new row last among its date |
| Sorting.SortByDateSorted | import.py:80 | `sorted(..., key=Date)` orders the rows by date |
| Sorting.SortByDatePerm | import.py:80 | the sorted rows are a permutation of the input |
| Sorting.SortByDateStable | import.py:80 | the sort is stable: the rows of each date keep their input order |
| Sorting.SortByDateDates | import.py:80 | the sorted rows carry the same dates |
| Grouping.GroupByDate | import.py:61-67 | the groups concatenate to the input, are non-empty, carry one date each, and neighbours differ in date |
| Grouping.GroupingUnique | import.py:61-67 | two groupings of the same rows are equal, so `groupby`'s output is determined by its input |
| Grouping.GroupingDates | import.py:61-67 | every row's date is the date of some group |
| Grouping.GroupsOfSorted | import.py:80-82 | on sorted rows the group dates strictly ascend, group `k` holds every row of its date, and the group dates are the distinct dates |
| Rows.SumsPerm | import.py:29-31 | the hour and cost sums do not depend on the order of the rows they add up |
| Rows.FilterPerm | import.py:80-82 | rearranging the rows rearranges the rows of every date |
| Pipeline.DistinctDatesSorted | import.py:80-82 | the distinct dates of sorted rows strictly ascend |
| Pipeline.DailyEntriesMeaning | import.py:77-84 | a date occurs in the data rows exactly when an entry carries it; entries strictly ascend by date; the entry for `d` is the last data row of `d` with 3600 × that date's hours and that date's cost |
| Pipeline.DailyEntriesPermutation | import.py:77-84 | any rearrangement of the data rows gives as many entries, with the same dates in the same order and the same `Total Hours` and `Total Cost Amount`; only the other columns follow the last row of each date |
| Pipeline.EntriesOfGroups | import.py:80-84 | group `k` of the sorted data yields entry `k` |
| Pipeline.OneDay | import.py:82-83 | `add_hours_for_day` on a one-date group yields exactly that day's total row |
| Pipeline.AddHoursForGroup | import.py:67-83 | a fresh copy of the group, run through `add_hours_for_day`, yields only the day's total row |
| Pipeline.CollectGroup | import.py:83-84 | the rows one group yields are appended to `modified_data` |
| Pipeline.CollectGroups | import.py:82-84 | `modified_data` holds group `k`'s day total at position `k` |
| Pipeline.ReadRows | import.py:73-84 | without a data row `next` fails; otherwise the result is `DailyEntries` of the rows after the first data row |
| Timestamps.JoinSplit | import.py:46 | `"-".join(s.split("-")) == s` |
| Timestamps.SplitJoin | import.py:46 | splitting the join of separator-free pieces gives the pieces back |
| Timestamps.SplitConcat | import.py:46 | splitting at a separator splits the two sides independently |
| Timestamps.SplitNoSep | import.py:46 | no piece contains the separator |
| Timestamps.ParseAllMeaning | import.py:46 | the list comprehension succeeds exactly when every segment is an integer literal, with one value per segment; otherwise it fails on the first bad segment |
| Timestamps.ParseIntPad | import.py:46-58 | `int` reads a zero-padded number back |
| Timestamps.PadValue | import.py:58 | `%Y`, `%m`, `%d` print the value in exactly the field width |
| Timestamps.IsoTimeValue | import.py:54-58 | 14:00:00 prints as `T14:00:00Z` |
| Timestamps.IsoDateParts | import.py:45-58 | the printed date is 10 characters and parses back to its year, month and day |
| Timestamps.FormatCanonical | import.py:49-58 | a valid `YYYY-MM-DD` date formats as itself followed by `T14:00:00Z` |
| Timestamps.FormatShape | import.py:49-58 | every result is 20 characters built from the first three segments, which form a valid date; formatting its date part again gives the same result |
| Timestamps.FormatValid | import.py:45-58 | whenever every segment is an integer, there are at least three and the first three form a valid date, the result is that date printed `YYYY-MM-DD` followed by `T14:00:00Z`, however the segments were written |
| Timestamps.FormatUnpadded | import.py:45-58 | `"2024-3-5"` formats as `"2024-03-05T14:00:00Z"` |
| Timestamps.TooFewSegments | import.py:50-53 | fewer than three segments fails, on the first missing index when every segment is an integer |
| Timestamps.InvalidSegment | import.py:46-53 | a non-integer segment anywhere fails with the first such segment |
| Timestamps.ExtraSegment | import.py:45-53 | an extra integer segment is ignored; an extra non-integer segment still fails |
| Payloads.Trunc | import.py:96 | `int` on a float is its integer part, rounding toward zero |
| Payloads.BuildPayloadMeaning | import.py:92-101 | a body is built exactly when `Total Hours` is present and the date formats; a missing `Total Hours` fails first, then the date's own error; the body is billable, created with `python-toggl`, for "Software development", for the given project and workspace, lasts `Total Hours` truncated toward zero for either sign, and starts at a 20-character `YYYY-MM-DDT14:00:00Z` |
| Payloads.EntryPayload | import.py:82-101 | the body of entry `k` of `read_file` is `DayPayload` of the data rows of its date |
| Payloads.PayloadsPermutation | import.py:80-101 | any rearrangement of the data rows gives the same request bodies, in the same order |
| Payloads.CanonicalDayPayload | import.py:92-101 | for a `YYYY-MM-DD` date the day's body starts at `<date>T14:00:00Z` and lasts the truncated 3600 × the day's hours |
| Payloads.SubmissionUnique | import.py:88-101 | the submitted bodies and the error that stops the loop are determined by the rows |
| Payloads.SubmitAll | import.py:88-101 | the loop submits the bodies of a prefix of the rows, in order, and stops at the first row whose body raises |
| Payloads.ReadFile | import.py:70-101 | `read_file` with `dry_run` false submits the bodies of `DailyEntries` in order up to the first failure, and nothing when there is no data row |

## Left out

- CSV reading (import.py:75-76): `open` and `csv.DictReader` are file I/O; the rows are given as a sequence of parsed rows, the header already consumed.
- `float(...)` (import.py:26-27): numbers are exact reals, so float parsing and rounding in the running sums are not modelled.
- `requests.post`, `print` of the modified data and of each response (import.py:86, 90-107): network I/O and output. `SubmitAll` returns the bodies it would post.
- The request URL uses the constant `WORKSPACE_ID` (import.py:91) rather than the `workspace_id` argument; the URL is part of the request and is not modelled.
- The default `workspace_id = WORKSPACE_ID` of `read_file` (import.py:70-71), which `main` relies on when no workspace is given (import.py:149): `ReadFile` takes the workspace id as an argument and leaves the default, 5534737, to its caller.
- The `Authorization` header and the `TOGGL_API_KEY` environment lookup (import.py:15, 104): environment state and a foreign encoding.
- The dry-run branch (import.py:108-118): output only, and it names a module the script never imports.
- `main` and `argparse` (import.py:120-152): command-line plumbing. `main` never passes `dry_run` on, so `ReadFile` models `dry_run` false. `project_name` is unused by `read_file`.
- Missing `Date`, `Hours` or `Cost Amount` columns: a `Row` always has them. Only the `Total Hours` lookup can fail with `MissingField`.
- `ParseInt` accepts an optional sign and ASCII digits only. The whitespace, underscores and non-ASCII digits that Python's `int` also accepts are not modelled.
- `Pad`: `%Y` prints years below 1000 with four digits here, as Python documents. Some C libraries print fewer.
- `DailyTotals.AddHoursForDay`: rows are values, so the yielded rows are copies. The same dict objects being shared between the list and the dictionary is not modelled.
- `Pipeline.AddHoursForGroup`: `list(rows)` becomes a fresh array; `groupby`'s laziness and its sharing of the underlying iterator are not modelled.
- `format_datetime` calls `parse_date` three times (import.py:51-53). It is pure, so the model parses once.
- `datetime` first converts year, month and day to C `int`s, in that order. A value outside the 32-bit range gives `IntOverflow` (Python's `OverflowError`). After that, the range checks on year, month and day give `OutOfRange` errors, in that order. The exact messages are not modelled.
- `ParseInt` has no limit on the number of digits. Recent Python versions raise `ValueError` for an integer string longer than 4300 digits; that version-dependent limit is not modelled, so such a segment is converted rather than rejected.
- Pipeline.DailyEntriesPermutation: the dates and totals of the entries are independent of the order of the rows only with exact arithmetic. The source adds Python floats, whose rounding depends on the order of the additions.
