/** `sorted(reader, key=lambda row: row["Date"])` (import.py:80): Python's sort is stable, so
    the result orders the rows by their `Date` string and keeps the rows of one date in their
    input order. The model is an insertion sort that places each new row after every row whose
    date is not greater than its own. */
module Sorting {
  import opened DateOrder
  import opened Rows

  /** Dates never decrease along `s`. */
  predicate SortedByDate(s: seq<Row>) {
    forall i, j :: 0 <= i < j < |s| ==> LexLe(s[i].date, s[j].date)
  }

  /** `x` placed after every row of `t` whose date is not greater than its own. */
  function Insert(t: seq<Row>, x: Row): (r: seq<Row>)
    ensures |r| == |t| + 1
    decreases |t|
  {
    if t == [] then [x]
    else if LexLe(Last(t).date, x.date) then t + [x]
    else Insert(t[..|t| - 1], x) + [Last(t)]
  }

  /** The rows of `s` in the order `sorted` gives them. */
  function SortByDate(s: seq<Row>): (r: seq<Row>)
    ensures |r| == |s|
    decreases |s|
  {
    if s == [] then [] else Insert(SortByDate(s[..|s| - 1]), Last(s))
  }

  /** The multiset of a sequence is that of all but its last element, plus the last. */
  lemma MultisetLast(s: seq<Row>)
    requires s != []
    ensures multiset(s) == multiset(s[..|s| - 1]) + multiset{Last(s)}
  {
    assert s == s[..|s| - 1] + [Last(s)];
  }

  lemma {:induction false} InsertPerm(t: seq<Row>, x: Row)
    ensures multiset(Insert(t, x)) == multiset(t) + multiset{x}
    decreases |t|
  {
    if t != [] {
      var p := t[..|t| - 1];
      assert t == p + [Last(t)];
      if !LexLe(Last(t).date, x.date) {
        InsertPerm(p, x);
      }
    }
  }

  /** Inserting into a sorted sequence keeps it sorted. */
  lemma {:induction false} InsertSorted(t: seq<Row>, x: Row)
    requires SortedByDate(t)
    ensures SortedByDate(Insert(t, x))
    decreases |t|
  {
    if t != [] {
      var p := t[..|t| - 1];
      var r := Insert(t, x);
      if LexLe(Last(t).date, x.date) {
        forall i, j | 0 <= i < j < |r| ensures LexLe(r[i].date, r[j].date) {
          if j == |t| && i < |t| - 1 {
            LexLeTrans(t[i].date, Last(t).date, x.date);
          }
        }
      } else {
        var q := Insert(p, x);
        InsertSorted(p, x);
        InsertPerm(p, x);
        LexNotLe(Last(t).date, x.date);
        forall i, j | 0 <= i < j < |r| ensures LexLe(r[i].date, r[j].date) {
          if j == |q| {
            assert r[i] in multiset(q);
            if r[i] != x {
              assert r[i] in p;
              var k :| 0 <= k < |p| && p[k] == r[i];
              assert t[k] == r[i];
            }
          } else {
            assert r[i] == q[i] && r[j] == q[j];
          }
        }
      }
    }
  }

  /** Stability of one insertion: the rows of any date keep their order, `x` coming last. */
  lemma {:induction false} InsertFilter(t: seq<Row>, x: Row, d: string)
    ensures Filter(Insert(t, x), d) == Filter(t, d) + (if x.date == d then [x] else [])
    decreases |t|
  {
    if t == [] {
      assert Filter([x], d) == Filter([], d) + (if x.date == d then [x] else []) by {
        assert [x][..0] == [];
      }
    } else {
      var p := t[..|t| - 1];
      var xs := if x.date == d then [x] else [];
      if LexLe(Last(t).date, x.date) {
        assert (t + [x])[..|t|] == t;
      } else {
        var q := Insert(p, x);
        InsertFilter(p, x, d);
        if Last(t).date == x.date {
          LexLeRefl(x.date);
        }
        assert (q + [Last(t)])[..|q|] == q;
        assert Filter(Insert(t, x), d) == Filter(p, d) + xs + (if Last(t).date == d then [Last(t)] else []);
      }
    }
  }

  /** `sorted` orders the rows by date. */
  lemma {:induction false} SortByDateSorted(s: seq<Row>)
    ensures SortedByDate(SortByDate(s))
    decreases |s|
  {
    if s != [] {
      SortByDateSorted(s[..|s| - 1]);
      InsertSorted(SortByDate(s[..|s| - 1]), Last(s));
    }
  }

  /** `sorted` neither drops nor invents a row. */
  lemma {:induction false} SortByDatePerm(s: seq<Row>)
    ensures multiset(SortByDate(s)) == multiset(s)
    decreases |s|
  {
    if s != [] {
      var p := s[..|s| - 1];
      SortByDatePerm(p);
      InsertPerm(SortByDate(p), Last(s));
      MultisetLast(s);
    }
  }

  /** `sorted` is stable: the rows of each date come out in their input order. */
  lemma {:induction false} SortByDateStable(s: seq<Row>, d: string)
    ensures Filter(SortByDate(s), d) == Filter(s, d)
    decreases |s|
  {
    if s != [] {
      var p := s[..|s| - 1];
      SortByDateStable(p, d);
      InsertFilter(SortByDate(p), Last(s), d);
    }
  }

  /** The sorted rows carry the same dates. */
  lemma {:induction false} SortByDateDates(s: seq<Row>)
    ensures Dates(SortByDate(s)) == Dates(s)
  {
    SortByDatePerm(s);
    forall d | d in Dates(s) ensures d in Dates(SortByDate(s)) {
      var r :| r in s && r.date == d;
      assert r in multiset(SortByDate(s));
    }
    forall d | d in Dates(SortByDate(s)) ensures d in Dates(s) {
      var r :| r in SortByDate(s) && r.date == d;
      assert r in multiset(s);
    }
  }
}
