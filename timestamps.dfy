/** `parse_date` and `format_datetime` (import.py:45-58): a `Y-M-D` string is split on `-`,
    every segment is converted with `int`, the first three become a `datetime` at 14:00:00,
    and that is printed with `"%Y-%m-%dT%H:%M:%SZ"`. */
module Timestamps {
  import opened Results

  // ---------------------------------------------------------------------------------------
  // `str.split(sep)` and its inverse `sep.join(parts)`

  /** `s.split(sep)`: the pieces between the separators; the empty string gives `[""]`. */
  function Split(s: string, sep: char): (parts: seq<string>)
    ensures |parts| >= 1
    decreases |s|
  {
    if s == [] then [[]] else Prepend(s[0], Split(s[1..], sep), sep)
  }

  /** The pieces of `[c] + r`, given the pieces `p` of `r`: a separator opens an empty first
      piece, any other character joins the first piece. */
  function Prepend(c: char, p: seq<string>, sep: char): (q: seq<string>)
    requires |p| >= 1
    ensures |q| >= 1
  {
    if c == sep then [[]] + p else [[c] + p[0]] + p[1..]
  }

  lemma PrependConcat(c: char, a: seq<string>, b: seq<string>, sep: char)
    requires |a| >= 1
    ensures Prepend(c, a + b, sep) == Prepend(c, a, sep) + b
  {
    if c != sep {
      assert (a + b)[0] == a[0];
      assert (a + b)[1..] == a[1..] + b;
    }
  }

  /** `sep.join(parts)`. */
  function Join(parts: seq<string>, sep: char): string
    requires |parts| >= 1
    decreases |parts|
  {
    if |parts| == 1 then parts[0] else parts[0] + [sep] + Join(parts[1..], sep)
  }

  /** No piece contains the separator. */
  lemma {:induction false} SplitNoSep(s: string, sep: char)
    ensures forall k :: 0 <= k < |Split(s, sep)| ==> sep !in Split(s, sep)[k]
    decreases |s|
  {
    if s != [] {
      SplitNoSep(s[1..], sep);
      var p := Split(s[1..], sep);
      if s[0] != sep {
        assert sep !in p[0];
        forall k | 0 <= k < |Split(s, sep)| ensures sep !in Split(s, sep)[k] {
          if k > 0 {
            assert Split(s, sep)[k] == p[k];
          }
        }
      }
    }
  }

  /** Joining the pieces gives back the string. */
  lemma {:induction false} JoinSplit(s: string, sep: char)
    ensures Join(Split(s, sep), sep) == s
    decreases |s|
  {
    if s != [] {
      JoinSplit(s[1..], sep);
      JoinPrepend(s[0], Split(s[1..], sep), sep);
      assert s == [s[0]] + s[1..];
    }
  }

  /** Joining the pieces of `[c] + r` puts `c` in front of the join of the pieces of `r`. */
  lemma JoinPrepend(c: char, p: seq<string>, sep: char)
    requires |p| >= 1
    ensures Join(Prepend(c, p, sep), sep) == [c] + Join(p, sep)
  {
    var q := Prepend(c, p, sep);
    if c == sep {
      assert q[1..] == p;
    } else {
      assert q[1..] == p[1..];
    }
  }

  /** A string without the separator is one piece. */
  lemma {:induction false} SplitSingle(s: string, sep: char)
    requires sep !in s
    ensures Split(s, sep) == [s]
    decreases |s|
  {
    if s != [] {
      assert sep !in s[1..];
      SplitSingle(s[1..], sep);
      assert s == [s[0]] + s[1..];
    }
  }

  /** Splitting at a separator splits the two sides independently. */
  lemma {:induction false} SplitConcat(s: string, t: string, sep: char)
    ensures Split(s + [sep] + t, sep) == Split(s, sep) + Split(t, sep)
    decreases |s|
  {
    var u := s + [sep] + t;
    if s == [] {
      assert u[1..] == t;
    } else {
      var rest := s[1..] + [sep] + t;
      assert u[0] == s[0] && u[1..] == rest;
      SplitConcat(s[1..], t, sep);
      PrependConcat(s[0], Split(s[1..], sep), Split(t, sep), sep);
    }
  }

  /** Pieces free of the separator are recovered by splitting their join. */
  lemma {:induction false} SplitJoin(parts: seq<string>, sep: char)
    requires |parts| >= 1 && forall k :: 0 <= k < |parts| ==> sep !in parts[k]
    ensures Split(Join(parts, sep), sep) == parts
    decreases |parts|
  {
    if |parts| == 1 {
      SplitSingle(parts[0], sep);
    } else {
      var rest := parts[1..];
      assert forall k :: 0 <= k < |rest| ==> rest[k] == parts[k + 1];
      SplitJoin(rest, sep);
      SplitConcat(parts[0], Join(rest, sep), sep);
      SplitSingle(parts[0], sep);
      assert parts == [parts[0]] + rest;
    }
  }

  // ---------------------------------------------------------------------------------------
  // `int(x)` on a string, and decimal printing

  predicate IsDigit(c: char) {
    '0' <= c <= '9'
  }

  /** Every character is an ASCII digit. */
  predicate AllDigits(s: string) {
    forall i :: 0 <= i < |s| ==> IsDigit(s[i])
  }

  /** The value of a string of digits, most significant first. */
  function DigitsValue(s: string): nat
    requires AllDigits(s)
    decreases |s|
  {
    if s == [] then 0 else DigitsValue(s[..|s| - 1]) * 10 + (s[|s| - 1] as int - '0' as int)
  }

  /** `int(x)`: an optional sign followed by at least one digit. */
  function ParseInt(x: string): Option<int> {
    if x != [] && (x[0] == '+' || x[0] == '-') && x[1..] != [] && AllDigits(x[1..]) then
      Some(if x[0] == '-' then 0 - DigitsValue(x[1..]) as int else DigitsValue(x[1..]))
    else if x != [] && AllDigits(x) then Some(DigitsValue(x))
    else None
  }

  /** The decimal digits of `n`, without leading zeros. */
  function Digits(n: nat): (s: string)
    ensures s != [] && AllDigits(s)
  {
    if n < 10 then [('0' as int + n) as char] else Digits(n / 10) + [('0' as int + n % 10) as char]
  }

  /** `k` zeros. */
  function Zeros(k: nat): (s: string)
    ensures |s| == k && AllDigits(s)
  {
    seq(k, _ => '0')
  }

  /** `n` printed in at least `w` digits, padded with zeros on the left, as `%0wd` does. */
  function Pad(n: nat, w: nat): (s: string)
    ensures s != [] && AllDigits(s)
  {
    var ds := Digits(n);
    if |ds| >= w then ds else Zeros(w - |ds|) + ds
  }

  function Pow10(k: nat): nat {
    if k == 0 then 1 else 10 * Pow10(k - 1)
  }

  lemma {:induction false} DigitsValueOfDigits(n: nat)
    ensures DigitsValue(Digits(n)) == n
  {
    if n >= 10 {
      DigitsValueOfDigits(n / 10);
      var s := Digits(n);
      assert s[..|s| - 1] == Digits(n / 10);
    }
  }

  lemma {:induction false} DigitsLength(n: nat, w: nat)
    requires w >= 1 && n < Pow10(w)
    ensures |Digits(n)| <= w
  {
    if n >= 10 {
      DigitsLength(n / 10, w - 1);
    }
  }

  lemma {:induction false} ZerosValue(k: nat, s: string)
    requires AllDigits(s)
    ensures DigitsValue(Zeros(k) + s) == DigitsValue(s)
    decreases |s|, k
  {
    if s == [] {
      assert Zeros(k) + s == Zeros(k);
      if k > 0 {
        assert Zeros(k)[..k - 1] == Zeros(k - 1);
        ZerosValue(k - 1, []);
        assert Zeros(k - 1) + [] == Zeros(k - 1);
      }
    } else {
      var z := Zeros(k) + s;
      assert z[..|z| - 1] == Zeros(k) + s[..|s| - 1];
      ZerosValue(k, s[..|s| - 1]);
    }
  }

  /** `Pad` prints `n`: its digits read back as `n`, in exactly `w` characters when `n` has
      at most `w` digits. */
  lemma PadValue(n: nat, w: nat)
    requires w >= 1 && n < Pow10(w)
    ensures DigitsValue(Pad(n, w)) == n && |Pad(n, w)| == w
  {
    DigitsValueOfDigits(n);
    DigitsLength(n, w);
    if |Digits(n)| < w {
      ZerosValue(w - |Digits(n)|, Digits(n));
    }
  }

  /** `int` reads printed digits back. */
  lemma ParseIntPad(n: nat, w: nat)
    requires w >= 1 && n < Pow10(w)
    ensures ParseInt(Pad(n, w)) == Some(n)
  {
    PadValue(n, w);
    assert IsDigit(Pad(n, w)[0]);
  }

  // ---------------------------------------------------------------------------------------
  // `parse_date`

  /** `[int(x) for x in parts]`: left to right, the first segment `int` rejects raises. */
  function ParseAll(parts: seq<string>): Result<seq<int>>
    decreases |parts|
  {
    if parts == [] then Success([])
    else match ParseInt(parts[0])
      case None => Failure(InvalidLiteral(parts[0]))
      case Some(v) =>
        match ParseAll(parts[1..])
        case Failure(e) => Failure(e)
        case Success(vs) => Success([v] + vs)
  }

  /** `parse_date(date)`. */
  function ParseDate(date: string): Result<seq<int>> {
    ParseAll(Split(date, '-'))
  }

  /** The conversion succeeds exactly when every segment is an integer literal, giving one
      value per segment; otherwise it fails on the first segment that is not. */
  lemma {:induction false} ParseAllMeaning(parts: seq<string>)
    ensures ParseAll(parts).Success? <==> forall i :: 0 <= i < |parts| ==> ParseInt(parts[i]).Some?
    ensures ParseAll(parts).Success? ==>
              |ParseAll(parts).value| == |parts| &&
              forall i :: 0 <= i < |parts| ==> ParseInt(parts[i]) == Some(ParseAll(parts).value[i])
    ensures ParseAll(parts).Failure? ==>
              exists i :: 0 <= i < |parts| && ParseInt(parts[i]).None? &&
                          ParseAll(parts).error == InvalidLiteral(parts[i]) &&
                          forall j :: 0 <= j < i ==> ParseInt(parts[j]).Some?
    decreases |parts|
  {
    if parts != [] {
      ParseAllMeaning(parts[1..]);
      if ParseInt(parts[0]).Some? {
        if ParseAll(parts[1..]).Failure? {
          var i :| 0 <= i < |parts[1..]| && ParseInt(parts[1..][i]).None? &&
                   ParseAll(parts[1..]).error == InvalidLiteral(parts[1..][i]) &&
                   forall j :: 0 <= j < i ==> ParseInt(parts[1..][j]).Some?;
          assert parts[i + 1] == parts[1..][i];
          forall j | 0 <= j < i + 1 ensures ParseInt(parts[j]).Some? {
            if j > 0 {
              assert parts[j] == parts[1..][j - 1];
            }
          }
        } else {
          forall i | 0 <= i < |parts| ensures ParseInt(parts[i]).Some? {
            if i > 0 {
              assert parts[i] == parts[1..][i - 1];
            }
          }
        }
      }
    }
  }

  /** Appending converted segments: the result is that of the first part, then the second. */
  lemma {:induction false} ParseAllAppend(a: seq<string>, b: seq<string>)
    ensures ParseAll(a + b) ==
              match ParseAll(a)
              case Failure(e) => Failure(e)
              case Success(va) =>
                match ParseAll(b)
                case Failure(e) => Failure(e)
                case Success(vb) => Success(va + vb)
    decreases |a|
  {
    if a == [] {
      assert a + b == b;
      if ParseAll(b).Success? {
        assert [] + ParseAll(b).value == ParseAll(b).value;
      }
    } else {
      assert (a + b)[0] == a[0];
      assert (a + b)[1..] == a[1..] + b;
      ParseAllAppend(a[1..], b);
      if ParseAll(a).Success? && ParseAll(b).Success? {
        assert [ParseAll(a).value[0]] + (ParseAll(a[1..]).value + ParseAll(b).value) ==
               ([ParseAll(a).value[0]] + ParseAll(a[1..]).value) + ParseAll(b).value;
      }
    }
  }

  // ---------------------------------------------------------------------------------------
  // `datetime(year, month, day, 14, 0, 0)` and `strftime`

  predicate IsLeap(year: int) {
    year % 4 == 0 && (year % 100 != 0 || year % 400 == 0)
  }

  function DaysInMonth(year: int, month: int): int
    requires 1 <= month <= 12
  {
    if month == 2 then (if IsLeap(year) then 29 else 28)
    else if month == 4 || month == 6 || month == 9 || month == 11 then 30
    else 31
  }

  /** The arguments `datetime` accepts: `MINYEAR <= year <= MAXYEAR` and a day of that month. */
  predicate ValidDate(year: int, month: int, day: int) {
    1 <= year <= 9999 && 1 <= month <= 12 && 1 <= day <= DaysInMonth(year, month)
  }

  /** `"%Y-%m-%d"` of a date. */
  function IsoDate(year: nat, month: nat, day: nat): string {
    Pad(year, 4) + "-" + Pad(month, 2) + "-" + Pad(day, 2)
  }

  /** `"T%H:%M:%SZ"` at 14:00:00. */
  function IsoTime(): string {
    "T" + Pad(14, 2) + ":" + Pad(0, 2) + ":" + Pad(0, 2) + "Z"
  }

  /** A value `datetime`'s arguments accept before their ranges are looked at: a C `int`. */
  predicate IsCInt(v: int) {
    -0x8000_0000 <= v <= 0x7FFF_FFFF
  }

  /** `format_datetime(date)`. `int` runs on every segment before any is indexed, so a bad
      segment anywhere wins over a missing one. `datetime` first converts year, month and day
      to C `int`s, in that order, and only then checks the year, month and day ranges. */
  function FormatDatetime(date: string): Result<string> {
    match ParseDate(date)
    case Failure(e) => Failure(e)
    case Success(ns) =>
      if |ns| < 3 then Failure(MissingSegment(|ns|))
      else if !IsCInt(ns[0]) then Failure(IntOverflow("year"))
      else if !IsCInt(ns[1]) then Failure(IntOverflow("month"))
      else if !IsCInt(ns[2]) then Failure(IntOverflow("day"))
      else if !(1 <= ns[0] <= 9999) then Failure(OutOfRange("year"))
      else if !(1 <= ns[1] <= 12) then Failure(OutOfRange("month"))
      else if !(1 <= ns[2] <= DaysInMonth(ns[0], ns[1])) then Failure(OutOfRange("day"))
      else Success(IsoDate(ns[0], ns[1], ns[2]) + IsoTime())
  }

  lemma IsoTimeValue()
    ensures IsoTime() == "T14:00:00Z"
  {
    assert Digits(14) == "14" by {
      assert Digits(1) == "1";
    }
  }

  /** Three separator-free pieces joined by two separators split back into the three. */
  lemma SplitThree(a: string, b: string, c: string, sep: char)
    requires sep !in a && sep !in b && sep !in c
    ensures Split(a + [sep] + b + [sep] + c, sep) == [a, b, c]
  {
    SplitConcat(a + [sep] + b, c, sep);
    SplitConcat(a, b, sep);
    SplitSingle(a, sep);
    SplitSingle(b, sep);
    SplitSingle(c, sep);
  }

  lemma ParseThree(a: string, b: string, c: string, x: int, y: int, z: int)
    requires ParseInt(a) == Some(x) && ParseInt(b) == Some(y) && ParseInt(c) == Some(z)
    ensures ParseAll([a, b, c]) == Success([x, y, z])
  {
    assert [a, b, c][1..] == [b, c] && [b, c][1..] == [c] && [c][1..] == [];
    var none: seq<string> := [];
    assert ParseAll(none) == Success([]);
    assert [z] + [] == [z];
    assert ParseAll([c]) == Success([z]);
    assert [y] + [z] == [y, z];
    assert ParseAll([b, c]) == Success([y, z]);
    assert [x] + [y, z] == [x, y, z];
  }

  /** The segments of a printed date are its printed fields. */
  lemma IsoDateParts(year: nat, month: nat, day: nat)
    requires year < 10000 && month < 100 && day < 100
    ensures |IsoDate(year, month, day)| == 10
    ensures ParseDate(IsoDate(year, month, day)) == Success([year, month, day])
  {
    var y, m, d := Pad(year, 4), Pad(month, 2), Pad(day, 2);
    PadValue(year, 4);
    PadValue(month, 2);
    PadValue(day, 2);
    ParseIntPad(year, 4);
    ParseIntPad(month, 2);
    ParseIntPad(day, 2);
    assert '-' !in y && '-' !in m && '-' !in d;
    assert IsoDate(year, month, day) == y + ['-'] + m + ['-'] + d;
    SplitThree(y, m, d, '-');
    ParseThree(y, m, d, year, month, day);
  }

  /** On a valid date written `YYYY-MM-DD`, the result is the same date followed by
      `T14:00:00Z`. */
  lemma FormatCanonical(year: nat, month: nat, day: nat)
    requires ValidDate(year, month, day)
    ensures FormatDatetime(IsoDate(year, month, day)) == Success(IsoDate(year, month, day) + "T14:00:00Z")
  {
    IsoDateParts(year, month, day);
    IsoTimeValue();
  }

  /** Every result is 20 characters, `YYYY-MM-DD` then `T14:00:00Z`, built from the first three
      segments, which form a valid date; formatting the date part again gives the same result. */
  lemma FormatShape(date: string)
    requires FormatDatetime(date).Success?
    ensures ParseDate(date).Success? && |ParseDate(date).value| >= 3
    ensures var ns := ParseDate(date).value;
            ValidDate(ns[0], ns[1], ns[2]) &&
            FormatDatetime(date).value == IsoDate(ns[0], ns[1], ns[2]) + "T14:00:00Z"
    ensures |FormatDatetime(date).value| == 20
    ensures FormatDatetime(FormatDatetime(date).value[..10]) == FormatDatetime(date)
  {
    var ns := ParseDate(date).value;
    IsoTimeValue();
    IsoDateParts(ns[0], ns[1], ns[2]);
    var out := FormatDatetime(date).value;
    assert out[..10] == IsoDate(ns[0], ns[1], ns[2]);
    FormatCanonical(ns[0], ns[1], ns[2]);
  }

  /** The converse of FormatShape: whenever every segment is an integer, there are at least
      three, and the first three form a valid date, the result is that date printed as
      `YYYY-MM-DD` followed by `T14:00:00Z`, however the segments were written. */
  lemma FormatValid(date: string)
    requires ParseDate(date).Success? && |ParseDate(date).value| >= 3
    requires var ns := ParseDate(date).value; ValidDate(ns[0], ns[1], ns[2])
    ensures var ns := ParseDate(date).value;
            FormatDatetime(date) == Success(IsoDate(ns[0], ns[1], ns[2]) + "T14:00:00Z")
  {
    IsoTimeValue();
  }

  /** Unpadded segments format like padded ones. */
  lemma FormatUnpadded()
    ensures FormatDatetime("2024-3-5") == Success("2024-03-05T14:00:00Z")
  {
    ParseUnpadded();
    PrintedExample();
    FormatValid("2024-3-5");
  }

  lemma ParseUnpadded()
    ensures ParseDate("2024-3-5") == Success([2024, 3, 5])
  {
    assert "2024-3-5" == "2024" + ['-'] + "3" + ['-'] + "5";
    SplitThree("2024", "3", "5", '-');
    assert "2024"[..3] == "202" && "202"[..2] == "20" && "20"[..1] == "2" && "2"[..0] == [];
    assert "3"[..0] == [] && "5"[..0] == [];
    ParseThree("2024", "3", "5", 2024, 3, 5);
  }

  lemma PrintedExample()
    ensures IsoDate(2024, 3, 5) + "T14:00:00Z" == "2024-03-05T14:00:00Z"
  {
    PrintedYear();
    PrintedSmall(3);
    PrintedSmall(5);
    assert Digits(3) == "3" && Digits(5) == "5";
    assert IsoDate(2024, 3, 5) == "2024" + "-" + "03" + "-" + "05";
  }

  lemma PrintedYear()
    ensures Pad(2024, 4) == "2024"
  {
    assert Digits(2) == "2";
    assert Digits(20) == "20";
    assert Digits(202) == "202";
    assert Digits(2024) == "2024";
  }

  /** A one-digit value prints with one leading zero. */
  lemma PrintedSmall(n: nat)
    requires n < 10
    ensures Pad(n, 2) == "0" + Digits(n)
  {
    assert Zeros(1) == "0";
  }

  /** Fewer than three segments always fail: on the first non-integer segment if there is
      one, and otherwise on the first missing index. */
  lemma TooFewSegments(date: string)
    requires |Split(date, '-')| < 3
    ensures FormatDatetime(date).Failure?
    ensures ParseDate(date).Success? ==> FormatDatetime(date) == Failure(MissingSegment(|Split(date, '-')|))
  {
    ParseAllMeaning(Split(date, '-'));
  }

  /** A segment that is not an integer makes the whole call fail, wherever it is, with the
      first such segment. */
  lemma InvalidSegment(date: string, i: nat)
    requires i < |Split(date, '-')| && ParseInt(Split(date, '-')[i]).None?
    ensures FormatDatetime(date).Failure?
    ensures exists j :: 0 <= j <= i && ParseInt(Split(date, '-')[j]).None? &&
                        (forall l :: 0 <= l < j ==> ParseInt(Split(date, '-')[l]).Some?) &&
                        FormatDatetime(date) == Failure(InvalidLiteral(Split(date, '-')[j]))
  {
    ParseAllMeaning(Split(date, '-'));
  }

  /** A further integer segment is ignored; a further non-integer one still makes it fail. */
  lemma ExtraSegment(date: string, extra: string)
    requires '-' !in extra && ParseDate(date).Success? && |ParseDate(date).value| >= 3
    ensures ParseInt(extra).Some? ==> FormatDatetime(date + "-" + extra) == FormatDatetime(date)
    ensures ParseInt(extra).None? ==> FormatDatetime(date + "-" + extra) == Failure(InvalidLiteral(extra))
  {
    SplitConcat(date, extra, '-');
    SplitSingle(extra, '-');
    ParseAllAppend(Split(date, '-'), [extra]);
    assert [extra][1..] == [];
    var ns := ParseDate(date).value;
    if ParseInt(extra).Some? {
      var longer := ns + [ParseInt(extra).value];
      assert longer[0] == ns[0] && longer[1] == ns[1] && longer[2] == ns[2];
    }
  }
}
