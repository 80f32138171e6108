/** Python's ordering of `str` values, which `sorted(..., key=lambda row: row["Date"])` uses:
    lexicographic by code point, a proper prefix ordered first. */
module DateOrder {

  /** `a <= b` on Python strings. */
  predicate LexLe(a: string, b: string)
    decreases |a|
  {
    a == [] || (b != [] && (a[0] < b[0] || (a[0] == b[0] && LexLe(a[1..], b[1..]))))
  }

  /** `a < b` on Python strings. */
  predicate LexLt(a: string, b: string) {
    LexLe(a, b) && a != b
  }

  lemma {:induction false} LexLeRefl(a: string)
    ensures LexLe(a, a)
    decreases |a|
  {
    if a != [] {
      LexLeRefl(a[1..]);
    }
  }

  lemma {:induction false} LexLeTotal(a: string, b: string)
    ensures LexLe(a, b) || LexLe(b, a)
    decreases |a|
  {
    if a != [] && b != [] && a[0] == b[0] {
      LexLeTotal(a[1..], b[1..]);
    }
  }

  lemma {:induction false} LexLeAntisym(a: string, b: string)
    requires LexLe(a, b) && LexLe(b, a)
    ensures a == b
    decreases |a|
  {
    if a != [] && b != [] {
      LexLeAntisym(a[1..], b[1..]);
      assert a == [a[0]] + a[1..];
      assert b == [b[0]] + b[1..];
    }
  }

  lemma {:induction false} LexLeTrans(a: string, b: string, c: string)
    requires LexLe(a, b) && LexLe(b, c)
    ensures LexLe(a, c)
    decreases |a|
  {
    if a != [] && b != [] && c != [] && a[0] == b[0] && b[0] == c[0] {
      LexLeTrans(a[1..], b[1..], c[1..]);
    }
  }

  /** A strict step after a non-strict one is strict. */
  lemma {:induction false} LexLeLt(a: string, b: string, c: string)
    requires LexLe(a, b) && LexLt(b, c)
    ensures LexLt(a, c)
  {
    LexLeTrans(a, b, c);
    if a == c {
      LexLeAntisym(b, c);
    }
  }

  /** Not `a <= b` means `b < a`. */
  lemma {:induction false} LexNotLe(a: string, b: string)
    requires !LexLe(a, b)
    ensures LexLt(b, a)
  {
    LexLeTotal(a, b);
    if a == b {
      LexLeRefl(a);
    }
  }
}
