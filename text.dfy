/**
 * Character-level helpers shared by the diff scanners: ASCII digits, the
 * decimal value of a digit run (Python's `int()` on a `\d+` group), the
 * decimal rendering that git uses for line numbers, and literal tests.
 */
module Text {

  predicate IsDigit(c: char) {
    '0' <= c <= '9'
  }

  predicate AllDigits(s: string) {
    forall i :: 0 <= i < |s| ==> IsDigit(s[i])
  }

  function DigitValue(c: char): (d: nat)
    requires IsDigit(c)
    ensures d < 10
  {
    (c as int) - ('0' as int)
  }

  function DigitChar(d: nat): (c: char)
    requires d < 10
    ensures IsDigit(c) && DigitValue(c) == d
  {
    (('0' as int) + d) as char
  }

  /** `s` holds the literal `lit` at position `i`. */
  predicate HasAt(s: string, i: nat, lit: string) {
    i + |lit| <= |s| && forall k :: 0 <= k < |lit| ==> s[i + k] == lit[k]
  }

  /** `HasAt` of a concatenation splits into its parts. */
  lemma {:induction false} HasAtSplit(s: string, i: nat, x: string, y: string)
    requires HasAt(s, i, x + y)
    ensures HasAt(s, i, x) && HasAt(s, i + |x|, y)
  {
    forall k | 0 <= k < |x| ensures s[i + k] == x[k] {
      assert (x + y)[k] == x[k];
    }
    forall k | 0 <= k < |y| ensures s[i + |x| + k] == y[k] {
      assert (x + y)[|x| + k] == y[k];
    }
  }

  /** Two literals found one after the other are found as their concatenation. */
  lemma {:induction false} HasAtJoin(s: string, i: nat, x: string, y: string)
    requires HasAt(s, i, x) && HasAt(s, i + |x|, y)
    ensures HasAt(s, i, x + y)
  {
    forall k | 0 <= k < |x + y| ensures s[i + k] == (x + y)[k] {
      if k >= |x| {
        assert s[i + |x| + (k - |x|)] == y[k - |x|];
      }
    }
  }

  /** A slice of `s` is found where it was taken. */
  lemma HasAtSlice(s: string, i: nat, j: nat)
    requires i <= j <= |s|
    ensures HasAt(s, i, s[i..j])
  {
  }

  /** An occurrence depends only on the text from its position on. */
  lemma HasAtSuffix(s: string, t: string, i: nat, j: nat, lit: string)
    requires i <= |s| && j <= |t| && s[i..] == t[j..] && HasAt(s, i, lit)
    ensures HasAt(t, j, lit)
  {
    forall k | 0 <= k < |lit| ensures t[j + k] == lit[k] {
      assert s[i..][k] == t[j..][k];
    }
  }

  /** Equal suffixes stay equal when both are shortened by the same amount. */
  lemma SuffixAdvance(s: string, t: string, i: nat, j: nat, k: nat)
    requires i <= |s| && j <= |t| && s[i..] == t[j..] && i + k <= |s|
    ensures j + k <= |t| && s[i + k..] == t[j + k..]
  {
    assert s[i + k..] == s[i..][k..];
    assert t[j + k..] == t[j..][k..];
  }

  /** Text put behind keeps every occurrence. */
  lemma HasAtExtend(a: string, t: string, i: nat, lit: string)
    requires HasAt(a, i, lit)
    ensures HasAt(a + t, i, lit)
  {
    forall k | 0 <= k < |lit| ensures (a + t)[i + k] == lit[k] {
      assert (a + t)[i + k] == a[i + k];
    }
  }

  /**
   * An occurrence of a one-line literal that begins in `a`, in front of a
   * newline, lies entirely in `a`.
   */
  lemma HasAtCut(a: string, t: string, i: nat, lit: string)
    requires HasAt(a + t, i, lit) && i <= |a| && '\n' !in lit
    requires t != [] && t[0] == '\n'
    ensures HasAt(a, i, lit)
  {
    if i + |lit| > |a| {
      NewlineInside(a, t, i, lit);
      assert false;
    }
    forall k | 0 <= k < |lit| ensures a[i + k] == lit[k] {
      assert (a + t)[i + k] == a[i + k];
    }
  }

  /** An occurrence reaching past the end of `a`, in front of a newline, holds that newline. */
  lemma NewlineInside(a: string, t: string, i: nat, lit: string)
    requires HasAt(a + t, i, lit) && i <= |a| < i + |lit|
    requires t != [] && t[0] == '\n'
    ensures '\n' in lit
  {
    assert lit[|a| - i] == (a + t)[i + (|a| - i)];
  }

  /** A digit run holds no newline. */
  lemma DigitsNoNewline(ds: string)
    requires AllDigits(ds)
    ensures '\n' !in ds
  {
  }

  /** End of the longest run of digits starting at `i` (a greedy `\d+`/`\d*`). */
  function DigitRunEnd(s: string, i: nat): (j: nat)
    requires i <= |s|
    ensures i <= j <= |s|
    ensures forall k :: i <= k < j ==> IsDigit(s[k])
    ensures j == |s| || !IsDigit(s[j])
    decreases |s| - i
  {
    if i < |s| && IsDigit(s[i]) then DigitRunEnd(s, i + 1) else i
  }

  /** The number a run of decimal digits denotes, most significant first. */
  function DecimalValue(ds: string): nat
    requires AllDigits(ds)
  {
    if ds == [] then 0
    else 10 * DecimalValue(ds[..|ds| - 1]) + DigitValue(ds[|ds| - 1])
  }

  /** The shortest decimal rendering of `n`. */
  function Decimal(n: nat): (ds: string)
    ensures |ds| >= 1 && AllDigits(ds)
  {
    if n < 10 then [DigitChar(n)] else Decimal(n / 10) + [DigitChar(n % 10)]
  }

  /** Reading back a rendered number gives the number. */
  lemma {:induction false} DecimalRoundTrip(n: nat)
    ensures DecimalValue(Decimal(n)) == n
  {
    if n >= 10 {
      var ds := Decimal(n);
      assert ds[..|ds| - 1] == Decimal(n / 10);
      DecimalRoundTrip(n / 10);
    }
  }

  /** A digit run that is followed by a non-digit is exactly what `DigitRunEnd` finds. */
  lemma {:induction false} DigitRunEndIs(s: string, i: nat, j: nat)
    requires i <= j <= |s|
    requires forall k :: i <= k < j ==> IsDigit(s[k])
    requires j == |s| || !IsDigit(s[j])
    ensures DigitRunEnd(s, i) == j
    decreases j - i
  {
    if i < j {
      DigitRunEndIs(s, i + 1, j);
    }
  }

  /** Number of occurrences of `c` in `s`. */
  function Count(s: string, c: char): (n: nat)
    ensures n <= |s|
    ensures n == 0 <==> c !in s
  {
    if s == [] then 0
    else Count(s[..|s| - 1], c) + (if s[|s| - 1] == c then 1 else 0)
  }

  lemma {:induction false} CountAppend(a: string, b: string, c: char)
    ensures Count(a + b, c) == Count(a, c) + Count(b, c)
    decreases |b|
  {
    if b != [] {
      assert (a + b)[..|a + b| - 1] == a + b[..|b| - 1];
      CountAppend(a, b[..|b| - 1], c);
    } else {
      assert a + b == a;
    }
  }
}
