/**
 * The hunk-header scanner of relint/parse.py: `parse_line_numbers` finds every
 * non-overlapping occurrence of `@ -\d+(,\d+)? \+(\d+)(,)?(\d+)? @` in the
 * text, left to right, and expands each into the new-side line numbers.
 *
 * The pattern is modelled as a scanner over positions. It is deterministic:
 * at every branch point of the pattern exactly one way can lead to a match
 * (a digit run is only ever followed by `,` or ` `), so the greedy choice
 * the regular-expression engine tries first is the only one that can succeed.
 */
module Hunks {
  import opened Wrappers
  import opened Text

  /** One hunk header: the new-side start line and the optional new-side count. */
  datatype Hunk = Hunk(start: nat, count: Option<nat>)

  /** A hunk header found in the text, with the position just after it. */
  datatype Found = Found(hunk: Hunk, end: nat)

  // ---------------------------------------------------------------------
  // The text a match covers

  /** An old-side count part, `(,\d+)?`: nothing, or a comma and a digit run. */
  predicate IsCountText(c: string) {
    c == [] || (|c| >= 2 && c[0] == ',' && AllDigits(c[1..]))
  }

  /**
   * A new-side count part, `(,)?(\d+)?` after the greedy start digits:
   * nothing, a lone comma, or a comma and a digit run.
   */
  predicate IsNewCountText(c: string) {
    c == [] || (c[0] == ',' && AllDigits(c[1..]))
  }

  /** The count a new-side count part denotes: absent unless digits follow the comma. */
  function CountOf(c: string): Option<nat>
    requires IsNewCountText(c)
  {
    if |c| <= 1 then None else Some(DecimalValue(c[1..]))
  }

  /** `@ -<d1><c1> +`: the old side and the sign of the new side. */
  function OldSideText(d1: string, c1: string): string {
    "@ -" + (d1 + (c1 + " +"))
  }

  /** `<d2><c2> @`: the new side and the closing `@`. */
  function NewSideText(d2: string, c2: string): string {
    d2 + (c2 + " @")
  }

  /** `@ -<d1><c1> +<d2><c2> @`: the text the hunk pattern matches, from its parts. */
  function CoreText(d1: string, c1: string, d2: string, c2: string): string {
    OldSideText(d1, c1) + NewSideText(d2, c2)
  }

  /** Parts the hunk pattern accepts: non-empty digit runs and count parts. */
  predicate CoreParts(d1: string, c1: string, d2: string, c2: string) {
    && |d1| > 0 && AllDigits(d1) && IsCountText(c1)
    && |d2| > 0 && AllDigits(d2) && IsNewCountText(c2)
  }

  /** An old side written at `i`. */
  predicate OldSideAt(s: string, i: nat, d1: string, c1: string) {
    |d1| > 0 && AllDigits(d1) && IsCountText(c1) && HasAt(s, i, OldSideText(d1, c1))
  }

  /** A new-side count part and the closing ` @` written at `c`. */
  predicate CountAt(s: string, c: nat, c2: string) {
    IsNewCountText(c2) && HasAt(s, c, c2 + " @")
  }

  /** A whole match written at `i`. */
  predicate CoreAt(s: string, i: nat, d1: string, c1: string, d2: string, c2: string) {
    CoreParts(d1, c1, d2, c2) && HasAt(s, i, CoreText(d1, c1, d2, c2))
  }

  /** `end` is just past an old side written at `i`. */
  ghost predicate ReadsOldSide(s: string, i: nat, end: nat) {
    exists d1, c1 :: OldSideAt(s, i, d1, c1) && end == i + |OldSideText(d1, c1)|
  }

  /** `r` is the count, and the position after the `@`, of a count part written at `c`. */
  ghost predicate ReadsCount(s: string, c: nat, r: (Option<nat>, nat)) {
    exists c2 :: CountAt(s, c, c2) && r == (CountOf(c2), c + |c2| + 2)
  }

  /** `f` is the new side, and the end, of a whole match written at `i`. */
  ghost predicate ReadsCore(s: string, i: nat, f: Found) {
    exists d1, c1, d2, c2 :: CoreAt(s, i, d1, c1, d2, c2) &&
      f == Found(Hunk(DecimalValue(d2), CountOf(c2)), i + |CoreText(d1, c1, d2, c2)|)
  }

  // ---------------------------------------------------------------------
  // The scanner

  /**
   * `@ -\d+(,\d+)? \+` at position `i`: the position just after the `+`.
   * What it accepts is an old side written at `i`; `OldSideRead` is the
   * converse.
   */
  function OldSideEnd(s: string, i: nat): (r: Option<nat>)
    requires i <= |s|
    ensures r.Some? ==> i + 6 <= r.value <= |s|
  {
    if !HasAt(s, i, "@ -") then None
    else
      var a := DigitRunEnd(s, i + 3);
      if a == i + 3 then None
      else
        // the optional `,\d+`: a comma not followed by a digit fails the match
        var b := if a < |s| && s[a] == ',' then DigitRunEnd(s, a + 1) else a;
        if b == a + 1 || !HasAt(s, b, " +") then None
        else Some(b + 2)
  }

  /**
   * `(,)?(\d+)? @` at position `c`: the count read and the position after
   * the `@`. What it accepts is a count part and ` @` written at `c`, and
   * the count is the one that part denotes; `CountRead` is the converse.
   */
  function CountEnd(s: string, c: nat): (r: Option<(Option<nat>, nat)>)
    requires c <= |s|
    ensures r.Some? ==> c + 2 <= r.value.1 <= |s|
  {
    if c < |s| && s[c] == ',' then
      // the count group is absent when no digit follows the comma
      var d := DigitRunEnd(s, c + 1);
      if HasAt(s, d, " @") then
        Some((if d == c + 1 then None else Some(DecimalValue(s[c + 1..d])), d + 2))
      else None
    else if HasAt(s, c, " @") then Some((None, c + 2))
    else None
  }

  /**
   * The match of the hunk pattern that begins exactly at position `i`, if
   * any. A match is a header core written at `i`, and it yields that core's
   * new-side start and count; `ScanCoreText` is the converse.
   */
  function ScanHunk(s: string, i: nat): (r: Option<Found>)
    requires i <= |s|
    ensures r.Some? ==> i < r.value.end <= |s|
  {
    match OldSideEnd(s, i)
    case None => None
    case Some(c0) =>
      var c := DigitRunEnd(s, c0);
      if c == c0 then None
      else match CountEnd(s, c)
        case None => None
        case Some((count, end)) =>
          Some(Found(Hunk(DecimalValue(s[c0..c]), count), end))
  }

  /**
   * `finditer` from position `i`: after a match, the search resumes where
   * it ended. `HunksFromSound` shows every hunk it reports is read by a
   * match at some position from `i` on.
   */
  function HunksFrom(s: string, i: nat): (r: seq<Hunk>)
    requires i <= |s|
    ensures |r| <= |s| - i
    decreases |s| - i
  {
    if i == |s| then []
    else match ScanHunk(s, i)
      case Some(f) =>
        [f.hunk] + HunksFrom(s, f.end)
      case None => HunksFrom(s, i + 1)
  }

  /** Every hunk the scan from `i` reports is read by a match that begins at some position from `i` on. */
  lemma {:induction false} HunksFromSound(s: string, i: nat)
    requires i <= |s|
    ensures forall k :: 0 <= k < |HunksFrom(s, i)| ==> ReadFrom(s, i, HunksFrom(s, i)[k])
    decreases |s| - i
  {
    if i < |s| {
      match ScanHunk(s, i)
      case Some(f) =>
        HunksFromSound(s, f.end);
        var rest := HunksFrom(s, f.end);
        assert HunksFrom(s, i) == [f.hunk] + rest;
        assert ReadFrom(s, i, f.hunk);
        forall k | 0 < k < 1 + |rest| ensures ReadFrom(s, i, HunksFrom(s, i)[k]) {
          assert HunksFrom(s, i)[k] == rest[k - 1];
          var p :| f.end <= p < |s| && ScanHunk(s, p).Some? && ScanHunk(s, p).value.hunk == rest[k - 1];
        }
      case None =>
        HunksFromSound(s, i + 1);
        forall k | 0 <= k < |HunksFrom(s, i)| ensures ReadFrom(s, i, HunksFrom(s, i)[k]) {
          var p :| i + 1 <= p < |s| && ScanHunk(s, p).Some? && ScanHunk(s, p).value.hunk == HunksFrom(s, i)[k];
        }
    }
  }

  /** The scan stops at the end of the text. */
  lemma HunksFromEnd(s: string)
    ensures HunksFrom(s, |s|) == []
  {
  }

  /** A match at `i` is reported, and the scan resumes where it ends. */
  lemma HunksFromMatch(s: string, i: nat)
    requires i < |s| && ScanHunk(s, i).Some?
    ensures HunksFrom(s, i) == [ScanHunk(s, i).value.hunk] + HunksFrom(s, ScanHunk(s, i).value.end)
  {
  }

  /** Without a match at `i`, the scan moves on by one position. */
  lemma HunksFromNoMatch(s: string, i: nat)
    requires i < |s| && ScanHunk(s, i).None?
    ensures HunksFrom(s, i) == HunksFrom(s, i + 1)
  {
  }

  /** `h` is read by a match that begins at some position from `i` on. */
  ghost predicate ReadFrom(s: string, i: nat, h: Hunk) {
    exists p :: i <= p < |s| && ScanHunk(s, p).Some? && ScanHunk(s, p).value.hunk == h
  }

  /** What `OldSideEnd` accepted is an old side written at `i`. */
  lemma OldSideFound(s: string, i: nat, a: nat, b: nat)
    requires HasAt(s, i, "@ -") && i + 3 < a <= b <= |s| && HasAt(s, b, " +")
    requires forall k :: i + 3 <= k < a ==> IsDigit(s[k])
    requires b == a || (s[a] == ',' && b > a + 1 && forall k :: a < k < b ==> IsDigit(s[k]))
    ensures ReadsOldSide(s, i, b + 2)
  {
    var d1 := s[i + 3..a];
    var c1 := s[a..b];
    assert AllDigits(d1) by {
      forall k | 0 <= k < |d1| ensures IsDigit(d1[k]) {
        assert d1[k] == s[i + 3 + k];
      }
    }
    assert IsCountText(c1) by {
      if b > a {
        forall k | 0 <= k < |c1[1..]| ensures IsDigit(c1[1..][k]) {
          assert c1[1..][k] == s[a + 1 + k];
        }
      }
    }
    HasAtSlice(s, a, b);
    HasAtJoin(s, a, c1, " +");
    HasAtSlice(s, i + 3, a);
    HasAtJoin(s, i + 3, d1, c1 + " +");
    HasAtJoin(s, i, "@ -", d1 + (c1 + " +"));
    assert OldSideAt(s, i, d1, c1);
  }

  /** What `CountEnd` accepted is a count part and ` @` written at `c`. */
  lemma CountFound(s: string, c: nat, d: nat)
    requires c <= d <= |s| && HasAt(s, d, " @")
    requires d == c || (s[c] == ',' && forall k :: c < k < d ==> IsDigit(s[k]))
    ensures d <= c + 1 ==> ReadsCount(s, c, (None, d + 2))
    ensures d > c + 1 ==> ReadsCount(s, c, (Some(DecimalValue(s[c + 1..d])), d + 2))
  {
    var c2 := s[c..d];
    if d > c {
      DigitSlice(s, c + 1, d);
      assert c2[1..] == s[c + 1..d];
    }
    assert IsNewCountText(c2);
    HasAtSlice(s, c, d);
    HasAtJoin(s, c, c2, " @");
    assert CountAt(s, c, c2);
  }

  /** Digits at every position from `i` to `j` make the slice between them a digit run. */
  lemma DigitSlice(s: string, i: nat, j: nat)
    requires i <= j <= |s| && forall k :: i <= k < j ==> IsDigit(s[k])
    ensures AllDigits(s[i..j])
  {
    forall k | 0 <= k < j - i ensures IsDigit(s[i..j][k]) {
      assert s[i..j][k] == s[i + k];
    }
  }

  /** What `ScanHunk` accepted is a whole header core written at `i`. */
  lemma CoreFound(s: string, i: nat, c0: nat, c: nat, count: Option<nat>, end: nat)
    requires ReadsOldSide(s, i, c0)
    requires c0 < c <= |s| && AllDigits(s[c0..c])
    requires ReadsCount(s, c, (count, end))
    ensures ReadsCore(s, i, Found(Hunk(DecimalValue(s[c0..c]), count), end))
  {
    var d1, c1 :| OldSideAt(s, i, d1, c1) && c0 == i + |OldSideText(d1, c1)|;
    var c2 :| CountAt(s, c, c2) && (count, end) == (CountOf(c2), c + |c2| + 2);
    CoreJoin(s, i, d1, c1, c0, c, c2);
  }

  /** An old side, a digit run and a count part written one after another make a whole match. */
  lemma CoreJoin(s: string, i: nat, d1: string, c1: string, c0: nat, c: nat, c2: string)
    requires OldSideAt(s, i, d1, c1) && c0 == i + |OldSideText(d1, c1)|
    requires c0 < c <= |s| && AllDigits(s[c0..c]) && CountAt(s, c, c2)
    ensures CoreAt(s, i, d1, c1, s[c0..c], c2)
    ensures i + |CoreText(d1, c1, s[c0..c], c2)| == c + |c2| + 2
  {
    var d2 := s[c0..c];
    HasAtSlice(s, c0, c);
    HasAtJoin(s, c0, d2, c2 + " @");
    HasAtJoin(s, i, OldSideText(d1, c1), NewSideText(d2, c2));
  }

  /** What `OldSideEnd` accepts is an old side written at `i`: the converse of `OldSideRead`. */
  lemma OldSideSound(s: string, i: nat)
    requires i <= |s| && OldSideEnd(s, i).Some?
    ensures ReadsOldSide(s, i, OldSideEnd(s, i).value)
  {
    var a := DigitRunEnd(s, i + 3);
    var b := if a < |s| && s[a] == ',' then DigitRunEnd(s, a + 1) else a;
    OldSideFound(s, i, a, b);
  }

  /**
   * What `CountEnd` accepts is a count part and ` @` written at `c`, and
   * the count it reads is the one that part denotes: the converse of `CountRead`.
   */
  lemma CountSound(s: string, c: nat)
    requires c <= |s| && CountEnd(s, c).Some?
    ensures ReadsCount(s, c, CountEnd(s, c).value)
  {
    if c < |s| && s[c] == ',' {
      CommaCountSound(s, c);
    } else {
      CountFound(s, c, c);
    }
  }

  lemma CommaCountSound(s: string, c: nat)
    requires c < |s| && s[c] == ',' && CountEnd(s, c).Some?
    ensures ReadsCount(s, c, CountEnd(s, c).value)
  {
    var d := DigitRunEnd(s, c + 1);
    CountFound(s, c, d);
  }

  /**
   * Every match `ScanHunk` reports is a header core written at `i`, and the
   * hunk is that core's new-side start and count: the converse of `ScanCoreText`.
   */
  lemma ScanHunkSound(s: string, i: nat)
    requires i <= |s| && ScanHunk(s, i).Some?
    ensures ReadsCore(s, i, ScanHunk(s, i).value)
  {
    var c0 := OldSideEnd(s, i).value;
    var c := DigitRunEnd(s, c0);
    OldSideSound(s, i);
    CountSound(s, c);
    DigitSlice(s, c0, c);
    var (count, end) := CountEnd(s, c).value;
    CoreFound(s, i, c0, c, count, end);
  }

  /** `range(start, start + n)`: `n` increasing numbers, exactly those from `start` below `start + n`. */
  function Range(start: nat, n: nat): (r: seq<nat>)
    ensures |r| == n
    ensures forall x :: x in r <==> start <= x < start + n
    ensures forall i, j :: 0 <= i < j < |r| ==> r[i] < r[j]
  {
    if n == 0 then []
    else
      var init := Range(start, n - 1);
      assert forall i :: 0 <= i < |init| ==> init[i] in init;
      init + [start + n - 1]
  }

  /** The `i`-th number of `range(start, start + n)` is `start + i`. */
  lemma {:induction false} RangeAt(start: nat, n: nat, i: nat)
    requires i < n
    ensures Range(start, n)[i] == start + i
  {
    if i < n - 1 {
      RangeAt(start, n - 1, i);
    }
  }

  /** The line numbers one hunk header contributes. */
  function Added(h: Hunk): seq<nat> {
    match h.count
    case Some(n) => Range(h.start, n)
    case None => [h.start]
  }

  /** Whether a hunk header's added range covers line `x`. */
  predicate Covers(h: Hunk, x: nat) {
    match h.count
    case Some(n) => h.start <= x < h.start + n
    case None => x == h.start
  }

  /** Number of lines a hunk header contributes: its count, or one when the count is absent. */
  function Size(h: Hunk): nat {
    match h.count
    case Some(n) => n
    case None => 1
  }

  /** The added lines of a sequence of hunks, concatenated in order. */
  function AddedLines(hs: seq<Hunk>): seq<nat> {
    if hs == [] then [] else AddedLines(hs[..|hs| - 1]) + Added(hs[|hs| - 1])
  }

  function TotalSize(hs: seq<Hunk>): nat {
    if hs == [] then 0 else TotalSize(hs[..|hs| - 1]) + Size(hs[|hs| - 1])
  }

  /** What `parse_line_numbers` returns for `output`. */
  function HunkLineNumbers(output: string): seq<nat> {
    AddedLines(HunksFrom(output, 0))
  }

  /** parse_line_numbers: finds the hunk matches, then collects each one's lines. */
  method ParseLineNumbers(output: string) returns (lineNumbers: seq<nat>)
    ensures lineNumbers == HunkLineNumbers(output)
  {
    var matches := HunksFrom(output, 0);
    lineNumbers := CollectLines(matches);
  }

  /** The loop of parse_line_numbers: extends the list with each match's lines, in order. */
  method CollectLines(matches: seq<Hunk>) returns (lineNumbers: seq<nat>)
    ensures lineNumbers == AddedLines(matches)
  {
    lineNumbers := [];
    for k := 0 to |matches|
      invariant lineNumbers == AddedLines(matches[..k])
    {
      var h := matches[k];
      assert matches[..k + 1][..k] == matches[..k];
      match h.count {
        case Some(n) =>
          lineNumbers := lineNumbers + Range(h.start, n);
        case None =>
          lineNumbers := lineNumbers + [h.start];
      }
    }
    assert matches[..|matches|] == matches;
  }

  // ---------------------------------------------------------------------
  // Properties of the line numbers

  /** The output has one entry per line of each hunk: its count, or one when absent. */
  lemma {:induction false} AddedLinesLength(hs: seq<Hunk>)
    ensures |AddedLines(hs)| == TotalSize(hs)
  {
    if hs != [] {
      AddedLinesLength(hs[..|hs| - 1]);
    }
  }

  /** A line number is reported exactly when some hunk header found in the text covers it. */
  lemma {:induction false} AddedLinesMembership(hs: seq<Hunk>, x: nat)
    ensures x in AddedLines(hs) <==> exists h :: h in hs && Covers(h, x)
  {
    if hs != [] {
      var last := hs[|hs| - 1];
      var init := hs[..|hs| - 1];
      assert hs == init + [last];
      AddedLinesMembership(init, x);
      assert x in Added(last) <==> Covers(last, x);
      if Covers(last, x) {
        assert last in hs;
      }
      if exists h :: h in init && Covers(h, x) {
        var h :| h in init && Covers(h, x);
        assert h in hs;
      }
    }
  }

  lemma {:induction false} LineNumbersCharacterised(output: string, x: nat)
    ensures x in HunkLineNumbers(output) <==> exists h :: h in HunksFrom(output, 0) && Covers(h, x)
    ensures |HunkLineNumbers(output)| == TotalSize(HunksFrom(output, 0))
  {
    AddedLinesMembership(HunksFrom(output, 0), x);
    AddedLinesLength(HunksFrom(output, 0));
  }

  /** No `@` in `s[i..j]`, checked one character at a time. */
  predicate NoAtIn(s: string, i: nat, j: nat)
    requires i <= j <= |s|
    decreases j - i
  {
    i == j || (s[i] != '@' && NoAtIn(s, i + 1, j))
  }

  /** `NoAtIn` holds exactly when no character of `s[i..j]` is an `@`. */
  lemma {:induction false} NoAtInOf(s: string, i: nat, j: nat)
    requires i <= j <= |s| && forall k :: i <= k < j ==> s[k] != '@'
    ensures NoAtIn(s, i, j)
    decreases j - i
  {
    if i < j {
      NoAtInOf(s, i + 1, j);
    }
  }

  lemma {:induction false} NoAtInChar(s: string, i: nat, j: nat, k: nat)
    requires i <= k < j <= |s| && NoAtIn(s, i, j)
    ensures s[k] != '@'
    decreases k - i
  {
    if i < k {
      NoAtInChar(s, i + 1, j, k);
    }
  }

  /** No `@` after position `i`. */
  predicate NoAtAfter(s: string, i: nat) {
    forall k :: i < k < |s| ==> s[k] != '@'
  }

  /** No hunk can begin where no `@` follows. */
  lemma {:induction false} NoHunksWithoutAt(s: string, i: nat)
    requires i <= |s| && NoAtAfter(s, i)
    ensures HunksFrom(s, i) == []
  {
    if i < |s| {
      NoAtInOf(s, i + 1, |s|);
      NoHunksAtFree(s, i);
    } else {
      HunksFromEnd(s);
    }
  }

  lemma {:induction false} NoHunksAtFree(s: string, i: nat)
    requires i < |s| && NoAtIn(s, i + 1, |s|)
    ensures HunksFrom(s, i) == []
    decreases |s| - i
  {
    NoScanAtFree(s, i);
    HunksFromNoMatch(s, i);
    if i + 1 < |s| {
      NoHunksAtFree(s, i + 1);
    } else {
      HunksFromEnd(s);
    }
  }

  /** A match needs a closing `@` after its start. */
  lemma NoScanAtFree(s: string, i: nat)
    requires i < |s| && NoAtIn(s, i + 1, |s|)
    ensures ScanHunk(s, i).None?
  {
    if ScanHunk(s, i).Some? {
      ScanHunkClosesWithAt(s, i);
      NoAtInChar(s, i + 1, |s|, ScanHunk(s, i).value.end - 1);
      assert false;
    }
  }

  // ---------------------------------------------------------------------
  // The converse: what git writes is read back

  /** `,<n>` when a count is given, nothing otherwise. */
  function CountSuffix(count: Option<nat>): string {
    match count
    case Some(n) => "," + Decimal(n)
    case None => ""
  }

  /** The part of `@@ -o[,oc] +n[,nc] @@` that the hunk pattern matches. */
  function HunkCore(oldStart: nat, oldCount: Option<nat>, h: Hunk): string {
    CoreText(Decimal(oldStart), CountSuffix(oldCount), Decimal(h.start), CountSuffix(h.count))
  }

  /**
   * A hunk header line as git writes it, `@@ -o[,oc] +n[,nc] @@`, followed
   * by `context`: the rest of the line and whatever comes after it.
   */
  function HunkHeaderLine(oldStart: nat, oldCount: Option<nat>, h: Hunk, context: string): string {
    "@" + HunkCore(oldStart, oldCount, h) + "@" + context
  }

  /** A digit run followed by a non-digit, as it sits in `s`. */
  lemma {:induction false} DigitsAt(s: string, i: nat, ds: string)
    requires AllDigits(ds) && HasAt(s, i, ds)
    requires i + |ds| < |s| && !IsDigit(s[i + |ds|])
    ensures DigitRunEnd(s, i) == i + |ds|
    ensures s[i..i + |ds|] == ds
  {
    forall k | i <= k < i + |ds| ensures IsDigit(s[k]) {
      assert s[i + (k - i)] == ds[k - i];
    }
    DigitRunEndIs(s, i, i + |ds|);
    assert s[i..i + |ds|] == ds by {
      forall k | 0 <= k < |ds| ensures s[i..i + |ds|][k] == ds[k] {
        assert s[i + k] == ds[k];
      }
    }
  }

  /** A non-empty count part followed by a space: the comma, and the digit run up to the space. */
  lemma {:induction false} CountTextAt(s: string, c: nat, c2: string)
    requires IsNewCountText(c2) && c2 != [] && HasAt(s, c, c2)
    requires c + |c2| < |s| && s[c + |c2|] == ' '
    ensures c < |s| && s[c] == ','
    ensures DigitRunEnd(s, c + 1) == c + |c2|
    ensures s[c + 1..c + |c2|] == c2[1..]
  {
    HasAtSplit(s, c, [c2[0]], c2[1..]);
    assert s[c + 0] == c2[0];
    DigitsAt(s, c + 1, c2[1..]);
  }

  /** An old side written at `i` is accepted, and the scan goes on after its `+`. */
  lemma {:induction false} OldSideRead(s: string, i: nat, d1: string, c1: string)
    requires OldSideAt(s, i, d1, c1)
    ensures OldSideEnd(s, i) == Some(i + |OldSideText(d1, c1)|)
  {
    var a := i + 3 + |d1|;
    HasAtSplit(s, i, "@ -", d1 + (c1 + " +"));
    HasAtSplit(s, i + 3, d1, c1 + " +");
    HasAtSplit(s, a, c1, " +");
    assert s[a + |c1| + 0] == " +"[0];
    if c1 != [] {
      assert s[a + 0] == c1[0] == ',';
      DigitsAt(s, i + 3, d1);
      CountTextAt(s, a, c1);
    } else {
      DigitsAt(s, i + 3, d1);
    }
  }

  /** A count part and ` @` written at `c` read back as the count that part denotes. */
  lemma {:induction false} CountRead(s: string, c: nat, c2: string)
    requires CountAt(s, c, c2)
    ensures CountEnd(s, c) == Some((CountOf(c2), c + |c2| + 2))
  {
    HasAtSplit(s, c, c2, " @");
    assert s[c + |c2| + 0] == " @"[0];
    if c2 != [] {
      CountTextAt(s, c, c2);
      var d := DigitRunEnd(s, c + 1);
      assert d == c + |c2| && HasAt(s, d, " @");
      if |c2| > 1 {
        assert s[c + 1..d] == c2[1..];
      }
    } else {
      assert !(c < |s| && s[c] == ',');
    }
  }

  /**
   * The scanner reads the new side of a header core written at `i`,
   * whatever its old side: the converse of `ScanHunk`'s contract.
   */
  lemma {:induction false} ScanCoreText(s: string, i: nat, d1: string, c1: string, d2: string, c2: string)
    requires CoreAt(s, i, d1, c1, d2, c2)
    ensures ScanHunk(s, i) == Some(Found(Hunk(DecimalValue(d2), CountOf(c2)), i + |CoreText(d1, c1, d2, c2)|))
  {
    var c0 := i + |OldSideText(d1, c1)|;
    HasAtSplit(s, i, OldSideText(d1, c1), NewSideText(d2, c2));
    OldSideRead(s, i, d1, c1);
    NewSideRead(s, c0, d2, c2);
    assert |CoreText(d1, c1, d2, c2)| == |OldSideText(d1, c1)| + |NewSideText(d2, c2)|;
  }

  /** The new side written at `c0`: its start digits, then its count part and ` @`. */
  lemma {:induction false} NewSideRead(s: string, c0: nat, d2: string, c2: string)
    requires |d2| > 0 && AllDigits(d2) && IsNewCountText(c2) && HasAt(s, c0, NewSideText(d2, c2))
    ensures c0 + |d2| <= |s| && DigitRunEnd(s, c0) == c0 + |d2|
    ensures DecimalValue(s[c0..c0 + |d2|]) == DecimalValue(d2)
    ensures CountEnd(s, c0 + |d2|) == Some((CountOf(c2), c0 + |NewSideText(d2, c2)|))
  {
    HasAtSplit(s, c0, d2, c2 + " @");
    HasAtSplit(s, c0 + |d2|, c2, " @");
    if c2 != [] {
      assert s[c0 + |d2| + 0] == c2[0];
    } else {
      assert s[c0 + |d2| + 0] == " @"[0];
    }
    DigitsAt(s, c0, d2);
    CountRead(s, c0 + |d2|, c2);
  }

  /** Rendered counts are well-formed count parts that read back as the count. */
  lemma CountSuffixRoundTrip(count: Option<nat>)
    ensures IsCountText(CountSuffix(count)) && CountOf(CountSuffix(count)) == count
  {
    if count.Some? {
      var c := CountSuffix(count);
      assert c[1..] == Decimal(count.value);
      DecimalRoundTrip(count.value);
    }
  }

  // ---------------------------------------------------------------------
  // Matches do not depend on the text around them

  lemma CountNoNewline(c: string)
    requires IsNewCountText(c)
    ensures '\n' !in c
  {
    if c != [] {
      DigitsNoNewline(c[1..]);
      assert c == [c[0]] + c[1..];
    }
  }

  /** A header core lies on one line. */
  lemma CoreNoNewline(d1: string, c1: string, d2: string, c2: string)
    requires CoreParts(d1, c1, d2, c2)
    ensures '\n' !in CoreText(d1, c1, d2, c2)
  {
    DigitsNoNewline(d1);
    DigitsNoNewline(d2);
    CountNoNewline(c1);
    CountNoNewline(c2);
  }

  /**
   * A match depends only on the text from its position on: the same
   * suffix is read the same wherever it stands.
   */
  lemma ScanHunkSuffix(s: string, t: string, i: nat, j: nat)
    requires i <= |s| && j <= |t| && s[i..] == t[j..] && ScanHunk(s, i).Some?
    ensures ScanHunk(t, j).Some?
    ensures ScanHunk(t, j).value.hunk == ScanHunk(s, i).value.hunk
    ensures ScanHunk(t, j).value.end - j == ScanHunk(s, i).value.end - i
  {
    ScanHunkSound(s, i);
    var d1, c1, d2, c2 :| CoreAt(s, i, d1, c1, d2, c2) &&
      ScanHunk(s, i).value == Found(Hunk(DecimalValue(d2), CountOf(c2)), i + |CoreText(d1, c1, d2, c2)|);
    HasAtSuffix(s, t, i, j, CoreText(d1, c1, d2, c2));
    ScanCoreText(t, j, d1, c1, d2, c2);
  }

  /** A match that begins before a newline ends before it: text after the newline does not matter. */
  lemma {:induction false} ScanHunkCut(a: string, t: string, i: nat)
    requires i <= |a| && t != [] && t[0] == '\n'
    ensures ScanHunk(a + t, i) == ScanHunk(a, i)
  {
    if ScanHunk(a, i).Some? {
      ScanHunkSound(a, i);
      var d1, c1, d2, c2 :| CoreAt(a, i, d1, c1, d2, c2) &&
        ScanHunk(a, i).value == Found(Hunk(DecimalValue(d2), CountOf(c2)), i + |CoreText(d1, c1, d2, c2)|);
      HasAtExtend(a, t, i, CoreText(d1, c1, d2, c2));
      ScanCoreText(a + t, i, d1, c1, d2, c2);
    } else if ScanHunk(a + t, i).Some? {
      ScanHunkSound(a + t, i);
      var d1, c1, d2, c2 :| CoreAt(a + t, i, d1, c1, d2, c2);
      CoreNoNewline(d1, c1, d2, c2);
      HasAtCut(a, t, i, CoreText(d1, c1, d2, c2));
      ScanCoreText(a, i, d1, c1, d2, c2);
      assert false;
    }
  }

  /** Two scans that read the same hunk go on to report the same, if they do from where it ends. */
  lemma HunksFromSameMatch(s: string, t: string, i: nat, j: nat)
    requires i < |s| && j < |t| && ScanHunk(s, i).Some? && ScanHunk(t, j).Some?
    requires ScanHunk(s, i).value.hunk == ScanHunk(t, j).value.hunk
    requires HunksFrom(s, ScanHunk(s, i).value.end) == HunksFrom(t, ScanHunk(t, j).value.end)
    ensures HunksFrom(s, i) == HunksFrom(t, j)
  {
    HunksFromMatch(s, i);
    HunksFromMatch(t, j);
  }

  /** The scan from a position depends only on the text from there on. */
  lemma {:induction false} HunksFromSuffix(s: string, t: string, i: nat, j: nat)
    requires i <= |s| && j <= |t| && s[i..] == t[j..]
    ensures HunksFrom(s, i) == HunksFrom(t, j)
    decreases |s| - i
  {
    assert |s| - i == |t| - j;
    if i == |s| {
      HunksFromEnd(s);
      HunksFromEnd(t);
    } else if ScanHunk(s, i).Some? {
      ScanHunkSuffix(s, t, i, j);
      var es := ScanHunk(s, i).value.end;
      var et := ScanHunk(t, j).value.end;
      SuffixAdvance(s, t, i, j, es - i);
      HunksFromSuffix(s, t, es, et);
      HunksFromSameMatch(s, t, i, j);
    } else {
      SuffixAdvance(s, t, i, j, 1);
      HunksFromSuffix(s, t, i + 1, j + 1);
      SuffixNoMatch(s, t, i, j);
    }
  }

  lemma SuffixNoMatch(s: string, t: string, i: nat, j: nat)
    requires i < |s| && j < |t| && s[i..] == t[j..] && ScanHunk(s, i).None?
    requires HunksFrom(s, i + 1) == HunksFrom(t, j + 1)
    ensures HunksFrom(s, i) == HunksFrom(t, j)
  {
    if ScanHunk(t, j).Some? {
      ScanHunkSuffix(t, s, j, i);
    }
    HunksFromNoMatch(s, i);
    HunksFromNoMatch(t, j);
  }

  /** Text in front does not change what the scan from its end reports. */
  lemma HunksFromBehind(p: string, b: string)
    ensures HunksFrom(p + b, |p|) == HunksFrom(b, 0)
  {
    assert (p + b)[|p|..] == b[0..];
    HunksFromSuffix(p + b, b, |p|, 0);
  }

  /** Text in front of a position does not change what the scan from there reports. */
  lemma HunksFromShift(p: string, b: string, j: nat)
    requires j <= |b|
    ensures HunksFrom(p + b, |p| + j) == HunksFrom(b, j)
  {
    assert (p + b)[|p| + j..] == b[j..];
    HunksFromSuffix(p + b, b, |p| + j, j);
  }

  lemma {:induction false} HunksFromCut(a: string, t: string, i: nat)
    requires i <= |a| && t != [] && t[0] == '\n'
    ensures HunksFrom(a + t, i) == HunksFrom(a, i) + HunksFrom(a + t, |a|)
    decreases |a| - i
  {
    if i == |a| {
      CutEnd(a, t);
    } else {
      var e := NextFrom(a, i);
      HunksFromCut(a, t, e);
      CutStep(a, t, i);
    }
  }

  /** Where the scan goes on after position `i`. */
  function NextFrom(s: string, i: nat): (e: nat)
    requires i < |s|
    ensures i < e <= |s|
  {
    match ScanHunk(s, i)
    case Some(f) => f.end
    case None => i + 1
  }

  lemma CutStep(a: string, t: string, i: nat)
    requires i < |a| && t != [] && t[0] == '\n'
    requires HunksFrom(a + t, NextFrom(a, i)) == HunksFrom(a, NextFrom(a, i)) + HunksFrom(a + t, |a|)
    ensures HunksFrom(a + t, i) == HunksFrom(a, i) + HunksFrom(a + t, |a|)
  {
    if ScanHunk(a, i).Some? {
      CutMatch(a, t, i);
    } else {
      CutNoMatch(a, t, i);
    }
  }

  lemma CutEnd(a: string, t: string)
    ensures HunksFrom(a + t, |a|) == HunksFrom(a, |a|) + HunksFrom(a + t, |a|)
  {
    HunksFromEnd(a);
    assert [] + HunksFrom(a + t, |a|) == HunksFrom(a + t, |a|);
  }

  lemma CutMatch(a: string, t: string, i: nat)
    requires i < |a| && t != [] && t[0] == '\n' && ScanHunk(a, i).Some?
    requires HunksFrom(a + t, ScanHunk(a, i).value.end)
      == HunksFrom(a, ScanHunk(a, i).value.end) + HunksFrom(a + t, |a|)
    ensures HunksFrom(a + t, i) == HunksFrom(a, i) + HunksFrom(a + t, |a|)
  {
    var f := ScanHunk(a, i).value;
    ScanHunkCut(a, t, i);
    HunksFromMatch(a, i);
    HunksFromMatch(a + t, i);
    ConsAssoc(f.hunk, HunksFrom(a, f.end), HunksFrom(a + t, |a|));
  }

  lemma ConsAssoc(h: Hunk, x: seq<Hunk>, y: seq<Hunk>)
    ensures [h] + (x + y) == ([h] + x) + y
  {
  }

  lemma CutNoMatch(a: string, t: string, i: nat)
    requires i < |a| && t != [] && t[0] == '\n' && ScanHunk(a, i).None?
    requires HunksFrom(a + t, i + 1) == HunksFrom(a, i + 1) + HunksFrom(a + t, |a|)
    ensures HunksFrom(a + t, i) == HunksFrom(a, i) + HunksFrom(a + t, |a|)
  {
    ScanHunkCut(a, t, i);
    HunksFromNoMatch(a, i);
    HunksFromNoMatch(a + t, i);
  }


  /**
   * Lines are scanned independently: the hunks of two texts joined by a
   * newline are those of the first followed by those of the second.
   */
  lemma {:induction false} HunksAppendLine(a: string, b: string)
    ensures HunksFrom(a + "\n" + b, 0) == HunksFrom(a, 0) + HunksFrom(b, 0)
  {
    var s := a + "\n" + b;
    assert s == a + ("\n" + b);
    HunksFromCut(a, "\n" + b, 0);
    SkipOne(s, |a|);
    HunksFromBehind(a + "\n", b);
  }

  lemma AddedLinesSnoc(hs: seq<Hunk>, h: Hunk)
    ensures AddedLines(hs + [h]) == AddedLines(hs) + Added(h)
  {
    assert (hs + [h])[..|hs|] == hs;
    assert (hs + [h])[|hs|] == h;
  }

  lemma AddedLinesOne(h: Hunk)
    ensures AddedLines([h]) == Added(h)
  {
    assert [h][..0] == [];
  }

  lemma {:induction false} AddedLinesAppend(a: seq<Hunk>, b: seq<Hunk>)
    ensures AddedLines(a + b) == AddedLines(a) + AddedLines(b)
    decreases |b|
  {
    if b == [] {
      assert a + b == a;
    } else {
      var n := |b| - 1;
      var init, last := b[..n], b[n];
      assert a + b == (a + init) + [last];
      assert b == init + [last];
      AddedLinesSnoc(a + init, last);
      AddedLinesSnoc(init, last);
      AddedLinesAppend(a, init);
      SeqAssoc(AddedLines(a), AddedLines(init), Added(last));
    }
  }

  lemma SeqAssoc(x: seq<nat>, y: seq<nat>, z: seq<nat>)
    ensures (x + y) + z == x + (y + z)
  {
  }

  /** The line numbers of two texts joined by a newline are those of each, in order. */
  lemma {:induction false} LineNumbersAppendLine(a: string, b: string)
    ensures HunkLineNumbers(a + "\n" + b) == HunkLineNumbers(a) + HunkLineNumbers(b)
  {
    HunksAppendLine(a, b);
    AddedLinesAppend(HunksFrom(a, 0), HunksFrom(b, 0));
  }

  /** A position where the pattern's `@ -` does not begin starts no match. */
  lemma {:induction false} NoHunkAt(s: string, i: nat)
    requires i < |s|
    requires i + 1 < |s| ==> s[i + 1] != ' '
    ensures ScanHunk(s, i).None?
  {
    assert "@ -"[1] == ' ';
  }

  /** A position not holding `@` starts no match. */
  lemma NoHunkWithoutAt(s: string, i: nat)
    requires i < |s| && s[i] != '@'
    ensures ScanHunk(s, i).None?
  {
    assert !HasAt(s, i, "@ -") by {
      assert "@ -"[0] == '@';
    }
  }

  lemma SkipOne(s: string, i: nat)
    requires i < |s| && s[i] != '@'
    ensures HunksFrom(s, i) == HunksFrom(s, i + 1)
  {
    NoHunkWithoutAt(s, i);
    HunksFromNoMatch(s, i);
  }

  lemma SkipStep(s: string, i: nat, j: nat)
    requires i < j <= |s| && s[i] != '@' && HunksFrom(s, i + 1) == HunksFrom(s, j)
    ensures HunksFrom(s, i) == HunksFrom(s, j)
  {
    SkipOne(s, i);
  }

  /** Every match ends with an `@` that lies after its first character. */
  lemma ScanHunkClosesWithAt(s: string, i: nat)
    requires i <= |s| && ScanHunk(s, i).Some?
    ensures i < ScanHunk(s, i).value.end - 1 < |s| && s[ScanHunk(s, i).value.end - 1] == '@'
  {
    ScanHunkSound(s, i);
    var d1, c1, d2, c2 :| CoreAt(s, i, d1, c1, d2, c2) &&
      ScanHunk(s, i).value == Found(Hunk(DecimalValue(d2), CountOf(c2)), i + |CoreText(d1, c1, d2, c2)|);
    var core := CoreText(d1, c1, d2, c2);
    assert core[|core| - 1] == '@';
    assert s[i + (|core| - 1)] == core[|core| - 1];
  }

  /** Positions holding no `@` start no match, so the scan passes over them. */
  lemma {:induction false} SkipWithoutAt(s: string, i: nat, j: nat)
    requires i <= j <= |s|
    requires NoAtIn(s, i, j)
    ensures HunksFrom(s, i) == HunksFrom(s, j)
    decreases j - i
  {
    if i < j {
      SkipWithoutAt(s, i + 1, j);
      SkipStep(s, i, j);
    }
  }


  /**
   * A text whose only `@`s are those of one well-formed header `@<core>@`
   * starting at `p`: the scan finds that header's new side and nothing else.
   */
  lemma {:induction false} SoleHeader(s: string, p: nat, d1: string, c1: string, d2: string, c2: string)
    requires |d1| > 0 && AllDigits(d1) && IsCountText(c1)
    requires |d2| > 0 && AllDigits(d2) && IsCountText(c2)
    requires p < |s| && HasAt(s, p + 1, CoreText(d1, c1, d2, c2))
    requires NoAtIn(s, 0, p) && NoAtAfter(s, p + 1 + |CoreText(d1, c1, d2, c2)|)
    ensures HunksFrom(s, 0) == [Hunk(DecimalValue(d2), CountOf(c2))]
  {
    SkipWithoutAt(s, 0, p);
    HeaderFrom(s, p, d1, c1, d2, c2);
  }

  /** From the first `@` of a header line with no `@` after it, the scan finds the header's hunk alone. */
  lemma HeaderFrom(s: string, p: nat, d1: string, c1: string, d2: string, c2: string)
    requires |d1| > 0 && AllDigits(d1) && IsCountText(c1)
    requires |d2| > 0 && AllDigits(d2) && IsCountText(c2)
    requires p < |s| && HasAt(s, p + 1, CoreText(d1, c1, d2, c2))
    requires NoAtAfter(s, p + 1 + |CoreText(d1, c1, d2, c2)|)
    ensures HunksFrom(s, p) == [Hunk(DecimalValue(d2), CountOf(c2))]
  {
    var core := CoreText(d1, c1, d2, c2);
    assert s[p + 1 + 0] == core[0] == '@';
    NoHunkAt(s, p);
    HunksFromNoMatch(s, p);
    SoleMatch(s, p + 1, d1, c1, d2, c2);
  }

  lemma SoleMatch(s: string, i: nat, d1: string, c1: string, d2: string, c2: string)
    requires |d1| > 0 && AllDigits(d1) && IsCountText(c1)
    requires |d2| > 0 && AllDigits(d2) && IsCountText(c2)
    requires HasAt(s, i, CoreText(d1, c1, d2, c2))
    requires NoAtAfter(s, i + |CoreText(d1, c1, d2, c2)|)
    ensures HunksFrom(s, i) == [Hunk(DecimalValue(d2), CountOf(c2))]
  {
    var e := i + |CoreText(d1, c1, d2, c2)|;
    ScanCoreText(s, i, d1, c1, d2, c2);
    NoHunksWithoutAt(s, e);
    LastMatch(s, i, Hunk(DecimalValue(d2), CountOf(c2)), e);
  }

  /** A match after which nothing more is found is the only hunk found from its start. */
  lemma LastMatch(s: string, i: nat, h: Hunk, e: nat)
    requires i < |s| && ScanHunk(s, i) == Some(Found(h, e)) && HunksFrom(s, e) == []
    ensures HunksFrom(s, i) == [h]
  {
    HunksFromMatch(s, i);
  }

  /** A header line, text form: only the new side's start and count matter. */
  lemma {:induction false} HeaderTextLine(d1: string, c1: string, d2: string, c2: string, context: string)
    requires |d1| > 0 && AllDigits(d1) && IsCountText(c1)
    requires |d2| > 0 && AllDigits(d2) && IsCountText(c2)
    requires '@' !in context
    ensures HunksFrom("@" + CoreText(d1, c1, d2, c2) + "@" + context, 0) == [Hunk(DecimalValue(d2), CountOf(c2))]
  {
    var core := CoreText(d1, c1, d2, c2);
    var s := "@" + core + "@" + context;
    var e := 1 + |core|;
    assert HasAt(s, 1, core) by {
      forall k | 0 <= k < |core| ensures s[1 + k] == core[k] { }
    }
    forall j | e < j < |s| ensures s[j] != '@' {
      assert s[j] == context[j - e - 1];
    }
    SoleHeader(s, 0, d1, c1, d2, c2);
  }

  /** The same header line after text holding no `@`, such as a file's `index`, `---` and `+++` lines. */
  lemma {:induction false} HeaderTextAfter(pre: string, d1: string, c1: string, d2: string, c2: string, context: string)
    requires |d1| > 0 && AllDigits(d1) && IsCountText(c1)
    requires |d2| > 0 && AllDigits(d2) && IsCountText(c2)
    requires '@' !in pre && '@' !in context
    ensures HunksFrom(pre + ("@" + CoreText(d1, c1, d2, c2) + "@" + context), 0) == [Hunk(DecimalValue(d2), CountOf(c2))]
  {
    var core := CoreText(d1, c1, d2, c2);
    var line := "@" + core + "@" + context;
    var s := pre + line;
    var p := |pre|;
    var e := p + 1 + |core|;
    assert HasAt(s, p + 1, core) by {
      forall k | 0 <= k < |core| ensures s[p + 1 + k] == core[k] {
        assert s[p + 1 + k] == line[1 + k];
      }
    }
    forall k | 0 <= k < p ensures s[k] != '@' {
      assert s[k] == pre[k];
    }
    NoAtInOf(s, 0, p);
    forall j | e < j < |s| ensures s[j] != '@' {
      assert s[j] == line[j - p] == context[j - e - 1];
    }
    SoleHeader(s, p, d1, c1, d2, c2);
  }

  /**
   * The header line git writes for a hunk yields that hunk's new-side
   * lines, `start .. start+count-1` with a count (none when it is 0),
   * `[start]` without one, followed by whatever the text after the closing
   * `@@` yields read from its last `@`. The old side never matters.
   */
  lemma {:induction false} HeaderLineRoundTrip(oldStart: nat, oldCount: Option<nat>, h: Hunk, context: string)
    ensures HunksFrom(HunkHeaderLine(oldStart, oldCount, h, context), 0) == [h] + HunksFrom("@" + context, 0)
    ensures HunkLineNumbers(HunkHeaderLine(oldStart, oldCount, h, context)) == Added(h) + HunkLineNumbers("@" + context)
    ensures '@' !in context ==> HunksFrom(HunkHeaderLine(oldStart, oldCount, h, context), 0) == [h]
    ensures '@' !in context ==> HunkLineNumbers(HunkHeaderLine(oldStart, oldCount, h, context)) == Added(h)
    ensures '@' !in context && h.count == Some(0) ==> HunkLineNumbers(HunkHeaderLine(oldStart, oldCount, h, context)) == []
  {
    var line := HunkHeaderLine(oldStart, oldCount, h, context);
    var rest := HunksFrom("@" + context, 0);
    HeaderLineHunks(oldStart, oldCount, h, context);
    calc {
      HunkLineNumbers(line);
      AddedLines([h] + rest);
      { AddedLinesAppend([h], rest); }
      AddedLines([h]) + AddedLines(rest);
      { AddedLinesOne(h); }
      Added(h) + HunkLineNumbers("@" + context);
    }
    if '@' !in context {
      NoHunksWithoutAt("@" + context, 0);
      assert [h] + rest == [h];
      assert Added(h) + AddedLines(rest) == Added(h);
    }
  }

  /** The scan of a header line: nothing at its first `@`, the hunk at its second, then the context. */
  lemma HeaderLineHunks(oldStart: nat, oldCount: Option<nat>, h: Hunk, context: string)
    ensures HunksFrom(HunkHeaderLine(oldStart, oldCount, h, context), 0) == [h] + HunksFrom("@" + context, 0)
  {
    var d1, c1, d2, c2 := Decimal(oldStart), CountSuffix(oldCount), Decimal(h.start), CountSuffix(h.count);
    var core := CoreText(d1, c1, d2, c2);
    var p := "@" + core;
    var after := "@" + context;
    assert HunkHeaderLine(oldStart, oldCount, h, context) == p + after;
    CountSuffixRoundTrip(oldCount);
    CountSuffixRoundTrip(h.count);
    DecimalRoundTrip(h.start);
    HeaderCoreAt(core, after);
    assert (p + after)[1] == '@';
    HunksAfterHeader(p + after, |p|, d1, c1, d2, c2);
    HunksFromBehind(p, after);
    assert Hunk(DecimalValue(d2), CountOf(c2)) == h;
  }

  /** A text that opens with `@` and a header core: that core's hunk, then what follows it. */
  lemma HunksAfterHeader(s: string, m: nat, d1: string, c1: string, d2: string, c2: string)
    requires 1 < |s| && s[1] == '@' && CoreAt(s, 1, d1, c1, d2, c2) && m == 1 + |CoreText(d1, c1, d2, c2)|
    ensures m <= |s| && HunksFrom(s, 0) == [Hunk(DecimalValue(d2), CountOf(c2))] + HunksFrom(s, m)
  {
    NoHunkAt(s, 0);
    HunksFromNoMatch(s, 0);
    ScanCoreText(s, 1, d1, c1, d2, c2);
    HunksFromMatch(s, 1);
  }

  /** A text placed after an `@` is found just after it. */
  lemma HeaderCoreAt(core: string, after: string)
    requires after != []
    ensures 1 < |("@" + core) + after| && HasAt(("@" + core) + after, 1, core)
  {
    var s := ("@" + core) + after;
    forall k | 0 <= k < |core| ensures s[1 + k] == core[k] {
      assert s[1 + k] == ("@" + core)[1 + k];
    }
  }

  /**
   * One hunk as git writes it: its header line and `rest`, the remainder of
   * that line and the changed lines after it.
   */
  datatype HunkText = HunkText(oldStart: nat, oldCount: Option<nat>, hunk: Hunk, rest: string)

  /** Hunks written one after another, separated by newlines. */
  function RenderHunks(hts: seq<HunkText>): string
    decreases |hts|
  {
    if hts == [] then ""
    else
      var last := hts[|hts| - 1];
      var line := HunkHeaderLine(last.oldStart, last.oldCount, last.hunk, last.rest);
      if |hts| == 1 then line else RenderHunks(hts[..|hts| - 1]) + "\n" + line
  }

  function HunksOf(hts: seq<HunkText>): (hs: seq<Hunk>)
    ensures |hs| == |hts| && forall i :: 0 <= i < |hts| ==> hs[i] == hts[i].hunk
  {
    seq(|hts|, i requires 0 <= i < |hts| => hts[i].hunk)
  }

  /**
   * A file body of several hunks, none of whose lines holds an `@` outside
   * its header, yields every hunk in order, and so the added lines of all
   * of them.
   */
  lemma {:induction false} RenderedHunksRoundTrip(hts: seq<HunkText>)
    requires RestsWithoutAt(hts)
    ensures HunksFrom(RenderHunks(hts), 0) == HunksOf(hts)
    ensures HunkLineNumbers(RenderHunks(hts)) == AddedLines(HunksOf(hts))
  {
    if hts == [] {
      assert HunksOf(hts) == [];
      HunksFromEnd("");
    } else if |hts| == 1 {
      RenderedOneHunk(hts);
      HunksOfSnoc(hts);
    } else {
      RenderedHunksRoundTrip(hts[..|hts| - 1]);
      RenderedNextHunk(hts);
      HunksOfSnoc(hts);
    }
  }

  /** No hunk's context holds an `@`. */
  predicate RestsWithoutAt(hts: seq<HunkText>) {
    forall i :: 0 <= i < |hts| ==> '@' !in hts[i].rest
  }

  lemma HunksOfSnoc(hts: seq<HunkText>)
    requires hts != []
    ensures HunksOf(hts) == HunksOf(hts[..|hts| - 1]) + [hts[|hts| - 1].hunk]
  {
  }

  /** One header line on its own yields its hunk. */
  lemma RenderedOneHunk(hts: seq<HunkText>)
    requires |hts| == 1 && '@' !in hts[0].rest
    ensures HunksFrom(RenderHunks(hts), 0) == [hts[0].hunk]
  {
    var h := hts[0];
    HeaderLineRoundTrip(h.oldStart, h.oldCount, h.hunk, h.rest);
  }

  /** A further header line adds its hunk after those of the lines before it. */
  lemma RenderedNextHunk(hts: seq<HunkText>)
    requires |hts| > 1 && '@' !in hts[|hts| - 1].rest
    ensures HunksFrom(RenderHunks(hts), 0) == HunksFrom(RenderHunks(hts[..|hts| - 1]), 0) + [hts[|hts| - 1].hunk]
  {
    var n := |hts| - 1;
    var last := hts[n];
    var line := HunkHeaderLine(last.oldStart, last.oldCount, last.hunk, last.rest);
    HeaderLineRoundTrip(last.oldStart, last.oldCount, last.hunk, last.rest);
    var prev := RenderHunks(hts[..n]);
    assert RenderHunks(hts) == prev + "\n" + line;
    JoinHeaderLine(prev, line, HunksFrom(prev, 0), last.hunk);
  }

  /** A header line that yields one hunk, written on a line of its own after `prev`. */
  lemma JoinHeaderLine(prev: string, line: string, hs: seq<Hunk>, h: Hunk)
    requires HunksFrom(prev, 0) == hs && HunksFrom(line, 0) == [h]
    ensures HunksFrom(prev + "\n" + line, 0) == hs + [h]
  {
    HunksAppendLine(prev, line);
  }

  /** `@@ -4,2 +4,2 @@ import glob`, a header line of relint's own tests, is laid out as `HeaderTextLine` expects. */
  lemma TwoLineHeaderLaidOut(s: string)
    requires s == "@@ -4,2 +4,2 @@ import glob"
    ensures s == "@" + CoreText("4", ",2", "4", ",2") + "@" + " import glob"
  {
  }

  /** `@@ -54 +54 @@ import glob` is laid out as `HeaderTextLine` expects. */
  lemma OneLineHeaderLaidOut(s: string)
    requires s == "@@ -54 +54 @@ import glob"
    ensures s == "@" + CoreText("54", "", "54", "") + "@" + " import glob"
  {
  }

  /** `@@ -4,2 +4,2 @@ import glob` is the header line of the hunk `+4,2` after `-4,2`. */
  lemma TwoLineHeaderIs(s: string)
    requires s == "@@ -4,2 +4,2 @@ import glob"
    ensures s == HunkHeaderLine(4, Some(2), Hunk(4, Some(2)), " import glob")
  {
    assert Decimal(4) == "4" && CountSuffix(Some(2)) == ",2";
    assert HunkCore(4, Some(2), Hunk(4, Some(2))) == CoreText("4", ",2", "4", ",2");
    TwoLineHeaderLaidOut(s);
  }

  /** `@@ -54 +54 @@ import glob` is the header line of the hunk `+54` after `-54`. */
  lemma OneLineHeaderIs(s: string)
    requires s == "@@ -54 +54 @@ import glob"
    ensures s == HunkHeaderLine(54, None, Hunk(54, None), " import glob")
  {
    assert Decimal(54) == "54" && CountSuffix(None) == "";
    assert HunkCore(54, None, Hunk(54, None)) == CoreText("54", "", "54", "");
    OneLineHeaderLaidOut(s);
  }

  /** `@@ -4,2 +4,2 @@ import glob` reports lines 4 and 5, as relint's tests expect. */
  lemma {:induction false} TwoLineHunkExample(s: string)
    requires s == "@@ -4,2 +4,2 @@ import glob"
    ensures HunkLineNumbers(s) == [4, 5]
  {
    TwoLineHeaderIs(s);
    assert '@' !in " import glob";
    HeaderLineRoundTrip(4, Some(2), Hunk(4, Some(2)), " import glob");
    assert Range(4, 2) == [4, 5];
  }

  /** `@@ -54 +54 @@ import glob` reports line 54 only. */
  lemma {:induction false} OneLineHunkExample(s: string)
    requires s == "@@ -54 +54 @@ import glob"
    ensures HunkLineNumbers(s) == [54]
  {
    OneLineHeaderIs(s);
    assert '@' !in " import glob";
    HeaderLineRoundTrip(54, None, Hunk(54, None), " import glob");
  }
}
