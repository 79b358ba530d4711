/**
 * The diff splitter of relint/parse.py: `parse_filenames`,
 * `split_diff_content_by_filename` and `parse_diff`.
 *
 * Both file-header patterns are `(?:\n|^)diff --git a\/.* b\/(.*)(?:\n|$)`
 * (the split pattern only drops the group). Without the MULTILINE flag `^`
 * holds at position 0 only and `.` never crosses a newline, so a match is
 * either a newline followed by a header line, or a header line at the very
 * start of the text. The greedy first `.*` makes the path the text after the
 * LAST ` b/` of the line, and the match swallows the newline that ends the
 * line. They are modelled as a scanner over positions, like the hunk pattern.
 */
module DiffSplit {
  import opened Wrappers
  import opened Text
  import Hunks

  /** The literal text every file header line starts with. */
  const Prefix := "diff --git a/"

  /** The literal text in front of the new-side path. */
  const Separator := " b/"

  /** The end of the line holding position `i`: the next newline, or the end of the text. */
  function LineEnd(s: string, i: nat): (j: nat)
    requires i <= |s|
    ensures i <= j <= |s| && (j < |s| ==> s[j] == '\n')
    ensures forall k :: i <= k < j ==> s[k] != '\n'
    decreases |s| - i
  {
    if i == |s| || s[i] == '\n' then i else LineEnd(s, i + 1)
  }

  /** The last ` b/` lying entirely in `s[lo..hi]`, if there is one. */
  function LastSeparator(s: string, lo: nat, hi: nat): (r: Option<nat>)
    requires lo <= hi <= |s|
    ensures r.Some? ==> lo <= r.value && r.value + 3 <= hi && HasAt(s, r.value, Separator)
    ensures r.Some? ==> forall k :: r.value < k && k + 3 <= hi ==> !HasAt(s, k, Separator)
    ensures r.None? ==> forall k :: lo <= k && k + 3 <= hi ==> !HasAt(s, k, Separator)
    decreases hi - lo
  {
    if hi < lo + 3 then None
    else if HasAt(s, hi - 3, Separator) then Some(hi - 3)
    else LastSeparator(s, lo, hi - 1)
  }

  /** A match of the header pattern: where it starts, where it ends, and the path it captures. */
  datatype Header = Header(start: nat, end: nat, path: string)

  /**
   * `diff --git a\/.* b\/(.*)(?:\n|$)` for a header line beginning at `h`,
   * for a match that began at `start`.
   */
  function HeaderLine(s: string, start: nat, h: nat): (r: Option<Header>)
    requires start <= h <= |s|
    ensures r.Some? ==> r.value.start == start < r.value.end <= |s|
  {
    if !HasAt(s, h, Prefix) then None
    else
      var le := LineEnd(s, h + |Prefix|);
      match LastSeparator(s, h + |Prefix|, le)
      case None => None
      case Some(k) => Some(Header(start, if le < |s| then le + 1 else le, s[k + 3..le]))
  }

  /**
   * The match of the header pattern that begins exactly at `p`: a newline
   * and a header line after it, or (at position 0 only) a header line. When
   * the text starts with a newline the `^` alternative cannot match either,
   * since a header line starts with `d`.
   */
  function HeaderAt(s: string, p: nat): (r: Option<Header>)
    requires p <= |s|
    ensures r.Some? ==> r.value.start == p < r.value.end <= |s|
  {
    if p < |s| && s[p] == '\n' then HeaderLine(s, p, p + 1)
    else if p == 0 then HeaderLine(s, 0, 0)
    else None
  }

  /** `finditer` from position `p`: after a match, the search resumes where it ended. */
  function HeadersFrom(s: string, p: nat): seq<Header>
    requires p <= |s|
    decreases |s| - p
  {
    if p == |s| then []
    else match HeaderAt(s, p)
      case Some(h) => [h] + HeadersFrom(s, h.end)
      case None => HeadersFrom(s, p + 1)
  }

  /** The captured paths of a sequence of matches, in order. */
  function Paths(hs: seq<Header>): (r: seq<string>)
    ensures |r| == |hs| && forall i :: 0 <= i < |hs| ==> r[i] == hs[i].path
  {
    seq(|hs|, i requires 0 <= i < |hs| => hs[i].path)
  }

  lemma PathsCons(h: Header, hs: seq<Header>)
    ensures Paths([h] + hs) == [h.path] + Paths(hs)
  {
  }

  /** parse_filenames: the path of every header match, in order. */
  function ParseFilenames(s: string): seq<string> {
    Paths(HeadersFrom(s, 0))
  }

  /**
   * `re.split` from position `p`, the current piece having begun at `segStart`:
   * the text between consecutive matches, and before the first and after the last.
   */
  function SplitFrom(s: string, p: nat, segStart: nat): seq<string>
    requires segStart <= p <= |s|
    decreases |s| - p
  {
    if p == |s| then [s[segStart..]]
    else match HeaderAt(s, p)
      case Some(h) => [s[segStart..p]] + SplitFrom(s, h.end, h.end)
      case None => SplitFrom(s, p + 1, segStart)
  }

  /** `filter(lambda x: x != "", pieces)`. */
  function NonEmpty(pieces: seq<string>): (r: seq<string>)
    ensures forall x :: x in r <==> x in pieces && x != ""
    ensures |r| <= |pieces|
  {
    if pieces == [] then []
    else (if pieces[0] == "" then [] else [pieces[0]]) + NonEmpty(pieces[1..])
  }

  /** A dictionary filled from equally long keys and values in order: later keys overwrite earlier ones. */
  function Assign<V>(keys: seq<string>, values: seq<V>): map<string, V>
    requires |keys| == |values|
  {
    if keys == [] then map[]
    else Assign(keys[..|keys| - 1], values[..|values| - 1])[keys[|keys| - 1] := values[|values| - 1]]
  }

  /** `dict(zip(keys, values))`: `zip` stops at the shorter of the two. */
  function ZipToMap<V>(keys: seq<string>, values: seq<V>): map<string, V> {
    var n := if |keys| < |values| then |keys| else |values|;
    Assign(keys[..n], values[..n])
  }

  /** What split_diff_content_by_filename returns. */
  function DiffSegments(s: string): map<string, string> {
    ZipToMap(ParseFilenames(s), NonEmpty(SplitFrom(s, 0, 0)))
  }

  /** What parse_diff returns: each file's segment mapped to its hunk line numbers. */
  function ChangedLines(s: string): map<string, seq<nat>> {
    SegmentLines(DiffSegments(s))
  }

  /** split_diff_content_by_filename: pairs paths with the non-empty pieces in a loop. */
  method SplitDiffContentByFilename(output: string) returns (contentByFilename: map<string, string>)
    ensures contentByFilename == DiffSegments(output)
  {
    contentByFilename := map[];
    var filenames := ParseFilenames(output);
    var splitContent := NonEmpty(SplitFrom(output, 0, 0));
    var n := if |filenames| < |splitContent| then |filenames| else |splitContent|;
    for k := 0 to n
      invariant contentByFilename == Assign(filenames[..k], splitContent[..k])
    {
      assert filenames[..k + 1][..k] == filenames[..k];
      assert splitContent[..k + 1][..k] == splitContent[..k];
      contentByFilename := contentByFilename[filenames[k] := splitContent[k]];
    }
  }

  /** The line numbers of every segment. */
  function SegmentLines(segments: map<string, string>): map<string, seq<nat>> {
    map f | f in segments :: Hunks.HunkLineNumbers(segments[f])
  }

  /** parse_diff: fills a dictionary with the line numbers of each file's segment. */
  method ParseDiff(output: string) returns (changedContent: map<string, seq<nat>>)
    ensures changedContent == ChangedLines(output)
  {
    var segments := SplitDiffContentByFilename(output);
    changedContent := map[];
    var todo := segments.Keys;
    while todo != {}
      invariant todo <= segments.Keys
      invariant changedContent.Keys == segments.Keys - todo
      invariant forall f :: f in changedContent ==> changedContent[f] == Hunks.HunkLineNumbers(segments[f])
      decreases todo
    {
      var f :| f in todo;
      var lineNumbers := Hunks.ParseLineNumbers(segments[f]);
      changedContent := changedContent[f := lineNumbers];
      todo := todo - {f};
    }
    assert changedContent == SegmentLines(segments);
  }

  // ---------------------------------------------------------------------
  // The dictionary built from the zipped pairs

  /** The keys of the dictionary are exactly the keys given. */
  lemma {:induction false} AssignKeys<V>(keys: seq<string>, values: seq<V>, k: string)
    requires |keys| == |values|
    ensures k in Assign(keys, values) <==> k in keys
  {
    if keys != [] {
      var n := |keys| - 1;
      AssignKeys(keys[..n], values[..n], k);
      assert keys == keys[..n] + [keys[n]];
    }
  }

  /** A key maps to the value paired with its LAST occurrence. */
  lemma {:induction false} AssignLastWins<V>(keys: seq<string>, values: seq<V>, i: nat)
    requires |keys| == |values| && i < |keys|
    requires forall j :: i < j < |keys| ==> keys[j] != keys[i]
    ensures keys[i] in Assign(keys, values) && Assign(keys, values)[keys[i]] == values[i]
  {
    var n := |keys| - 1;
    if i < n {
      AssignLastWins(keys[..n], values[..n], i);
    }
  }

  /** The filter keeps the order of the pieces: filtering a concatenation filters each part. */
  lemma {:induction false} NonEmptyAppend(a: seq<string>, b: seq<string>)
    ensures NonEmpty(a + b) == NonEmpty(a) + NonEmpty(b)
  {
    if a != [] {
      assert (a + b)[1..] == a[1..] + b;
      NonEmptyAppend(a[1..], b);
    } else {
      assert a + b == b;
    }
  }

  /** The filter drops the empty piece and keeps any other. */
  lemma NonEmptyOne(x: string)
    ensures NonEmpty([x]) == if x == "" then [] else [x]
  {
    assert [x][1..] == [];
  }

  /** `zip` pairs the keys and values up to the shorter of the two; the keys so paired are the dictionary's keys. */
  lemma ZipToMapKeys<V>(keys: seq<string>, values: seq<V>, k: string)
    ensures k in ZipToMap(keys, values) <==> exists i :: 0 <= i < |keys| && i < |values| && keys[i] == k
  {
    var n := if |keys| < |values| then |keys| else |values|;
    AssignKeys(keys[..n], values[..n], k);
    if k in keys[..n] {
      var i :| 0 <= i < n && keys[..n][i] == k;
      assert keys[i] == k;
    }
    if exists i :: 0 <= i < |keys| && i < |values| && keys[i] == k {
      var i :| 0 <= i < |keys| && i < |values| && keys[i] == k;
      assert keys[..n][i] == k;
    }
  }

  /** A key paired more than once keeps the value of its last pairing. */
  lemma ZipToMapLastWins<V>(keys: seq<string>, values: seq<V>, i: nat)
    requires i < |keys| && i < |values|
    requires forall j :: i < j < |keys| && j < |values| ==> keys[j] != keys[i]
    ensures keys[i] in ZipToMap(keys, values) && ZipToMap(keys, values)[keys[i]] == values[i]
  {
    var n := if |keys| < |values| then |keys| else |values|;
    AssignLastWins(keys[..n], values[..n], i);
  }

  /** `piece` is the text of `s` from `a` to `b`. */
  predicate Spans(s: string, a: nat, b: nat, piece: string) {
    a <= b <= |s| && s[a..b] == piece
  }

  /**
   * `ps` are the texts between the matches `hs`: before the first match
   * (from `seg` on), between each match and the next, and after the last.
   */
  predicate Gaps(s: string, seg: nat, hs: seq<Header>, ps: seq<string>) {
    && |ps| == |hs| + 1
    && Spans(s, seg, if hs == [] then |s| else hs[0].start, ps[0])
    && forall i :: 1 <= i <= |hs| ==> Spans(s, hs[i - 1].end, if i == |hs| then |s| else hs[i].start, ps[i])
  }

  lemma GapsCons(s: string, seg: nat, p: nat, h: Header, hs: seq<Header>, ps: seq<string>)
    requires seg <= p < |s| && HeaderAt(s, p) == Some(h) && Gaps(s, h.end, hs, ps)
    ensures Gaps(s, seg, [h] + hs, [s[seg..p]] + ps)
  {
    var hs' := [h] + hs;
    var ps' := [s[seg..p]] + ps;
    forall i | 1 <= i <= |hs'| ensures Spans(s, hs'[i - 1].end, if i == |hs'| then |s| else hs'[i].start, ps'[i]) {
      assert ps'[i] == ps[i - 1];
      if i > 1 {
        assert hs'[i - 1] == hs[i - 2];
      }
    }
  }

  lemma GapsSkip(s: string, seg: nat, p: nat)
    requires seg <= p < |s| && HeaderAt(s, p).None?
    requires Gaps(s, seg, HeadersFrom(s, p + 1), SplitFrom(s, p + 1, seg))
    ensures Gaps(s, seg, HeadersFrom(s, p), SplitFrom(s, p, seg))
  {
  }

  /**
   * `re.split` yields the text before the first match, between consecutive
   * matches and after the last: the matched text alone is dropped.
   */
  lemma {:induction false} SplitGaps(s: string, p: nat, seg: nat)
    requires seg <= p <= |s|
    ensures Gaps(s, seg, HeadersFrom(s, p), SplitFrom(s, p, seg))
    decreases |s| - p
  {
    if p == |s| {
      assert Spans(s, seg, |s|, s[seg..]);
    } else {
      match HeaderAt(s, p)
      case Some(h) =>
        SplitGaps(s, h.end, h.end);
        GapsCons(s, seg, p, h, HeadersFrom(s, h.end), SplitFrom(s, h.end, h.end));
      case None =>
        SplitGaps(s, p + 1, seg);
        GapsSkip(s, seg, p);
    }
  }

  // ---------------------------------------------------------------------
  // Texts without any header line

  /** No match begins at any position from `p` on. */
  predicate NoMatchFrom(s: string, p: nat) {
    forall k :: p <= k < |s| ==> HeaderAt(s, k).None?
  }

  /** Without a match from `p` on, nothing is found. */
  lemma {:induction false} NoHeadersFrom(s: string, p: nat)
    requires p <= |s| && NoMatchFrom(s, p)
    ensures HeadersFrom(s, p) == []
    decreases |s| - p
  {
    if p < |s| {
      NoHeadersFrom(s, p + 1);
    }
  }

  /** A match beginning at `p0`, at or after `p`, is not missed: the finder reports something. */
  lemma {:induction false} SomeHeaderFrom(s: string, p: nat, p0: nat)
    requires p <= p0 < |s| && HeaderAt(s, p0).Some?
    ensures HeadersFrom(s, p) != []
    decreases p0 - p
  {
    if HeaderAt(s, p).None? {
      SomeHeaderFrom(s, p + 1, p0);
    }
  }

  /**
   * `parse_filenames` finds nothing exactly when no match begins anywhere,
   * and then both dictionaries are empty. A text that neither starts with
   * `diff --git a/` nor has it after a newline is such a text.
   */
  lemma {:induction false} NoHeaderNoFiles(s: string)
    ensures ParseFilenames(s) == [] <==> NoMatchFrom(s, 0)
    ensures NoMatchFrom(s, 0) ==> DiffSegments(s) == map[] && ChangedLines(s) == map[]
    ensures !HasAt(s, 0, Prefix) && NoHeaderLine(s) ==> NoMatchFrom(s, 0)
  {
    if NoMatchFrom(s, 0) {
      NoHeadersFrom(s, 0);
    } else {
      var p0 :| 0 <= p0 < |s| && HeaderAt(s, p0).Some?;
      SomeHeaderFrom(s, 0, p0);
    }
    if !HasAt(s, 0, Prefix) && NoHeaderLine(s) {
      forall k | 0 <= k < |s| ensures HeaderAt(s, k).None? {
        if k < |s| && s[k] == '\n' {
          assert !HasAt(s, k + 1, Prefix);
        }
      }
    }
  }

  /** `parse_diff("")` and `split_diff_content_by_filename("")` are both empty. */
  lemma EmptyDiff()
    ensures DiffSegments("") == map[] && ChangedLines("") == map[]
  {
    NoHeaderNoFiles("");
  }

  // ---------------------------------------------------------------------
  // Round trip with the text git writes

  /** One file of a diff: its old and new paths and the text after its header line. */
  datatype FileDiff = FileDiff(oldPath: string, newPath: string, body: string)

  /** `diff --git a/<old> b/<new>`. */
  function HeaderText(oldPath: string, newPath: string): string {
    Prefix + oldPath + Separator + newPath
  }

  /** One file's part of the diff: its header line, a newline, and its body. */
  function Chunk(f: FileDiff): string {
    HeaderText(f.oldPath, f.newPath) + "\n" + f.body
  }

  /** The files' parts, one after another, separated by newlines. */
  function Render(files: seq<FileDiff>): string
    decreases |files|
  {
    if files == [] then ""
    else if |files| == 1 then Chunk(files[0])
    else Chunk(files[0]) + "\n" + Render(files[1..])
  }

  predicate NoSeparator(t: string) {
    forall k :: 0 <= k <= |t| ==> !HasAt(t, k, Separator)
  }

  /** No newline of `t` is followed by `diff --git a/`: no line of `t` but the first starts like a header line. */
  predicate NoHeaderLine(t: string) {
    forall k :: 0 <= k < |t| && t[k] == '\n' ==> !HasAt(t, k + 1, Prefix)
  }

  /**
   * A file the scanner can read back: one-line paths, a new path without
   * ` b/` in it, and a non-empty body none of whose lines after the first
   * starts with `diff --git a/`. The first line may: it follows the
   * newline that the header match swallows, and a match needs a newline of
   * its own in front of it.
   */
  predicate WellFormed(f: FileDiff) {
    && '\n' !in f.oldPath && '\n' !in f.newPath && NoSeparator(f.newPath)
    && f.body != [] && NoHeaderLine(f.body)
  }

  function NewPaths(files: seq<FileDiff>): (r: seq<string>)
    ensures |r| == |files| && forall i :: 0 <= i < |files| ==> r[i] == files[i].newPath
  {
    seq(|files|, i requires 0 <= i < |files| => files[i].newPath)
  }

  function Bodies(files: seq<FileDiff>): (r: seq<string>)
    ensures |r| == |files| && forall i :: 0 <= i < |files| ==> r[i] == files[i].body
  {
    seq(|files|, i requires 0 <= i < |files| => files[i].body)
  }

  lemma {:induction false} LineEndIs(s: string, i: nat, j: nat)
    requires i <= j <= |s|
    requires forall k :: i <= k < j ==> s[k] != '\n'
    requires j == |s| || s[j] == '\n'
    ensures LineEnd(s, i) == j
    decreases j - i
  {
    if i < j {
      LineEndIs(s, i + 1, j);
    }
  }

  lemma {:induction false} LastSeparatorIs(s: string, lo: nat, hi: nat, k: nat)
    requires lo <= k && k + 3 <= hi <= |s|
    requires HasAt(s, k, Separator)
    requires forall j :: k < j && j + 3 <= hi ==> !HasAt(s, j, Separator)
    ensures LastSeparator(s, lo, hi) == Some(k)
    decreases hi - lo
  {
    if k + 3 < hi {
      LastSeparatorIs(s, lo, hi - 1, k);
    }
  }

  /** A literal found in `s` at `i`, and a literal found at `j` inside it, is found in `s` at `i + j`. */
  lemma {:induction false} HasAtInside(s: string, i: nat, t: string, j: nat, lit: string)
    requires HasAt(s, i, t) && HasAt(t, j, lit)
    ensures HasAt(s, i + j, lit)
  {
    forall k | 0 <= k < |lit| ensures s[i + j + k] == lit[k] {
      assert s[i + (j + k)] == t[j + k];
    }
  }

  /** A literal found in `s` at `k`, lying inside the copy of `t` at `i`, is found in `t`. */
  lemma {:induction false} HasAtWithin(s: string, i: nat, t: string, k: nat, lit: string)
    requires HasAt(s, i, t) && HasAt(s, k, lit)
    requires i <= k && k + |lit| <= i + |t|
    ensures HasAt(t, k - i, lit)
  {
    forall m | 0 <= m < |lit| ensures t[k - i + m] == lit[m] {
      assert s[i + (k - i + m)] == t[k - i + m];
    }
  }

  /** The characters of a header line up to its end are no newlines. */
  lemma {:induction false} HeaderLineEnd(s: string, q: nat, le: nat, oldPath: string, newPath: string)
    requires '\n' !in oldPath && '\n' !in newPath
    requires HasAt(s, q, HeaderText(oldPath, newPath)) && le == q + |HeaderText(oldPath, newPath)|
    requires le == |s| || (le < |s| && s[le] == '\n')
    ensures LineEnd(s, q + |Prefix|) == le
  {
    var a := q + |Prefix|;
    var k := a + |oldPath|;
    HasAtSplit(s, q, Prefix + oldPath + Separator, newPath);
    HasAtSplit(s, q, Prefix + oldPath, Separator);
    HasAtSplit(s, q, Prefix, oldPath);
    forall j | a <= j < le ensures s[j] != '\n' {
      if j < k {
        assert s[a + (j - a)] == oldPath[j - a];
      } else if j < k + 3 {
        assert s[k + (j - k)] == Separator[j - k];
      } else {
        assert s[k + 3 + (j - k - 3)] == newPath[j - k - 3];
      }
    }
    LineEndIs(s, a, le);
  }

  /** The ` b/` written before the new path, at `k`, is the last one on its line. */
  lemma {:induction false} HeaderLineSeparator(s: string, q: nat, k: nat, le: nat, oldPath: string, newPath: string)
    requires NoSeparator(newPath)
    requires HasAt(s, q, HeaderText(oldPath, newPath)) && le == q + |HeaderText(oldPath, newPath)|
    requires k == q + |Prefix| + |oldPath|
    ensures k + 3 <= le <= |s|
    ensures LastSeparator(s, q + |Prefix|, le) == Some(k)
    ensures s[k + 3..le] == newPath
  {
    HasAtSplit(s, q, Prefix + oldPath + Separator, newPath);
    HasAtSplit(s, q, Prefix + oldPath, Separator);
    forall j | k < j && j + 3 <= le ensures !HasAt(s, j, Separator) {
      if j == k + 1 {
        assert s[k + 1] == Separator[1] == 'b';
        assert s[j + 0] != Separator[0];
      } else if j == k + 2 {
        assert s[k + 2] == Separator[2] == '/';
        assert s[j + 0] != Separator[0];
      } else if HasAt(s, j, Separator) {
        HasAtWithin(s, k + 3, newPath, j, Separator);
        assert false;
      }
    }
    LastSeparatorIs(s, q + |Prefix|, le, k);
    assert s[k + 3..le] == newPath by {
      forall j | 0 <= j < |newPath| ensures s[k + 3..le][j] == newPath[j] {
        assert s[k + 3 + j] == newPath[j];
      }
    }
  }

  /** The header line of a file, at `q`, is a match of the header line for a match begun at `m`. */
  lemma {:induction false} HeaderLineAt(s: string, m: nat, q: nat, le: nat, oldPath: string, newPath: string)
    requires m <= q
    requires '\n' !in oldPath && '\n' !in newPath && NoSeparator(newPath)
    requires HasAt(s, q, HeaderText(oldPath, newPath)) && le == q + |HeaderText(oldPath, newPath)|
    requires le == |s| || (le < |s| && s[le] == '\n')
    ensures HasAt(s, q, Prefix) && s[q] == 'd'
    ensures HeaderLine(s, m, q) == Some(Header(m, if le < |s| then le + 1 else le, newPath))
  {
    var k := q + |Prefix| + |oldPath|;
    HasAtSplit(s, q, Prefix + oldPath + Separator, newPath);
    HasAtSplit(s, q, Prefix + oldPath, Separator);
    HasAtSplit(s, q, Prefix, oldPath);
    assert s[q + 0] == Prefix[0];
    HeaderLineEnd(s, q, le, oldPath, newPath);
    HeaderLineSeparator(s, q, k, le, oldPath, newPath);
  }

  /**
   * The header line of a file, at `q` and ending at `le` with a newline or
   * the end of the text, is matched from `m` (its preceding newline, or the
   * start of the text) and captures the new path.
   */
  lemma {:induction false} HeaderLineScan(s: string, m: nat, q: nat, le: nat, oldPath: string, newPath: string)
    requires (m == q == 0) || (m + 1 == q && m < |s| && s[m] == '\n')
    requires '\n' !in oldPath && '\n' !in newPath && NoSeparator(newPath)
    requires HasAt(s, q, HeaderText(oldPath, newPath)) && le == q + |HeaderText(oldPath, newPath)|
    requires le == |s| || (le < |s| && s[le] == '\n')
    ensures HeaderAt(s, m) == Some(Header(m, if le < |s| then le + 1 else le, newPath))
  {
    HeaderLineAt(s, m, q, le, oldPath, newPath);
    if m + 1 == q {
      assert HeaderAt(s, m) == HeaderLine(s, m, m + 1);
    } else {
      assert HeaderAt(s, 0) == HeaderLine(s, 0, 0);
    }
  }

  // ---------------------------------------------------------------------
  // What a match of the header pattern is

  /**
   * `diff --git a/<oldPath> b/<path>` is written at `h`, neither path holds
   * a newline, `path` holds no ` b/`, and `end` is just past the newline
   * that ends the line, or is the end of the text.
   */
  predicate HeaderLineOf(s: string, h: nat, oldPath: string, path: string, end: nat) {
    && '\n' !in oldPath && '\n' !in path && NoSeparator(path)
    && HasAt(s, h, HeaderText(oldPath, path))
    && var le := h + |HeaderText(oldPath, path)|;
      (le == |s| && end == le) || (le < |s| && s[le] == '\n' && end == le + 1)
  }

  /** A header line with new path `path` is written at `h`, for some old path. */
  ghost predicate HeaderLineLaid(s: string, h: nat, path: string, end: nat) {
    exists oldPath :: HeaderLineOf(s, h, oldPath, path, end)
  }

  /**
   * `m` is a match of the header pattern: a newline and a header line after
   * it, or a header line at the very start of the text.
   */
  ghost predicate IsHeaderMatch(s: string, m: Header) {
    || (m.start < |s| && s[m.start] == '\n' && HeaderLineLaid(s, m.start + 1, m.path, m.end))
    || (m.start == 0 && HeaderLineLaid(s, 0, m.path, m.end))
  }

  /** A text slice between two newline-free bounds holds no newline. */
  lemma NoNewlineSlice(s: string, i: nat, j: nat)
    requires i <= j <= |s| && forall k :: i <= k < j ==> s[k] != '\n'
    ensures '\n' !in s[i..j]
  {
    forall k | 0 <= k < j - i ensures s[i..j][k] != '\n' {
      assert s[i..j][k] == s[i + k];
    }
  }

  /** The text after the last ` b/` of a line holds no ` b/`. */
  lemma AfterLastSeparator(s: string, k: nat, le: nat)
    requires k + 3 <= le <= |s|
    requires forall j :: k < j && j + 3 <= le ==> !HasAt(s, j, Separator)
    ensures NoSeparator(s[k + 3..le])
  {
    var path := s[k + 3..le];
    HasAtSlice(s, k + 3, le);
    forall m | 0 <= m <= |path| ensures !HasAt(path, m, Separator) {
      if HasAt(path, m, Separator) {
        HasAtInside(s, k + 3, path, m, Separator);
        assert false;
      }
    }
  }

  /** Whatever `HeaderLine` accepts is a header line laid out as git writes it. */
  lemma HeaderLineSound(s: string, start: nat, h: nat)
    requires start <= h <= |s| && HeaderLine(s, start, h).Some?
    ensures HeaderLineLaid(s, h, HeaderLine(s, start, h).value.path, HeaderLine(s, start, h).value.end)
  {
    var r := HeaderLine(s, start, h).value;
    var a := h + |Prefix|;
    var le := LineEnd(s, a);
    var k := LastSeparator(s, a, le).value;
    var oldPath := s[a..k];
    var path := s[k + 3..le];
    assert r.path == path;
    NoNewlineSlice(s, a, k);
    NoNewlineSlice(s, k + 3, le);
    AfterLastSeparator(s, k, le);
    HeaderLineJoin(s, h, k, le);
    assert HeaderLineOf(s, h, oldPath, path, r.end);
  }

  /** The prefix, the old path, the separator and the new path, written one after another. */
  lemma HeaderLineJoin(s: string, h: nat, k: nat, le: nat)
    requires HasAt(s, h, Prefix) && h + |Prefix| <= k && k + 3 <= le <= |s| && HasAt(s, k, Separator)
    ensures HasAt(s, h, HeaderText(s[h + |Prefix|..k], s[k + 3..le]))
    ensures h + |HeaderText(s[h + |Prefix|..k], s[k + 3..le])| == le
  {
    var oldPath := s[h + |Prefix|..k];
    var path := s[k + 3..le];
    HasAtSlice(s, h + |Prefix|, k);
    HasAtSlice(s, k + 3, le);
    HasAtJoin(s, h, Prefix, oldPath);
    HasAtJoin(s, h, Prefix + oldPath, Separator);
    HasAtJoin(s, h, Prefix + oldPath + Separator, path);
  }

  /** And every header line laid out as git writes it is accepted, with its new path. */
  lemma HeaderLineComplete(s: string, start: nat, h: nat, oldPath: string, path: string, end: nat)
    requires start <= h && HeaderLineOf(s, h, oldPath, path, end)
    ensures HeaderLine(s, start, h) == Some(Header(start, end, path))
  {
    HeaderLineAt(s, start, h, h + |HeaderText(oldPath, path)|, oldPath, path);
  }

  /** Whatever `HeaderAt` accepts is a match of the header pattern. */
  lemma HeaderAtSound(s: string, p: nat)
    requires p <= |s| && HeaderAt(s, p).Some?
    ensures HeaderAt(s, p).value.start == p && IsHeaderMatch(s, HeaderAt(s, p).value)
  {
    if p < |s| && s[p] == '\n' {
      HeaderLineSound(s, p, p + 1);
    } else {
      HeaderLineSound(s, 0, 0);
    }
  }

  /**
   * `hs` are matches found at their own start positions, from `p` on, each
   * ending before the next one starts.
   */
  predicate FoundFrom(s: string, p: nat, hs: seq<Header>) {
    && (forall i :: 0 <= i < |hs| ==> p <= hs[i].start <= |s| && HeaderAt(s, hs[i].start) == Some(hs[i]))
    && (forall i :: 0 <= i < |hs| - 1 ==> hs[i].end <= hs[i + 1].start)
  }

  lemma FoundCons(s: string, p: nat, h: Header, tail: seq<Header>)
    requires p < |s| && HeaderAt(s, p) == Some(h) && FoundFrom(s, h.end, tail)
    ensures FoundFrom(s, p, [h] + tail)
  {
  }

  /** Every match `finditer` reports is a match at its own start, in order and without overlap. */
  lemma {:induction false} HeadersFromSound(s: string, p: nat)
    requires p <= |s|
    ensures FoundFrom(s, p, HeadersFrom(s, p))
    decreases |s| - p
  {
    if p < |s| {
      match HeaderAt(s, p)
      case Some(h) =>
        HeadersFromSound(s, h.end);
        FoundCons(s, p, h, HeadersFrom(s, h.end));
      case None =>
        HeadersFromSound(s, p + 1);
        FoundSkip(s, p);
    }
  }

  lemma FoundSkip(s: string, p: nat)
    requires p < |s| && HeaderAt(s, p).None? && FoundFrom(s, p + 1, HeadersFrom(s, p + 1))
    ensures FoundFrom(s, p, HeadersFrom(s, p))
  {
  }

  /**
   * parse_filenames reports, in order, the new path of header matches that
   * do not overlap: a newline and a header line, or a header line starting
   * the text.
   */
  lemma ParseFilenamesSound(s: string)
    ensures |ParseFilenames(s)| == |HeadersFrom(s, 0)|
    ensures forall i :: 0 <= i < |ParseFilenames(s)| ==>
      IsHeaderMatch(s, HeadersFrom(s, 0)[i]) && ParseFilenames(s)[i] == HeadersFrom(s, 0)[i].path
    ensures forall i :: 0 <= i < |ParseFilenames(s)| - 1 ==> HeadersFrom(s, 0)[i].end <= HeadersFrom(s, 0)[i + 1].start
  {
    var hs := HeadersFrom(s, 0);
    HeadersFromSound(s, 0);
    forall i | 0 <= i < |hs| ensures IsHeaderMatch(s, hs[i]) {
      HeaderAtSound(s, hs[i].start);
    }
  }

  /** Paths and bodies of the first file, put in front of those of the rest. */
  lemma ConsFile(files: seq<FileDiff>, h: Header, hs: seq<Header>, body: string, bodies: seq<string>)
    requires files != [] && h.path == files[0].newPath && body == files[0].body
    requires Paths(hs) == NewPaths(files[1..]) && bodies == Bodies(files[1..])
    ensures Paths([h] + hs) == NewPaths(files)
    ensures [body] + bodies == Bodies(files)
  {
    PathsCons(h, hs);
  }

  /** A match at `m` is reported, and closes the current piece; the scan resumes after it. */
  lemma MatchStep(s: string, m: nat, h: Header, segStart: nat)
    requires segStart <= m < |s| && HeaderAt(s, m) == Some(h)
    ensures HeadersFrom(s, m) == [h] + HeadersFrom(s, h.end)
    ensures SplitFrom(s, m, segStart) == [s[segStart..m]] + SplitFrom(s, h.end, h.end)
  {
  }

  /** Positions where no newline comes before a header line are passed over, by both the finder and the splitter. */
  lemma {:induction false} SkipBody(s: string, e: nat, be: nat, segStart: nat)
    requires 0 < e && segStart <= e <= be <= |s|
    requires forall k :: e <= k < be && s[k] == '\n' ==> !HasAt(s, k + 1, Prefix)
    ensures HeadersFrom(s, e) == HeadersFrom(s, be)
    ensures SplitFrom(s, e, segStart) == SplitFrom(s, be, segStart)
    decreases be - e
  {
    if e < be {
      assert HeaderAt(s, e).None?;
      SkipBody(s, e + 1, be, segStart);
    }
  }

  /**
   * In a body without header lines after its first, followed by a newline
   * or the end, no newline is followed by `diff --git a/`: the line after
   * the body's last one is cut short by the newline that ends it.
   */
  lemma {:induction false} BodyHasNoHeader(s: string, e: nat, body: string)
    requires HasAt(s, e, body) && NoHeaderLine(body)
    requires var be := e + |body|; be == |s| || s[be] == '\n'
    ensures forall k :: e <= k < e + |body| && s[k] == '\n' ==> !HasAt(s, k + 1, Prefix)
  {
    var be := e + |body|;
    forall k | e <= k < be && s[k] == '\n' ensures !HasAt(s, k + 1, Prefix) {
      assert body[k - e] == s[e + (k - e)];
      if k + 1 + |Prefix| <= be {
        if HasAt(s, k + 1, Prefix) {
          HasAtWithin(s, e, body, k + 1, Prefix);
          assert false;
        }
      } else if be < |s| {
        assert Prefix[be - (k + 1)] != '\n';
        assert s[(k + 1) + (be - (k + 1))] != Prefix[be - (k + 1)];
      }
    }
  }

  /**
   * One rendered file at `q`, announced by a newline at `m` or starting
   * the text, and followed by a newline or the end: its header is the match
   * found at `m`, and its body is the whole piece after that match.
   */
  lemma {:induction false} ScanChunk(s: string, m: nat, q: nat, e: nat, be: nat, f: FileDiff, segStart: nat)
    requires (m == q == 0) || (m + 1 == q && m < |s| && s[m] == '\n')
    requires e == q + |HeaderText(f.oldPath, f.newPath)| + 1 && be == e + |f.body|
    requires WellFormed(f) && HasAt(s, q, Chunk(f))
    requires be == |s| || (be < |s| && s[be] == '\n')
    requires segStart <= m
    ensures m < e <= be <= |s|
    ensures HeadersFrom(s, m) == [Header(m, e, f.newPath)] + HeadersFrom(s, be)
    ensures SplitFrom(s, m, segStart) == [s[segStart..m]] + SplitFrom(s, be, e)
    ensures s[e..be] == f.body
  {
    ChunkBody(s, q, e, f);
    ChunkHeader(s, m, q, e, f, segStart);
    SkipBody(s, e, be, e);
  }

  /** The body of a rendered file at `q`, ended by a newline or the end, is one piece of the text. */
  lemma {:induction false} ChunkBody(s: string, q: nat, e: nat, f: FileDiff)
    requires e == q + |HeaderText(f.oldPath, f.newPath)| + 1
    requires NoHeaderLine(f.body) && HasAt(s, q, Chunk(f))
    requires var be := e + |f.body|; be == |s| || (be < |s| && s[be] == '\n')
    ensures e + |f.body| <= |s|
    ensures forall k :: e <= k < e + |f.body| && s[k] == '\n' ==> !HasAt(s, k + 1, Prefix)
    ensures s[e..e + |f.body|] == f.body
  {
    HasAtSplit(s, q, HeaderText(f.oldPath, f.newPath) + "\n", f.body);
    BodyPiece(s, e, f.body);
  }

  /**
   * The header line of a rendered file is the match found at `m`, which
   * closes the current piece; the body follows it.
   */
  lemma {:induction false} ChunkHeader(s: string, m: nat, q: nat, e: nat, f: FileDiff, segStart: nat)
    requires (m == q == 0) || (m + 1 == q && m < |s| && s[m] == '\n')
    requires e == q + |HeaderText(f.oldPath, f.newPath)| + 1
    requires WellFormed(f) && HasAt(s, q, Chunk(f))
    requires segStart <= m
    ensures m < e <= |s| && HasAt(s, e, f.body)
    ensures HeadersFrom(s, m) == [Header(m, e, f.newPath)] + HeadersFrom(s, e)
    ensures SplitFrom(s, m, segStart) == [s[segStart..m]] + SplitFrom(s, e, e)
  {
    var header := HeaderText(f.oldPath, f.newPath);
    HasAtSplit(s, q, header + "\n", f.body);
    HasAtSplit(s, q, header, "\n");
    assert s[q + |header| + 0] == "\n"[0];
    HeaderLineScan(s, m, q, q + |header|, f.oldPath, f.newPath);
    MatchStep(s, m, Header(m, e, f.newPath), segStart);
  }

  /** A body without header lines after its first, ended by a newline or the end, is one piece of the text. */
  lemma {:induction false} BodyPiece(s: string, e: nat, body: string)
    requires HasAt(s, e, body) && NoHeaderLine(body)
    requires var be := e + |body|; be == |s| || s[be] == '\n'
    ensures forall k :: e <= k < e + |body| && s[k] == '\n' ==> !HasAt(s, k + 1, Prefix)
    ensures s[e..e + |body|] == body
  {
    BodyHasNoHeader(s, e, body);
    forall j | 0 <= j < |body| ensures s[e..e + |body|][j] == body[j] {
      assert s[e + j] == body[j];
    }
  }

  /**
   * Rendered files at `q` running to the end of the text, announced by a
   * newline at `m` or starting the text, the current piece having begun at
   * `segStart`.
   */
  predicate RenderedAt(s: string, m: nat, q: nat, files: seq<FileDiff>, segStart: nat) {
    && ((m == q == 0) || (m + 1 == q && m < |s| && s[m] == '\n'))
    && files != [] && (forall f :: f in files ==> WellFormed(f))
    && HasAt(s, q, Render(files)) && q + |Render(files)| == |s|
    && segStart <= m
  }

  /** The last rendered file, running to the end of the text. */
  lemma {:induction false} ScanLastFile(s: string, m: nat, q: nat, files: seq<FileDiff>, segStart: nat)
    requires RenderedAt(s, m, q, files, segStart) && |files| == 1
    ensures Paths(HeadersFrom(s, m)) == NewPaths(files)
    ensures SplitFrom(s, m, segStart) == [s[segStart..m]] + Bodies(files)
  {
    var f := files[0];
    var e := q + |HeaderText(f.oldPath, f.newPath)| + 1;
    var be := e + |f.body|;
    assert Render(files) == Chunk(f);
    assert f in files;
    ScanChunk(s, m, q, e, be, f, segStart);
    assert be == |s|;
    assert HeadersFrom(s, be) == [];
    assert s[e..] == s[e..be];
    assert SplitFrom(s, be, e) == [s[e..be]];
    ConsFile(files, Header(m, e, f.newPath), [], f.body, []);
  }

  /** Several rendered files: the first file's part, a newline, then the rest. */
  lemma {:induction false} RenderedCons(s: string, q: nat, files: seq<FileDiff>)
    requires |files| > 1 && HasAt(s, q, Render(files))
    ensures var be := q + |Chunk(files[0])|;
      && HasAt(s, q, Chunk(files[0]))
      && be < |s| && s[be] == '\n'
      && HasAt(s, be + 1, Render(files[1..]))
      && q + |Render(files)| == be + 1 + |Render(files[1..])|
  {
    var c := Chunk(files[0]);
    var r := Render(files[1..]);
    assert Render(files) == c + "\n" + r;
    HasAtSplit(s, q, c + "\n", r);
    HasAtSplit(s, q, c, "\n");
    assert s[q + |c| + 0] == "\n"[0];
  }

  /** Over rendered files, the finder reports their new paths and the splitter their bodies. */
  lemma {:induction false} ScanRendered(s: string, m: nat, q: nat, files: seq<FileDiff>, segStart: nat)
    requires RenderedAt(s, m, q, files, segStart)
    ensures Paths(HeadersFrom(s, m)) == NewPaths(files)
    ensures SplitFrom(s, m, segStart) == [s[segStart..m]] + Bodies(files)
    decreases |files|
  {
    var f := files[0];
    var e := q + |HeaderText(f.oldPath, f.newPath)| + 1;
    var be := e + |f.body|;
    if |files| == 1 {
      ScanLastFile(s, m, q, files, segStart);
    } else {
      FirstChunk(s, m, q, e, be, files, segStart);
      ScanRendered(s, be, be + 1, files[1..], e);
      ScanCons(files, Header(m, e, f.newPath), HeadersFrom(s, m), HeadersFrom(s, be),
               SplitFrom(s, m, segStart), SplitFrom(s, be, e), s[segStart..m]);
    }
  }

  /** The matches and pieces of the first file, put in front of those of the rest. */
  lemma ScanCons(files: seq<FileDiff>, h: Header, hs: seq<Header>, tail: seq<Header>,
                 pieces: seq<string>, rest: seq<string>, lead: string)
    requires files != [] && h.path == files[0].newPath
    requires hs == [h] + tail && Paths(tail) == NewPaths(files[1..])
    requires pieces == [lead] + rest && rest == [files[0].body] + Bodies(files[1..])
    ensures Paths(hs) == NewPaths(files)
    ensures pieces == [lead] + Bodies(files)
  {
    ConsFile(files, h, tail, files[0].body, Bodies(files[1..]));
  }

  /** The first of several rendered files is scanned as one chunk, and the rest follow its newline. */
  lemma {:induction false} FirstChunk(s: string, m: nat, q: nat, e: nat, be: nat, files: seq<FileDiff>, segStart: nat)
    requires RenderedAt(s, m, q, files, segStart) && |files| > 1
    requires e == q + |HeaderText(files[0].oldPath, files[0].newPath)| + 1 && be == e + |files[0].body|
    ensures m < e <= be < |s|
    ensures HeadersFrom(s, m) == [Header(m, e, files[0].newPath)] + HeadersFrom(s, be)
    ensures SplitFrom(s, m, segStart) == [s[segStart..m]] + SplitFrom(s, be, e)
    ensures s[e..be] == files[0].body
    ensures RenderedAt(s, be, be + 1, files[1..], e)
  {
    var f := files[0];
    RenderedCons(s, q, files);
    assert be == q + |Chunk(f)|;
    assert f in files;
    assert forall g :: g in files[1..] ==> g in files;
    ScanChunk(s, m, q, e, be, f, segStart);
  }

  /** Pieces that are all non-empty pass the filter unchanged. */
  lemma {:induction false} NonEmptyKeepsAll(pieces: seq<string>)
    requires forall i :: 0 <= i < |pieces| ==> pieces[i] != ""
    ensures NonEmpty(pieces) == pieces
  {
    if pieces != [] {
      NonEmptyKeepsAll(pieces[1..]);
    }
  }

  /**
   * A diff written file after file, each with a non-empty body and no
   * header line inside it, reads back as the files' new paths, and each
   * path maps to its own body and to the hunk lines of that body (a path
   * written twice maps to its last body).
   */
  lemma {:induction false} RenderedDiffRoundTrip(files: seq<FileDiff>)
    requires files != [] && forall f :: f in files ==> WellFormed(f)
    ensures ParseFilenames(Render(files)) == NewPaths(files)
    ensures DiffSegments(Render(files)) == Assign(NewPaths(files), Bodies(files))
    ensures ChangedLines(Render(files)) == SegmentLines(Assign(NewPaths(files), Bodies(files)))
  {
    var s := Render(files);
    var paths := NewPaths(files);
    var bodies := Bodies(files);
    RenderedPieces(files);
    assert paths[..|paths|] == paths && bodies[..|bodies|] == bodies;
  }

  /** The pieces of a diff written file after file are its bodies, once the empty first piece is dropped. */
  lemma {:induction false} RenderedPieces(files: seq<FileDiff>)
    requires files != [] && forall f :: f in files ==> WellFormed(f)
    ensures ParseFilenames(Render(files)) == NewPaths(files)
    ensures NonEmpty(SplitFrom(Render(files), 0, 0)) == Bodies(files)
  {
    var s := Render(files);
    assert HasAt(s, 0, s);
    ScanRendered(s, 0, 0, files, 0);
    var bodies := Bodies(files);
    assert SplitFrom(s, 0, 0) == [""] + bodies;
    assert ([""] + bodies)[1..] == bodies;
    forall i | 0 <= i < |bodies| ensures bodies[i] != "" {
      assert files[i] in files;
    }
    NonEmptyKeepsAll(bodies);
  }

  /**
   * In a diff written file after file, the files' new paths are exactly the
   * keys of `parse_diff`, and a file whose path is not repeated later maps
   * to the hunk lines of its own body.
   */
  lemma {:induction false} RenderedDiffLines(files: seq<FileDiff>, i: nat)
    requires files != [] && forall f :: f in files ==> WellFormed(f)
    requires i < |files| && forall j :: i < j < |files| ==> files[j].newPath != files[i].newPath
    ensures forall path :: path in ChangedLines(Render(files)) <==> path in NewPaths(files)
    ensures files[i].newPath in ChangedLines(Render(files))
    ensures ChangedLines(Render(files))[files[i].newPath] == Hunks.HunkLineNumbers(files[i].body)
  {
    var paths := NewPaths(files);
    var bodies := Bodies(files);
    RenderedDiffRoundTrip(files);
    forall path ensures path in Assign(paths, bodies) <==> path in paths {
      AssignKeys(paths, bodies, path);
    }
    AssignLastWins(paths, bodies, i);
  }

  /** A diff of one file maps its new path to the hunk lines of its body. */
  lemma {:induction false} SingleFileDiff(f: FileDiff)
    requires WellFormed(f)
    ensures ChangedLines(Chunk(f)) == map[f.newPath := Hunks.HunkLineNumbers(f.body)]
  {
    assert Render([f]) == Chunk(f);
    RenderedDiffRoundTrip([f]);
    assert NewPaths([f]) == [f.newPath] && Bodies([f]) == [f.body];
    assert Assign([f.newPath], [f.body]) == map[f.newPath := f.body] by {
      assert [f.newPath][..0] == [];
      assert [f.body][..0] == [];
    }
  }

  /**
   * A lone header line reports its new path, but the pieces around it are
   * both empty and are filtered out, so the file gets no segment.
   */
  lemma {:induction false} LoneHeader(oldPath: string, newPath: string)
    requires '\n' !in oldPath && '\n' !in newPath && NoSeparator(newPath)
    ensures ParseFilenames(HeaderText(oldPath, newPath)) == [newPath]
    ensures DiffSegments(HeaderText(oldPath, newPath)) == map[]
  {
    var s := HeaderText(oldPath, newPath);
    var h := Header(0, |s|, newPath);
    LoneHeaderMatch(oldPath, newPath);
    assert HeadersFrom(s, |s|) == [];
    PathsCons(h, []);
    assert [h] + [] == [h];
    assert SplitFrom(s, |s|, |s|) == [s[|s|..]];
    assert s[|s|..] == "" && s[0..0] == "";
    assert NonEmpty(["", ""]) == [];
  }

  /** The whole of a lone header line is one match. */
  lemma {:induction false} LoneHeaderMatch(oldPath: string, newPath: string)
    requires '\n' !in oldPath && '\n' !in newPath && NoSeparator(newPath)
    ensures var s := HeaderText(oldPath, newPath);
      && HeadersFrom(s, 0) == [Header(0, |s|, newPath)] + HeadersFrom(s, |s|)
      && SplitFrom(s, 0, 0) == [s[0..0]] + SplitFrom(s, |s|, |s|)
  {
    var s := HeaderText(oldPath, newPath);
    assert HasAt(s, 0, s);
    HeaderLineScan(s, 0, 0, |s|, oldPath, newPath);
    MatchStep(s, 0, Header(0, |s|, newPath), 0);
  }

  // ---------------------------------------------------------------------
  // Text in front of the first header line

  /**
   * Text in front of the first header line: not empty, and no line of it
   * starts with `diff --git a/` (at the start of the text the `^`
   * alternative would match its first line).
   */
  predicate IsPreamble(pre: string) {
    pre != "" && !HasAt(pre, 0, Prefix) && NoHeaderLine(pre)
  }

  /** A preamble ended by a newline starts no header match. */
  lemma {:induction false} PreambleSkip(s: string, pre: string)
    requires HasAt(s, 0, pre) && |pre| < |s| && s[|pre|] == '\n' && IsPreamble(pre)
    ensures HeadersFrom(s, 0) == HeadersFrom(s, |pre|)
    ensures SplitFrom(s, 0, 0) == SplitFrom(s, |pre|, 0)
  {
    BodyHasNoHeader(s, 0, pre);
    if |pre| < |Prefix| {
      assert s[|pre|] != Prefix[|pre|];
    }
    assert HeaderAt(s, 0).None?;
    SkipBody(s, 1, |pre|, 0);
  }

  /**
   * Text in front of the first header line (a commit header, say) becomes
   * the first non-empty piece, so the pairing of paths with pieces shifts by
   * one: the first file gets that text, each later file the body of the
   * file before it, and the last body is dropped.
   */
  lemma {:induction false} PreambleShift(pre: string, files: seq<FileDiff>)
    requires IsPreamble(pre)
    requires files != [] && forall f :: f in files ==> WellFormed(f)
    ensures ParseFilenames(pre + "\n" + Render(files)) == NewPaths(files)
    ensures NonEmpty(SplitFrom(pre + "\n" + Render(files), 0, 0)) == [pre] + Bodies(files)
    ensures DiffSegments(pre + "\n" + Render(files)) == Assign(NewPaths(files), ([pre] + Bodies(files))[..|files|])
  {
    var s := pre + "\n" + Render(files);
    PreambleLayout(pre, Render(files));
    PreambleSkip(s, pre);
    ScanRendered(s, |pre|, |pre| + 1, files, 0);
    PreamblePieces(pre, files);
    assert NewPaths(files)[..|files|] == NewPaths(files);
  }

  lemma PreambleLayout(pre: string, r: string)
    ensures var s := pre + "\n" + r;
      HasAt(s, 0, pre) && s[|pre|] == '\n' && HasAt(s, |pre| + 1, r) && s[0..|pre|] == pre
  {
    var s := pre + "\n" + r;
    forall k | 0 <= k < |r| ensures s[|pre| + 1 + k] == r[k] {
    }
  }

  lemma PreamblePieces(pre: string, files: seq<FileDiff>)
    requires pre != "" && forall f :: f in files ==> WellFormed(f)
    ensures NonEmpty([pre] + Bodies(files)) == [pre] + Bodies(files)
  {
    var pieces := [pre] + Bodies(files);
    forall i | 0 <= i < |pieces| ensures pieces[i] != "" {
      if i > 0 {
        assert files[i - 1] in files;
      }
    }
    NonEmptyKeepsAll(pieces);
  }

  /**
   * A one-file diff behind a preamble: the file is paired with the
   * preamble instead of its own body, so when the preamble holds no `@`
   * no line of the file counts as changed.
   */
  lemma {:induction false} PreambleTakesFirstFile(pre: string, f: FileDiff)
    requires IsPreamble(pre) && WellFormed(f)
    ensures DiffSegments(pre + "\n" + Chunk(f)) == map[f.newPath := pre]
    ensures '@' !in pre ==> ChangedLines(pre + "\n" + Chunk(f)) == map[f.newPath := []]
  {
    assert Render([f]) == Chunk(f);
    PreambleShift(pre, [f]);
    assert NewPaths([f]) == [f.newPath];
    assert ([pre] + Bodies([f]))[..1] == [pre];
    assert Assign([f.newPath], [pre]) == map[f.newPath := pre] by {
      assert [f.newPath][..0] == [];
      assert [pre][..0] == [];
    }
    if '@' !in pre {
      Hunks.NoHunksWithoutAt(pre, 0);
    }
  }

  /** A one-file diff written piece by piece is the rendering of that file. */
  lemma FileText(s: string, oldPath: string, newPath: string, body: string)
    requires s == "diff --git a/" + oldPath + " b/" + newPath + "\n" + body
    ensures s == Chunk(FileDiff(oldPath, newPath, body))
  {
  }

  /** A path without spaces holds no ` b/`. */
  lemma NoSpaceNoSeparator(t: string)
    requires ' ' !in t
    ensures NoSeparator(t)
  {
    forall k | 0 <= k <= |t| ensures !HasAt(t, k, Separator) {
      if k < |t| {
        assert t[k + 0] != Separator[0];
      }
    }
  }

  /** A text lacking one of the characters of `diff --git a/` holds no header line, first or later. */
  lemma NoHeaderLineWithout(t: string, c: char)
    requires c in Prefix && c !in t
    ensures !HasAt(t, 0, Prefix) && NoHeaderLine(t)
  {
    var j :| 0 <= j < |Prefix| && Prefix[j] == c;
    forall k | 0 <= k <= |t| ensures !HasAt(t, k, Prefix) {
      if k + j < |t| {
        assert t[k + j] != Prefix[j];
      }
    }
  }
}
