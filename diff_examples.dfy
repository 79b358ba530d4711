/**
 * The diffs of relint's own tests, read back through the general lemmas of
 * `Hunks` and `DiffSplit`. Each test text is written as the concatenation of
 * its pieces (header, paths, hunk header line, the other lines); the lines
 * around the hunk header are left general, constrained only by the
 * characters they lack.
 */
module DiffExamples {
  import opened Wrappers
  import opened Text
  import opened Hunks
  import opened DiffSplit

  /** `diff --git a/relint.py b/relint.py` names `relint.py`. */
  lemma ShortFilenameExample(s: string)
    requires s == "diff --git a/" + "relint.py" + " b/" + "relint.py"
    ensures ParseFilenames(s) == ["relint.py"]
  {
    NoSpaceNoSeparator("relint.py");
    LoneHeader("relint.py", "relint.py");
  }

  /** A nested path is captured whole, slashes included. */
  lemma NestedFilenameExample(s: string)
    requires s == "diff --git a/" + "pardal/authserver/app.py" + " b/" + "pardal/authserver/app.py"
    ensures ParseFilenames(s) == ["pardal/authserver/app.py"]
  {
    NoSpaceNoSeparator("pardal/authserver/app.py");
    LoneHeader("pardal/authserver/app.py", "pardal/authserver/app.py");
  }

  /**
   * A file body made of lines without a hunk header (`pre`), one hunk header
   * line and lines without `@` reports the added lines of that one hunk.
   * Some character of `diff --git a/` missing from the body keeps it free
   * of file headers.
   */
  lemma {:induction false} HunkBody(body: string, pre: string, context: string,
                                    d1: string, c1: string, d2: string, c2: string, c: char)
    requires |d1| > 0 && AllDigits(d1) && IsCountText(c1)
    requires |d2| > 0 && AllDigits(d2) && IsCountText(c2)
    requires '@' !in pre && '@' !in context
    requires c in Prefix && c !in pre && c !in "@" + CoreText(d1, c1, d2, c2) + "@" && c !in context
    requires body == pre + ("@" + CoreText(d1, c1, d2, c2) + "@" + context)
    ensures HunkLineNumbers(body) == AddedLines([Hunk(DecimalValue(d2), CountOf(c2))])
    ensures body != [] && NoHeaderLine(body)
  {
    HeaderTextAfter(pre, d1, c1, d2, c2, context);
    NoHeaderLineWithout(body, c);
  }

  /** `HunkBody` with no lines before the hunk header. */
  lemma {:induction false} HunkBodyAlone(body: string, context: string,
                                         d1: string, c1: string, d2: string, c2: string, c: char)
    requires |d1| > 0 && AllDigits(d1) && IsCountText(c1)
    requires |d2| > 0 && AllDigits(d2) && IsCountText(c2)
    requires '@' !in context
    requires c in Prefix && c !in "@" + CoreText(d1, c1, d2, c2) + "@" && c !in context
    requires body == "@" + CoreText(d1, c1, d2, c2) + "@" + context
    ensures HunkLineNumbers(body) == AddedLines([Hunk(DecimalValue(d2), CountOf(c2))])
    ensures body != [] && NoHeaderLine(body)
  {
    var line := "@" + CoreText(d1, c1, d2, c2) + "@" + context;
    assert "" + line == line;
    HunkBody(body, "", context, d1, c1, d2, c2, c);
  }

  /** A file diff whose body changes `lines` in `path` reports exactly those lines. */
  lemma {:induction false} OneFile(s: string, path: string, body: string, lines: seq<int>)
    requires s == "diff --git a/" + path + " b/" + path + "\n" + body
    requires '\n' !in path && ' ' !in path
    requires body != [] && NoHeaderLine(body)
    requires HunkLineNumbers(body) == lines
    ensures ChangedLines(s) == map[path := lines]
  {
    FileText(s, path, path, body);
    NoSpaceNoSeparator(path);
    SingleFileDiff(FileDiff(path, path, body));
  }

  lemma TestParsePath()
    ensures '\n' !in "test_parse.py" && ' ' !in "test_parse.py"
  {
  }

  /**
   * One changed line in one file: `{"test_parse.py": [92]}`. The lines after
   * the hunk header (`context`) are any without `@` and without `g`, as the
   * test's are.
   */
  lemma {:induction false} OneLineChangedExample(s: string, context: string)
    requires '@' !in context && 'g' !in context
    requires s == "diff --git a/" + "test_parse.py" + " b/" + "test_parse.py" + "\n" + ("@@ -73 +92 @@" + context)
    ensures ChangedLines(s) == map["test_parse.py" := [92]]
  {
    var hunkLine := "@" + CoreText("73", "", "92", "") + "@";
    assert "@@ -73 +92 @@" == hunkLine;
    assert 'g' !in hunkLine;
    var body := hunkLine + context;
    assert DecimalValue("92") == 92 by {
      assert "92"[..1] == "9";
    }
    HunkBodyAlone(body, context, "73", "", "92", "", 'g');
    SingleAdded(92);
    TestParsePath();
    OneFile(s, "test_parse.py", body, [92]);
  }

  lemma SingleAdded(n: nat)
    ensures AddedLines([Hunk(n, None)]) == [n]
  {
    assert AddedLines([Hunk(n, None)]) == AddedLines([]) + Added(Hunk(n, None));
  }

  lemma SixLines()
    ensures AddedLines([Hunk(28, Some(6))]) == [28, 29, 30, 31, 32, 33]
  {
    var r := Range(28, 6);
    assert AddedLines([Hunk(28, Some(6))]) == r by {
      assert [Hunk(28, Some(6))][..0] == [];
    }
    forall i | 0 <= i < 6 ensures r[i] == 28 + i {
      RangeAt(28, 6, i);
    }
  }

  /** `@@ -27,0 +28,6 @@` is a hunk header line adding six lines from line 28, without `/`. */
  lemma ManyHunkLine()
    ensures "@@ -27,0 +28,6 @@" == "@" + CoreText("27", ",0", "28", ",6") + "@"
    ensures '/' !in "@@ -27,0 +28,6 @@" && IsCountText(",0") && IsCountText(",6")
    ensures CountOf(",6") == Some(6) && DecimalValue("28") == 28
  {
    assert ",0"[1..] == "0";
    assert ",6"[1..] == "6";
    assert "28"[..1] == "2";
  }

  /**
   * Six added lines in one file: `{"test_parse.py": [28, 29, 30, 31, 32, 33]}`,
   * for any following lines without `@` and without `/`, as the test's are.
   */
  lemma {:induction false} ManyLinesChangedExample(s: string, context: string)
    requires '@' !in context && '/' !in context
    requires s == "diff --git a/" + "test_parse.py" + " b/" + "test_parse.py" + "\n" + ("@@ -27,0 +28,6 @@" + context)
    ensures ChangedLines(s) == map["test_parse.py" := [28, 29, 30, 31, 32, 33]]
  {
    ManyHunkLine();
    var body := "@@ -27,0 +28,6 @@" + context;
    HunkBodyAlone(body, context, "27", ",0", "28", ",6", '/');
    SixLines();
    TestParsePath();
    OneFile(s, "test_parse.py", body, [28, 29, 30, 31, 32, 33]);
  }

  /** The body of a complete file diff: its one hunk adds line 2. */
  lemma {:induction false} CompleteBody(body: string, pre: string, context: string)
    requires '@' !in pre && 'g' !in pre && '@' !in context && 'g' !in context
    requires body == pre + ("@@ -1,0 +2 @@" + context)
    ensures HunkLineNumbers(body) == [2] && body != [] && NoHeaderLine(body)
  {
    CompleteHunkLine();
    HunkBody(body, pre, context, "1", ",0", "2", "", 'g');
    SingleAdded(2);
  }

  /** `@@ -1,0 +2 @@` is a hunk header line adding line 2, without `g`. */
  lemma CompleteHunkLine()
    ensures "@@ -1,0 +2 @@" == "@" + CoreText("1", ",0", "2", "") + "@"
    ensures 'g' !in "@@ -1,0 +2 @@" && IsCountText(",0") && DecimalValue("2") == 2
  {
    assert ",0"[1..] == "0";
  }

  /**
   * A complete file diff, whose `index`, `---` and `+++` lines (`pre`)
   * contribute nothing: `{"test_parse.py": [2]}`, for any such lines and
   * any following lines without `@` and without `g`, as the test's are.
   */
  lemma {:induction false} CompleteDiffExample(s: string, pre: string, context: string)
    requires '@' !in pre && 'g' !in pre && '@' !in context && 'g' !in context
    requires s == "diff --git a/" + "test_parse.py" + " b/" + "test_parse.py" + "\n" + (pre + ("@@ -1,0 +2 @@" + context))
    ensures ChangedLines(s) == map["test_parse.py" := [2]]
  {
    CompleteBody(pre + ("@@ -1,0 +2 @@" + context), pre, context);
    TestParsePath();
    OneFile(s, "test_parse.py", pre + ("@@ -1,0 +2 @@" + context), [2]);
  }

  lemma DummyPath()
    ensures '\n' !in "dummy.py" && ' ' !in "dummy.py"
  {
  }

  /** The body of the diff of relint's standard-input tests: its one hunk adds line 1. */
  lemma {:induction false} DummyBody(body: string, context: string)
    requires '@' !in context && '/' !in context
    requires body == "@@ -0,0 +1 @@" + context
    ensures HunkLineNumbers(body) == [1] && body != [] && NoHeaderLine(body)
  {
    DummyHunkLine();
    HunkBodyAlone(body, context, "0", ",0", "1", "", '/');
    SingleAdded(1);
  }

  /** `@@ -0,0 +1 @@` is a hunk header line adding line 1, without `/`. */
  lemma DummyHunkLine()
    ensures "@@ -0,0 +1 @@" == "@" + CoreText("0", ",0", "1", "") + "@"
    ensures '/' !in "@@ -0,0 +1 @@" && IsCountText(",0") && DecimalValue("1") == 1
  {
    assert ",0"[1..] == "0";
  }

  /**
   * The diff fed to relint on standard input in its tests, whose one added
   * line holds neither `@` nor `/`: `{"dummy.py": [1]}`.
   */
  lemma {:induction false} DummyDiffExample(s: string, context: string)
    requires '@' !in context && '/' !in context
    requires s == "diff --git a/" + "dummy.py" + " b/" + "dummy.py" + "\n" + ("@@ -0,0 +1 @@" + context)
    ensures ChangedLines(s) == map["dummy.py" := [1]]
  {
    DummyBody("@@ -0,0 +1 @@" + context, context);
    DummyPath();
    OneFile(s, "dummy.py", "@@ -0,0 +1 @@" + context, [1]);
  }
}
