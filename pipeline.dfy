/**
 * relint's run put together from the modelled parts, in the order its
 * command line uses them: the rules are loaded, every file is linted with
 * every rule, the matches are filtered by a diff when one is given, and
 * the exit code is folded over what remains.
 */
module Pipeline {
  import opened Wrappers
  import opened Offsets
  import opened Config
  import opened Lint
  import opened DiffSplit
  import opened DiffFilter
  import opened Report
  import DiffExamples

  /**
   * A path to lint with its content: `None` when reading it raises
   * `IsADirectoryError` or `UnicodeDecodeError`, the two failures
   * `lint_file` absorbs.
   */
  datatype File = File(path: string, content: Option<string>)

  /**
   * The matches of every file, file by file: each comes from a given file
   * with readable content and from a loaded rule, and every match of every
   * file is there.
   */
  function AllMatches(files: seq<File>, tests: seq<Test>,
                      accepts: (string, string) -> bool, find: (string, string) -> seq<Span>): (ms: seq<Match>)
    requires SpansInside(find)
    ensures forall m :: m in ms ==>
      m.test in tests && Located(m) && exists f :: f in files && f.path == m.filename && f.content == Some(m.content)
    ensures forall i, m :: 0 <= i < |files| && m in LintFile(files[i].path, files[i].content, tests, accepts, find) ==> m in ms
  {
    if files == [] then []
    else
      var here := LintFile(files[0].path, files[0].content, tests, accepts, find);
      var rest := AllMatches(files[1..], tests, accepts, find);
      assert forall m :: m in rest ==> exists f :: f in files && f.path == m.filename && f.content == Some(m.content);
      assert forall i :: 1 <= i < |files| ==> files[i] == files[1..][i - 1];
      here + rest
  }

  /** File order: the matches of a concatenation of file lists are concatenated. */
  lemma {:induction false} AllMatchesAppend(a: seq<File>, b: seq<File>, tests: seq<Test>,
                                            accepts: (string, string) -> bool, find: (string, string) -> seq<Span>)
    requires SpansInside(find)
    ensures AllMatches(a + b, tests, accepts, find) == AllMatches(a, tests, accepts, find) + AllMatches(b, tests, accepts, find)
  {
    if a == [] {
      assert a + b == b;
    } else {
      assert (a + b)[1..] == a[1..] + b;
      AllMatchesAppend(a[1..], b, tests, accepts, find);
    }
  }

  lemma LocatedAllValid(ms: seq<Match>)
    requires forall m :: m in ms ==> Located(m)
    ensures AllValid(ms)
  {
    assert forall i :: 0 <= i < |ms| ==> ms[i] in ms;
  }

  /** The matches left to report: all of them, or those on lines the diff changed. */
  function Reported(ms: seq<Match>, diff: Option<string>): (kept: seq<Match>)
    ensures forall m :: m in kept ==> m in ms
    ensures diff.None? ==> kept == ms
    ensures diff.Some? ==> forall m :: m in kept ==> m.filename in ChangedLines(diff.value) && m.line in ChangedLines(diff.value)[m.filename]
    ensures diff.Some? ==> forall m :: m in kept <==> m in ms && Changed(ChangedLines(diff.value), m)
  {
    if diff.None? then ms else MatchWithDiffChanges(ChangedLines(diff.value), ms)
  }

  /** How a run ends: with an error raised while loading the rules, or with an exit code. */
  datatype RunResult =
    | Crashed(error: LoadError)
    | Exited(code: nat, warning: Option<string>, culprits: seq<Culprit>)

  /**
   * A run of the command line: load the rules, lint every file, keep the
   * matches on changed lines when a diff is given, and report them through
   * `print_culprits` with its options, as relint's tests call it.
   */
  function Run(doc: Document, failWarnings: bool, files: seq<File>, diff: Option<string>,
               compile: string -> Compilation, accepts: (string, string) -> bool,
               find: (string, string) -> seq<Span>): (r: RunResult)
    requires SpansInside(find)
    ensures r.Crashed? <==> LoadConfig(doc, failWarnings, compile).Failed?
    ensures r.Crashed? ==> r.error == LoadConfig(doc, failWarnings, compile).error
    ensures r.Exited? ==> r.warning == LoadConfig(doc, failWarnings, compile).warning && r.code <= 1
    ensures r.Exited? ==> (r.code == 1 <==> exists c :: c in r.culprits && c.level == Error)
    ensures r.Exited? ==>
      r.culprits == Culprits(Reported(AllMatches(files, LoadConfig(doc, failWarnings, compile).tests, accepts, find), diff))
  {
    match LoadConfig(doc, failWarnings, compile)
    case Failed(e) => Crashed(e)
    case Loaded(tests, warning) =>
      var kept := Reported(AllMatches(files, tests, accepts, find), diff);
      LocatedAllValid(kept);
      ExitCodeCulprits(kept);
      Exited(ExitCode(kept), warning, Culprits(kept))
  }

  /**
   * A span that a loaded rule finds in a readable file its file pattern
   * accepts, on a changed line of that file when a diff is given, is
   * reported: some culprit names the file, the line of the span's start and
   * the rule, at the rule's level. Under `-W` the run then exits 1.
   */
  lemma RunReportsFound(doc: Document, failWarnings: bool, files: seq<File>, diff: Option<string>,
                        compile: string -> Compilation, accepts: (string, string) -> bool,
                        find: (string, string) -> seq<Span>, i: nat, test: Test, span: Span)
    requires SpansInside(find)
    requires LoadConfig(doc, failWarnings, compile).Loaded? && test in LoadConfig(doc, failWarnings, compile).tests
    requires i < |files| && files[i].content.Some?
    requires accepts(test.filePattern, files[i].path) && span in find(test.pattern, files[i].content.value)
    requires diff.Some? ==>
      var lines := ChangedLines(diff.value);
      files[i].path in lines && LineOf(files[i].content.value, span.start) in lines[files[i].path]
    ensures var r := Run(doc, failWarnings, files, diff, compile, accepts, find);
      && r.Exited?
      && (exists c :: && c in r.culprits && c.filename == files[i].path && c.title == test.name
                      && c.line == LineOf(files[i].content.value, span.start) && (c.level == Error <==> test.error))
    ensures failWarnings ==> Run(doc, failWarnings, files, diff, compile, accepts, find).code == 1
  {
    var tests := LoadConfig(doc, failWarnings, compile).tests;
    var m := FoundIsMatched(files, tests, accepts, find, i, test, span);
    var kept := Reported(AllMatches(files, tests, accepts, find), diff);
    assert m in kept;
    LocatedAllValid(kept);
    KeptIsCulprit(kept, m);
    if failWarnings {
      FailWarnings(doc, compile);
    }
  }

  /** A span a rule finds in a readable file it accepts is one of the matches of all files. */
  lemma FoundIsMatched(files: seq<File>, tests: seq<Test>, accepts: (string, string) -> bool,
                       find: (string, string) -> seq<Span>, i: nat, test: Test, span: Span) returns (m: Match)
    requires SpansInside(find)
    requires test in tests && i < |files| && files[i].content.Some?
    requires accepts(test.filePattern, files[i].path) && span in find(test.pattern, files[i].content.value)
    ensures m in AllMatches(files, tests, accepts, find)
    ensures m.filename == files[i].path && m.content == files[i].content.value && m.test == test && m.span == span
    ensures m.line == LineOf(files[i].content.value, span.start)
  {
    var path, text := files[i].path, files[i].content.value;
    RulesMatchesExactly(path, text, tests, accepts, find, test, span);
    m :| m in RulesMatches(path, text, tests, accepts, find) && m.test == test && m.span == span;
  }

  /** A reported match has its culprit among the culprits. */
  lemma KeptIsCulprit(kept: seq<Match>, m: Match)
    requires AllValid(kept) && m in kept
    ensures ValidSpan(m.content, m.span) && CulpritOf(m) in Culprits(kept)
  {
    var j :| 0 <= j < |kept| && kept[j] == m;
    assert Culprits(kept)[j] == CulpritOf(m);
  }

  /** An empty configuration lints nothing, warns, and exits 0. */
  lemma EmptyConfigExitsZero(failWarnings: bool, files: seq<File>, diff: Option<string>,
                             compile: string -> Compilation, accepts: (string, string) -> bool,
                             find: (string, string) -> seq<Span>)
    requires SpansInside(find)
    ensures Run(Parsed(Null), failWarnings, files, diff, compile, accepts, find) == Exited(0, Some(EmptyWarning), [])
  {
    NoRulesNoMatches(files, accepts, find);
  }

  lemma {:induction false} NoRulesNoMatches(files: seq<File>, accepts: (string, string) -> bool,
                                            find: (string, string) -> seq<Span>)
    requires SpansInside(find)
    ensures AllMatches(files, [], accepts, find) == []
  {
    if files != [] {
      NoRulesNoMatches(files[1..], accepts, find);
    }
  }

  /**
   * With `failWarnings` (`-W`) a run that reports anything exits 1, and one
   * that reports nothing exits 0.
   */
  lemma FailWarningsExitCode(doc: Document, files: seq<File>, diff: Option<string>,
                             compile: string -> Compilation, accepts: (string, string) -> bool,
                             find: (string, string) -> seq<Span>)
    requires SpansInside(find)
    ensures var r := Run(doc, true, files, diff, compile, accepts, find);
      r.Exited? ==> (r.code == 1 <==> r.culprits != [])
  {
    var outcome := LoadConfig(doc, true, compile);
    if outcome.Loaded? {
      FailWarnings(doc, compile);
      var kept := Reported(AllMatches(files, outcome.tests, accepts, find), diff);
      if kept != [] {
        assert kept[0] in kept;
      }
    }
  }

  /** Without `-W`, a run whose rules are all warnings exits 0 whatever it reports. */
  lemma WarningsExitZero(doc: Document, files: seq<File>, diff: Option<string>,
                         compile: string -> Compilation, accepts: (string, string) -> bool,
                         find: (string, string) -> seq<Span>)
    requires SpansInside(find)
    requires LoadConfig(doc, false, compile).Loaded?
    requires forall t :: t in LoadConfig(doc, false, compile).tests ==> !t.error
    ensures Run(doc, false, files, diff, compile, accepts, find).code == 0
  {
    var kept := Reported(AllMatches(files, LoadConfig(doc, false, compile).tests, accepts, find), diff);
    assert forall i :: 0 <= i < |kept| ==> kept[i] in kept;
  }

  /** With a diff, every culprit lies on a line the diff changed in its file. */
  lemma DiffReportsChangedLines(doc: Document, failWarnings: bool, files: seq<File>, diff: string,
                                compile: string -> Compilation, accepts: (string, string) -> bool,
                                find: (string, string) -> seq<Span>)
    requires SpansInside(find)
    ensures var r := Run(doc, failWarnings, files, Some(diff), compile, accepts, find);
      r.Exited? ==> forall c :: c in r.culprits ==>
        c.filename in ChangedLines(diff) && c.line in ChangedLines(diff)[c.filename]
  {
    var outcome := LoadConfig(doc, failWarnings, compile);
    if outcome.Loaded? {
      var kept := Reported(AllMatches(files, outcome.tests, accepts, find), Some(diff));
      LocatedAllValid(kept);
      forall c | c in Culprits(kept)
        ensures c.filename in ChangedLines(diff) && c.line in ChangedLines(diff)[c.filename]
      {
        var i :| 0 <= i < |kept| && Culprits(kept)[i] == c;
        assert kept[i] in kept;
      }
    }
  }

  /** A configuration that does not parse ends the run with that error. */
  lemma ParseErrorCrashes(failWarnings: bool, files: seq<File>, diff: Option<string>,
                          compile: string -> Compilation, accepts: (string, string) -> bool,
                          find: (string, string) -> seq<Span>)
    requires SpansInside(find)
    ensures Run(ParseError, failWarnings, files, diff, compile, accepts, find) == Crashed(ConfigError(ParseErrorMessage))
  {
  }

  /**
   * The diff of relint's standard-input test keeps every match on line 1 of
   * `dummy.py`, so the run reports it.
   */
  lemma DummyDiffKeepsLineOne(s: string, context: string, ms: seq<Match>)
    requires '@' !in context && '/' !in context
    requires s == "diff --git a/" + "dummy.py" + " b/" + "dummy.py" + "\n" + ("@@ -0,0 +1 @@" + context)
    requires forall m :: m in ms ==> m.filename == "dummy.py" && m.line == 1
    ensures Reported(ms, Some(s)) == ms
  {
    DiffExamples.DummyDiffExample(s, context);
    KeepAll(ChangedLines(s), ms);
  }

  lemma {:induction false} KeepAll(content: map<string, seq<int>>, ms: seq<Match>)
    requires forall m :: m in ms ==> Changed(content, m)
    ensures MatchWithDiffChanges(content, ms) == ms
  {
    if ms != [] {
      assert ms[0] in ms;
      assert forall m :: m in ms[1..] ==> m in ms;
      KeepAll(content, ms[1..]);
      assert ms == [ms[0]] + ms[1..];
    }
  }
}
