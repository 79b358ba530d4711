# relint, modelled in Dafny

relint is a linter driven by regular expressions. A YAML configuration file
lists rules. Each rule has a `name`, a `pattern`, an optional `hint`, an
optional `filePattern` (which files it applies to, `.*` by default) and an
`error` flag (true by default). relint runs every rule over every file and
reports each match with its file and line. It exits 1 when a match belongs to
a rule marked as an error, and 0 otherwise.

Given a `git diff` (read from standard input or from `git diff --staged`),
relint keeps only the matches that lie on lines the diff adds.

This project models the core of relint: `relint/parse.py` and
`relint/config.py`.

- **`Hunks`**: `parse_line_numbers`. The hunk-header pattern
  `@ -\d+(,\d+)? \+(\d+)(,)?(\d+)? @` is a scanner over positions that
  behaves like `finditer`. Each header yields the lines it adds: `start`
  alone when there is no count, otherwise `range(start, start + count)`.
- **`DiffSplit`**: `parse_filenames`, `split_diff_content_by_filename` and
  `parse_diff`.
  - The file-header pattern is a second scanner.
  - `re.split` is a function on positions.
  - The dictionary built from `zip` is a `map`.
  - The round-trip lemmas work on a diff rendered from a list of files.
- **`DiffExamples`**: the diffs from relint's tests, read back through the
  model.
- **`Offsets`**: the line and column arithmetic on match offsets
  (`str.count("\n")`, `str.rfind("\n", 0, i)`).
- **`Config`**: `load_config`. It covers:
  - the defaults of each rule;
  - the order in which an entry is checked;
  - how a malformed document is classified: a warning that keeps the rules
    loaded so far, or a `ConfigError`, a `KeyError` or a pattern error.
- **`Lint`**: `lint_file`. Every rule whose file pattern accepts the file is
  run over its content, and each match is recorded with its line.
- **`DiffFilter`**: `match_with_diff_changes`.
- **`Report`**: the exit-code fold shared by `print_github_actions_output`
  and `print_culprits`, plus the lines, columns and level each of them
  reports for a match. Both are methods with loops, proved against sequence
  functions.
- **`Pipeline`**: a run put together as relint's command line does it:
  load, lint, filter, report.

Regular-expression matching of user patterns, regular-expression compilation
and YAML parsing belong to libraries, so the model takes them as parameters:
- `find(pattern, content)` gives the spans of the non-overlapping matches.
  The model only assumes these spans lie inside the content.
- `accepts(filePattern, path)` models `re.match`.
- `compile(pattern)` either succeeds, raises a pattern error or raises a
  value error.
- The parsed YAML document is a `Value` tree, or a parse failure.

Two consequences of the code as written are stated as lemmas:
- `DiffSplit.LoneHeader`: a header line with nothing after it names a file,
  but that file gets no entry in the dictionary, because both pieces around
  the header are empty and are filtered out.
- `DiffSplit.PreambleShift`: text in front of the first header line (a
  commit header, as `git show` prints it) is paired with the first file.
  Every later file is paired with the body of the file before it.

## Model

| member | source | states |
|---|---|---|
| Text.Count | relint/parse.py:31 | `str.count` of one character: at most the length, and zero exactly when the character is absent |
| Text.DecimalRoundTrip | relint/parse.py:61 | `int()` of the decimal digits written for `n` gives back `n` |
| Hunks.OldSideSound | relint/parse.py:16 | whatever the scanner takes for `@ -\d+(,\d+)? \+` is `@ -`, digits, optionally a comma and digits, then ` +` |
| Hunks.OldSideRead | relint/parse.py:16 | conversely, such an old side written at a position is taken whole, ending just after its `+` |
| Hunks.CountSound | relint/parse.py:16 | whatever the scanner takes for `(,)?(\d+)? @` is an optional comma, optional digits and ` @`, and the count it returns is the value of those digits (none without digits) |
| Hunks.CountRead | relint/parse.py:16 | conversely, such a count text is taken whole and read as its digits' value |
| Hunks.ScanHunkSound | relint/parse.py:16 | a hunk-pattern match at a position is a header `@ -d1[,c1] +d2<count> @` written there, where the count text is an optional comma and optional digits, and the hunk is `d2` with the count's value |
| Hunks.ScanCoreText | relint/parse.py:16 | conversely, on a written header `@ -d1[,c1] +d2[,c2] @` the scanner reads the new side `d2` and `c2` whatever the old side holds |
| Hunks.HunksFromSound | relint/parse.py:58 | every hunk `finditer` reports is the hunk of a pattern match at some position of the text |
| Hunks.NoHunksWithoutAt | relint/parse.py:58 | text with no `@` from a position on yields no hunk from there |
| Hunks.HunksAppendLine | relint/parse.py:58 | the matches of two texts joined by a newline are the matches of the first followed by those of the second: no match spans a line break |
| Hunks.Range | relint/parse.py:64 | `range(start, start + n)` has `n` increasing elements, exactly the numbers from `start` below `start + n` |
| Hunks.RangeAt | relint/parse.py:64 | the k-th element of `range(start, start + n)` is `start + k` |
| Hunks.CollectLines | relint/parse.py:60-66 | the loop extends the list with each match's added lines in the order of the matches: the whole range when there is a count, the start alone otherwise |
| Hunks.ParseLineNumbers | relint/parse.py:57-68 | returns, in order, the added lines of every header `finditer` finds |
| Hunks.AddedLinesLength | relint/parse.py:60-66 | the number of line numbers is the sum of the counts, where a header without a count adds one |
| Hunks.AddedLinesMembership | relint/parse.py:60-66 | a line is in the result iff some header's added range covers it: `[start, start + count)` or just `start` |
| Hunks.LineNumbersCharacterised | relint/parse.py:35-68 | `parse_line_numbers(output)` contains `x` iff some hunk header found in `output` covers `x`; its length is the sum of the header sizes |
| Hunks.LineNumbersAppendLine | relint/parse.py:57-68 | the line numbers of two texts joined by a newline are those of the first followed by those of the second |
| Hunks.CountSuffixRoundTrip | relint/parse.py:62-66 | the count written after a comma is read back as that count, and a missing count as none |
| Hunks.HeaderLineRoundTrip | relint/parse.py:57-68 | a header line git writes for a hunk yields that hunk followed by whatever its context yields from the closing `@` on; with no `@` in the context, exactly that hunk and its added lines (none for a count of 0, the start alone without a count) |
| Hunks.RenderedHunksRoundTrip | relint/parse.py:57-68 | a body of header lines, each with its context, yields every hunk in order and their added lines, when no context holds an `@` |
| Hunks.TwoLineHunkExample | tests/test_parse.py:20-23 | `@@ -4,2 +4,2 @@ import glob` gives `[4, 5]` |
| Hunks.OneLineHunkExample | tests/test_parse.py:25-28 | `@@ -54 +54 @@ import glob` gives `[54]` |
| DiffSplit.LineEnd | relint/parse.py:17 | `.*` stops at the next newline or at the end of the text |
| DiffSplit.LastSeparator | relint/parse.py:17 | the greedy `a\/.* b\/` settles on the last ` b/` of the line |
| DiffSplit.HeaderLineSound | relint/parse.py:17 | whatever the scanner takes for a header line is `diff --git a/`, an old path, ` b/` and a new path without ` b/`, up to a newline or the end of the text, and the captured path is that new path |
| DiffSplit.HeaderLineComplete | relint/parse.py:17 | conversely, every such line is taken whole, its newline included, and captures its new path |
| DiffSplit.HeaderAtSound | relint/parse.py:17-18 | a header match at a position starts there and is a newline followed by a header line, or a header line at the start of the text (`^` holds only at position 0) |
| DiffSplit.HeadersFromSound | relint/parse.py:72 | every match `findall` reports is a header match at its own start, in order and without overlap |
| DiffSplit.NoHeadersFrom | relint/parse.py:72 | with no header match from a position on, nothing is found from there |
| DiffSplit.SomeHeaderFrom | relint/parse.py:72 | a header match at or after a position means something is found from there |
| DiffSplit.ParseFilenamesSound | relint/parse.py:71-72 | `parse_filenames` returns one path per match, each the captured new path of a header match, the matches in order and not overlapping |
| DiffSplit.SplitGaps | relint/parse.py:88 | `re.split` yields the text before the first match, between each match and the next and after the last: one more piece than matches |
| DiffSplit.NonEmpty | relint/parse.py:89 | the filter keeps exactly the non-empty pieces, and no more pieces than it was given |
| DiffSplit.NonEmptyAppend | relint/parse.py:89 | the filter keeps the order of the pieces: filtering a concatenation concatenates the filtered parts |
| DiffSplit.ZipToMapKeys | relint/parse.py:91-92 | the dictionary's keys are the paths `zip` pairs with a piece, which stops at the shorter list |
| DiffSplit.ZipToMapLastWins | relint/parse.py:91-92 | a path paired with a piece and not paired again later maps to that piece |
| DiffSplit.AssignKeys | relint/parse.py:91-92 | filling the dictionary from equally long lists: its keys are exactly the paths |
| DiffSplit.AssignLastWins | relint/parse.py:91-92 | a path that appears several times maps to the piece paired with its last occurrence |
| DiffSplit.SplitDiffContentByFilename | relint/parse.py:75-93 | the loop stores the zipped pairs of paths and non-empty pieces into the dictionary |
| DiffSplit.ParseDiff | relint/parse.py:204-210 | every file of the split maps to the hunk line numbers of its piece |
| DiffSplit.NoHeaderNoFiles | relint/parse.py:71-93 | no file names iff the text holds no header match, and then both dictionaries are empty; a text neither starting with `diff --git a/` nor holding it after a newline holds no match |
| DiffSplit.NoHeaderLineWithout | relint/parse.py:17 | a text lacking one of the characters of `diff --git a/` neither starts with it nor holds it after a newline |
| DiffSplit.EmptyDiff | tests/test_parse.py:51-58 | the empty diff gives empty dictionaries from both the split and `parse_diff` |
| DiffSplit.RenderedDiffRoundTrip | relint/parse.py:71-93 | a diff written file after file, each body non-empty and none holding a later line that starts with `diff --git a/`, reads back as the files' new paths, each mapped to its own body and to its body's hunk lines |
| DiffSplit.RenderedPieces | relint/parse.py:88-89 | for such a diff, the non-empty pieces are exactly the bodies |
| DiffSplit.RenderedDiffLines | relint/parse.py:204-210 | the keys of `parse_diff` are exactly the new paths, and a path not repeated later maps to its own body's lines |
| DiffSplit.SingleFileDiff | relint/parse.py:204-210 | a one-file diff maps its new path to its body's hunk lines |
| DiffSplit.LoneHeader | relint/parse.py:87-93 | a lone header line names its file, but the file gets no entry because both pieces are empty |
| DiffSplit.PreambleSkip | relint/parse.py:17-18 | a non-empty preamble that does not start a header line and holds none after a newline starts no match, so matching and splitting begin at its end |
| DiffSplit.PreambleShift | relint/parse.py:87-92 | with such a preamble ahead of the first header, the first file is paired with the preamble, each later file with the previous body, and the last body is dropped |
| DiffSplit.PreambleTakesFirstFile | relint/parse.py:204-210 | a one-file diff behind a preamble maps the file to the preamble, so it has no changed lines when the preamble holds no `@` |
| DiffSplit.FileText | relint/parse.py:17 | the text `diff --git a/<old> b/<new>\n<body>` is one rendered file |
| DiffExamples.ShortFilenameExample | tests/test_parse.py:33 | `diff --git a/relint.py b/relint.py` gives `["relint.py"]` |
| DiffExamples.NestedFilenameExample | tests/test_parse.py:34-37 | a nested path is captured whole |
| DiffExamples.OneFile | relint/parse.py:204-210 | a one-file diff whose body has the given hunk lines maps the path to exactly those lines |
| DiffExamples.OneLineChangedExample | tests/test_parse.py:77-88 | the diff with `@@ -73 +92 @@` gives `{test_parse.py: [92]}` |
| DiffExamples.ManyLinesChangedExample | tests/test_parse.py:90-105 | `@@ -27,0 +28,6 @@` gives lines 28 to 33 |
| DiffExamples.CompleteDiffExample | tests/test_parse.py:107-120 | a diff with `index`, `---` and `+++` lines and `@@ -1,0 +2 @@` gives `[2]` |
| DiffExamples.DummyDiffExample | tests/test_main.py:138-142 | the diff fed to `--diff` gives `{dummy.py: [1]}` |
| Offsets.LineOf | relint/parse.py:31 | the 1-based line of an offset: at least 1, and 1 exactly when no newline comes before it |
| Offsets.LastNewlineBefore | relint/parse.py:102-103 | `rfind("\n", 0, off)`: -1 or the position of a newline before `off`, with no newline between it and `off` |
| Offsets.ColumnOf | relint/parse.py:102-103 | the 1-based column is between 1 and `off + 1`, and `off + 1` exactly on the first line |
| Offsets.Locate | relint/parse.py:100-103 | the reported position is the line and column of the match's start and of its end; lines and columns are at least 1, the end line is never before the start line, they are equal iff the match holds no newline, and then the columns differ by the match's length |
| Offsets.LineSpan | relint/parse.py:100-101 | the end line minus the start line counts the newlines inside the match, so it is never negative |
| Offsets.ColumnIsLineOffset | relint/parse.py:102 | the column is one more than the distance from the start of the line |
| Offsets.LastNewlineSkips | relint/parse.py:102-103 | a stretch without newlines leaves `rfind` unchanged |
| Offsets.FixmeLocation | tests/test_main.py:60-61 | `FIXME` in `# FIXME do something` is at line 1 to 1, columns 3 to 8 |
| Config.CompileStep | relint/config.py:26 | compiling a value: nothing goes wrong iff it is a string that compiles; a non-string is a type failure; a string raises the pattern error iff the engine refuses the pattern, and the "not a valid list" error iff the engine raises a value error |
| Config.LoadEntry | relint/config.py:24-43 | a non-mapping entry is the "not a valid list" error; a `filePattern` (checked first) or a `pattern` that fails to compile ends the entry as compiling it does: a pattern the engine refuses raises the pattern error, which is never a `ConfigError`, a value error is the "not a valid list" error, and a non-string is a type failure; once the file pattern compiles, a missing `name` is `KeyError("name")` and then a missing `pattern` is `KeyError("pattern")`, and a `KeyError` names a missing key; an entry is a type failure (the warning) iff its file pattern is not a string, or it compiles and `name` and `pattern` are present with a `pattern` that is not a string; a loaded rule has the entry's `name` and `pattern`, its `hint` or none, its `filePattern` or `.*`, is an error iff warnings fail, `error` is absent or `error` is truthy, and both of its patterns compile |
| Config.LoadEntries | relint/config.py:24-39 | an error is the one raised by the first entry that does not load, all before it loading; the loaded rules are the first entries, in order; a warning means the next entry was a type failure; no warning means every entry was loaded |
| Config.LoadConfig | relint/config.py:21-43 | a YAML failure is exactly the parse error; a list is loaded entry by entry; an empty or scalar document warns and loads nothing; a truthy string or mapping is the "not a valid list" error, and a falsy one loads nothing without warning |
| Config.WellFormedEntryLoads | relint/config.py:25-33 | an entry gives a rule iff it is a mapping with `name` and `pattern`, and both patterns are strings that compile |
| Config.LoadsEveryEntry | relint/config.py:24-33 | a list loads one rule per entry, without a warning, iff every entry is well formed |
| Config.EntryDefaults | relint/config.py:25-32 | a well-formed entry without `filePattern`, `hint` or `error` loads as a rule with the `.*` file pattern, which accepts every path, no hint, and the error flag |
| Config.NamePatternDefaults | relint/config.py:25-32 | an entry holding only a `name` and a compiling `pattern` loads as that name and pattern with the defaults |
| Config.DeclaredWarning | relint/config.py:32 | a rule whose `error` is falsy is an error only when warnings fail |
| Config.AllErrors | relint/config.py:32 | marking all rules as errors keeps a failure as it is, and keeps the rules' number, their order, every other field of each rule and the warning, while every rule becomes an error |
| Config.EntryFailWarnings | relint/config.py:32 | `fail_warnings` changes nothing about an entry but its rule's `error` flag |
| Config.FailWarnings | relint/config.py:21-43 | loading with `fail_warnings` is loading without it, then setting every rule's `error`; all loaded rules are errors |
| Config.DocumentShapes | tests/test_parse.py:122-155 | an empty file warns and loads nothing; `test:` and a list of strings are not a list of rules; a corrupt file is a parse error |
| Lint.RuleMatches | relint/parse.py:28-32 | a rule whose file pattern rejects the file finds nothing; otherwise there is one match per span found, in the order found, each naming the file, the rule and the content, on the line of its start; a span is reported iff the rule accepts the file and finds it |
| Lint.DefaultRuleReportsAll | relint/parse.py:28-32 | a rule loaded without `filePattern` applies to every file: every span its pattern finds is reported, in order |
| Lint.RulesMatches | relint/parse.py:28-32 | every match names the file, its content and one of the rules, and is located |
| Lint.LintFile | relint/parse.py:21-32 | an unreadable file gives no match; every match comes from the file, its content and the rules |
| Lint.RulesMatchesAppend | relint/parse.py:28 | matches come rule by rule, in the order of the rules |
| Lint.RulesMatchesExactly | relint/parse.py:28-32 | a rule and span are reported iff the rule accepts the file and finds that span |
| Lint.RulesMatchesCount | relint/parse.py:28-32 | the number of matches is the sum of the spans found by the rules that accept the file |
| DiffFilter.MatchWithDiffChanges | relint/parse.py:197-201 | a match is kept iff its file is in the diff and its line is among that file's changed lines; no match is added |
| DiffFilter.ChangedIsMembership | relint/parse.py:200 | the truthiness test on the file's list is implied by membership of the line |
| DiffFilter.FilterAppend | relint/parse.py:199-201 | the filter keeps the order: filtering a concatenation concatenates the filtered parts |
| DiffFilter.FilterIdempotent | relint/parse.py:197-201 | filtering twice is filtering once |
| DiffFilter.FilterExample | tests/test_parse.py:60-75 | of the three matches in the test, only the one on line 2 of `test_parse.py` is kept |
| Report.ExitCode | relint/parse.py:97-99 | for boolean `error` flags the fold is 0 or 1, and 1 iff some match belongs to an error rule |
| Report.ExitCodeSticky | relint/parse.py:99 | once the code is 1, later matches keep it 1 |
| Report.ExitCodeCulprits | relint/parse.py:99-122 | the code is 1 iff some reported culprit has the `error` level |
| Report.AnnotationOf | relint/parse.py:100-108 | an annotation has the rule's level, a start line no later than its end line, and columns of at least 1 |
| Report.Annotations | relint/parse.py:98-109 | one annotation per match, in order |
| Report.PrintGithubActionsOutput | relint/parse.py:96-110 | returns the fold's exit code (1 iff some error rule matched) and one annotation per match, in order |
| Report.CulpritOf | relint/parse.py:118-122 | a culprit has the rule's level, and its end line minus its start line counts the newlines inside the match |
| Report.Culprits | relint/parse.py:118-164 | one culprit per match, in order |
| Report.PrintCulprits | relint/parse.py:113-194 | returns the fold's exit code (1 iff some error rule matched) and one culprit per match, in order |
| Pipeline.AllMatches | relint/__main__.py:71 | the matches of all files: every match of every file is there, and every match comes from a given file with readable content and from a loaded rule |
| Pipeline.AllMatchesAppend | relint/__main__.py:71 | files are linted one after another: the matches of two file lists joined are the matches of the first followed by those of the second |
| Pipeline.Reported | relint/__main__.py:80-82 | without a diff every match is reported; with one, a match is kept iff it lies on a changed line of its file |
| Pipeline.Run | relint/__main__.py:69-85 | a run stops with an error iff the loader fails, and with the loader's error; otherwise it exits with the loader's warning and 0 or 1, and 1 iff some reported culprit has the `error` level; the culprits are those of the reported matches of all files, in order |
| Pipeline.RunReportsFound | relint/__main__.py:69-85 | a span that a loaded rule finds in a readable file its file pattern accepts, on a changed line when a diff is given, is reported as a culprit naming the file, the rule and the line of the span's start, at the rule's level; with `-W` the run then exits 1 |
| Pipeline.EmptyConfigExitsZero | tests/test_parse.py:122-135 | an empty configuration warns, reports nothing and exits 0 |
| Pipeline.FailWarningsExitCode | tests/test_main.py:80-89 | with `-W` a run exits 1 iff it reports something |
| Pipeline.WarningsExitZero | tests/test_main.py:133-152 | without `-W`, a run whose rules are all warnings exits 0 |
| Pipeline.DiffReportsChangedLines | relint/__main__.py:80-85 | with a diff, every reported culprit lies on a line the diff changed in its file |
| Pipeline.ParseErrorCrashes | tests/test_parse.py:148-155 | a configuration that does not parse ends the run with "Error parsing your relint config file." |
| Pipeline.DummyDiffKeepsLineOne | tests/test_main.py:133-152 | the diff of the `--diff` test keeps every match on line 1 of `dummy.py` |

## Left out

- Rendering: the `rich` panels, syntax highlighting, Markdown hints and the
  f-string output formats, including the `%0A` escaping of GitHub
  annotations. The model computes what they show (level, title, file,
  lines, columns, hint) but not the text.
- Report.PrintCulprits: the `--summarize` grouping by rule and the
  `--code-padding` window are not modelled. Only the per-match branch and
  the exit code are.
- The regular-expression engine. User patterns are run by the `find` and
  `accepts` parameters, and `re.compile` is the `compile` parameter. The
  three fixed patterns of `relint/parse.py` are modelled as scanners.
- DiffSplit.RenderedDiffRoundTrip: every body is non-empty. With an empty
  body, only newlines lie between two header lines, and the split leaves an
  empty piece between them. The filter drops it, so from that file on, each
  file is paired with the next file's body. A header line written directly
  after another header line is not matched at all: the first match takes
  the newline between them, and `^` holds only at the start of the text
  (relint/parse.py:17-18). git writes an `index`, mode or rename line after
  every header line, so neither case arises in its output.
- Hunks.RenderedHunksRoundTrip: proved for bodies whose contexts hold no
  `@`. A context with an `@` may start further matches; `HeaderLineRoundTrip`
  and `HunksAppendLine` state what such a body yields, line by line.
- Hunks.OldSideSound: `\d` is taken as the ASCII digits. Python's `re` also
  accepts other Unicode decimal digits, which git never writes.
- YAML parsing: the document is an abstract `Value`. Mapping keys are
  strings, and YAML's other scalar types are folded into these
  constructors.
- Config.LoadEntry: the rule's `error` is reduced to its truthiness:
  `fail_warnings`, no `error` key, or a truthy declared value. The source
  stores the value Python's `or` yields (relint/config.py:32), which is the
  declared value itself whenever that value is truthy.
- Report.ExitCode: its 0-or-1 result holds only for a boolean `error`. The
  fold keeps the first truthy `error` it meets (relint/parse.py:99, 119), and
  the command line passes it to `exit` (relint/__main__.py:85). So `error: 2`
  makes relint exit with status 2, and a non-empty string such as
  `error: "yes"` is printed and the exit status is 1. The model reports
  0 or 1.
- Pipeline.Run: its exit code is 0 or 1 for the same reason, the truthiness
  of `error` standing for its value.
- File input and output. A file whose reading raises `IsADirectoryError`
  or `UnicodeDecodeError`, the two failures `lint_file` absorbs, is a
  `None` content. Other failures to open a file (a missing file, a denied
  permission) propagate in the source and are not modelled. Opening the
  configuration file is folded into the document.
- `relint/__main__.py`:
  - the argument parsing, the globbing of paths into a set (so file order
    is not fixed), reading standard input, running `git diff`, `exit`, the
    warnings filter and the GitHub Actions switch are not modelled;
  - `Pipeline.Run` composes the core as the command line does;
  - as shown, `main` passes `args.msg_template`, a string, as the options
    of `print_culprits` (relint/__main__.py:84). `print_culprits` reads
    `args.summarize` after its loop (relint/parse.py:166), even when there
    is no match, so every run of the code as shown that reaches reporting
    raises `AttributeError`. The parser also defines neither `--summarize`,
    `--code-padding` nor `--ignore-warnings`. The tests expect exit codes
    from runs that use these options (tests/test_parse.py:122-135,
    tests/test_main.py:80-152);
  - `Pipeline.Run` models the call those tests expect, reporting through
    `print_culprits` with its options, not the call as written.
- The `--ignore-warnings` option is used by the tests but has no code in the
  modelled files.
- `relint.py` and `test_relint.py` at the top of the repository are not part
  of this model.
- Dictionary insertion order: the dictionaries are `map`s, so the order of
  `parse_diff`'s items is not modelled. No later step depends on it.
- Hunks.ParseLineNumbers: the docstring's reading of `+4,2` as lines 5 and 6
  disagrees with the code. The model follows the code and its test (`[4, 5]`).
- DiffExamples: the context text after each hunk header in the tests'
  diffs is a parameter, limited only by the characters it must not hold,
  rather than the literal text.
