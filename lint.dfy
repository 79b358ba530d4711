/**
 * `lint_file`: every rule whose file pattern accepts the path is run over
 * the file's content, and each match is reported with its line number.
 * Reading the file is an input (`None` when it is a directory or cannot be
 * decoded), and the regular-expression engine is abstract: `accepts` says
 * whether a file pattern matches a path, and `find` lists the spans a
 * pattern matches in a text, in order.
 */
module Lint {
  import opened Wrappers
  import opened Text
  import opened Offsets
  import opened Config

  /** A match as relint passes it along: the file, the rule, the matched text and its line. */
  datatype Match = Match(filename: string, test: Test, content: string, span: Span, line: nat)

  /** The finder only returns spans that lie in the text it searched. */
  ghost predicate SpansInside(find: (string, string) -> seq<Span>) {
    forall pattern: string, content: string, i: int ::
      0 <= i < |find(pattern, content)| ==> ValidSpan(content, find(pattern, content)[i])
  }

  /** A match whose span lies in its content and whose line is the line of its start. */
  predicate Located(m: Match) {
    ValidSpan(m.content, m.span) && m.line == LineOf(m.content, m.span.start)
  }

  /**
   * The matches of one rule: nothing when its file pattern refuses the
   * path, otherwise one located match per span found, in the finder's order.
   */
  function RuleMatches(filename: string, content: string, test: Test,
                       accepts: (string, string) -> bool, find: (string, string) -> seq<Span>): (ms: seq<Match>)
    requires SpansInside(find)
    ensures |ms| == if accepts(test.filePattern, filename) then |find(test.pattern, content)| else 0
    ensures forall i :: 0 <= i < |ms| ==>
      ms[i].span == find(test.pattern, content)[i] && ms[i].filename == filename && ms[i].test == test &&
      ms[i].content == content && Located(ms[i])
    ensures forall sp :: (exists m :: m in ms && m.span == sp) <==>
      accepts(test.filePattern, filename) && sp in find(test.pattern, content)
  {
    if !accepts(test.filePattern, filename) then []
    else
      var spans := find(test.pattern, content);
      seq(|spans|, i requires 0 <= i < |spans| =>
        Match(filename, test, content, spans[i], LineOf(content, spans[i].start)))
  }

  /** The matches of every rule, rule by rule in order. */
  function RulesMatches(filename: string, content: string, tests: seq<Test>,
                        accepts: (string, string) -> bool, find: (string, string) -> seq<Span>): (ms: seq<Match>)
    requires SpansInside(find)
    ensures forall m :: m in ms ==> m.filename == filename && m.content == content && m.test in tests && Located(m)
  {
    if tests == [] then []
    else RuleMatches(filename, content, tests[0], accepts, find) + RulesMatches(filename, content, tests[1..], accepts, find)
  }

  function LintFile(filename: string, content: Option<string>, tests: seq<Test>,
                    accepts: (string, string) -> bool, find: (string, string) -> seq<Span>): (ms: seq<Match>)
    requires SpansInside(find)
    ensures content.None? ==> ms == []
    ensures forall m :: m in ms ==> m.filename == filename && content == Some(m.content) && m.test in tests && Located(m)
  {
    match content
    case None => []
    case Some(text) => RulesMatches(filename, text, tests, accepts, find)
  }

  /** Rule order: the matches of a concatenation of rule lists are concatenated. */
  lemma {:induction false} RulesMatchesAppend(filename: string, content: string, a: seq<Test>, b: seq<Test>,
                                              accepts: (string, string) -> bool, find: (string, string) -> seq<Span>)
    requires SpansInside(find)
    ensures RulesMatches(filename, content, a + b, accepts, find)
      == RulesMatches(filename, content, a, accepts, find) + RulesMatches(filename, content, b, accepts, find)
  {
    if a == [] {
      assert a + b == b;
    } else {
      assert (a + b)[1..] == a[1..] + b;
      RulesMatchesAppend(filename, content, a[1..], b, accepts, find);
    }
  }

  /**
   * Soundness and completeness: a match is reported exactly when its rule is
   * one of the rules, its file pattern accepts the path and its span is one
   * the finder returns for its pattern.
   */
  lemma {:induction false} RulesMatchesExactly(filename: string, content: string, tests: seq<Test>,
                                               accepts: (string, string) -> bool, find: (string, string) -> seq<Span>,
                                               test: Test, span: Span)
    requires SpansInside(find)
    ensures (exists m :: m in RulesMatches(filename, content, tests, accepts, find) && m.test == test && m.span == span)
      <==> (test in tests && accepts(test.filePattern, filename) && span in find(test.pattern, content))
  {
    if tests != [] {
      RulesMatchesExactly(filename, content, tests[1..], accepts, find, test, span);
      var here := RuleMatches(filename, content, tests[0], accepts, find);
      var rest := RulesMatches(filename, content, tests[1..], accepts, find);
      if test == tests[0] && accepts(test.filePattern, filename) && span in find(test.pattern, content) {
        var i :| 0 <= i < |find(test.pattern, content)| && find(test.pattern, content)[i] == span;
        assert here[i] in here + rest;
      }
      if m :| m in here + rest && m.test == test && m.span == span {
        if m in here {
          var i :| 0 <= i < |here| && here[i] == m;
          assert find(test.pattern, content)[i] == span;
        }
      }
      assert tests == [tests[0]] + tests[1..];
    }
  }

  /**
   * A rule loaded with the default file pattern `.*`, which accepts every
   * path, reports every span its pattern finds in any file, in order.
   */
  lemma DefaultRuleReportsAll(filename: string, content: string, entry: Value, failWarnings: bool,
                              compile: string -> Compilation, accepts: (string, string) -> bool,
                              find: (string, string) -> seq<Span>)
    requires SpansInside(find)
    requires WellFormedEntry(entry, compile) && "filePattern" !in entry.entries
    requires forall path :: accepts(AnyPath, path)
    ensures LoadEntry(entry, failWarnings, compile).Rule?
    ensures var t := LoadEntry(entry, failWarnings, compile).test;
      var ms := RuleMatches(filename, content, t, accepts, find);
      |ms| == |find(t.pattern, content)| && forall i :: 0 <= i < |ms| ==> ms[i].span == find(t.pattern, content)[i]
  {
    WellFormedEntryLoads(entry, failWarnings, compile);
  }

  /**
   * The number of matches is the number of spans found by the rules whose
   * file pattern accepts the path.
   */
  function FoundCount(filename: string, content: string, tests: seq<Test>,
                      accepts: (string, string) -> bool, find: (string, string) -> seq<Span>): nat
  {
    if tests == [] then 0
    else
      var here := if accepts(tests[0].filePattern, filename) then |find(tests[0].pattern, content)| else 0;
      here + FoundCount(filename, content, tests[1..], accepts, find)
  }

  lemma {:induction false} RulesMatchesCount(filename: string, content: string, tests: seq<Test>,
                                             accepts: (string, string) -> bool, find: (string, string) -> seq<Span>)
    requires SpansInside(find)
    ensures |RulesMatches(filename, content, tests, accepts, find)| == FoundCount(filename, content, tests, accepts, find)
  {
    if tests != [] {
      RulesMatchesCount(filename, content, tests[1..], accepts, find);
    }
  }
}
