/**
 * What the two reporters of relint compute besides their rendering: the
 * exit code folded over the matches and, for every match, the level, the
 * lines and (for GitHub Actions annotations) the columns it is reported at.
 */
module Report {
  import opened Text
  import opened Offsets
  import opened Config
  import opened Lint

  /**
   * One step of the fold: while the code is 0 it becomes the match's
   * `error` flag (true counting as 1); once non-zero it stays.
   */
  function NextExitCode(code: nat, error: bool): nat {
    if code == 0 then (if error then 1 else 0) else code
  }

  /** The exit code after folding over `matches` in order. */
  function ExitCode(matches: seq<Match>): (code: nat)
    ensures code <= 1
    ensures code == 1 <==> exists i :: 0 <= i < |matches| && matches[i].test.error
  {
    if matches == [] then 0
    else
      var init := matches[..|matches| - 1];
      var code := NextExitCode(ExitCode(init), matches[|matches| - 1].test.error);
      code
  }

  /** Once some match has set the code to 1, later matches never reset it. */
  lemma ExitCodeSticky(a: seq<Match>, b: seq<Match>)
    requires ExitCode(a) == 1
    ensures ExitCode(a + b) == 1
  {
    var i :| 0 <= i < |a| && a[i].test.error;
    assert (a + b)[i] == a[i];
  }

  datatype Level = Error | Warning

  function LevelOf(test: Test): (level: Level)
    ensures level == Error <==> test.error
  {
    if test.error then Error else Warning
  }

  /** All matches lie in their content, as regex matches do. */
  predicate AllValid(matches: seq<Match>) {
    forall i :: 0 <= i < |matches| ==> ValidSpan(matches[i].content, matches[i].span)
  }

  lemma AllValidSuffix(matches: seq<Match>)
    requires AllValid(matches) && matches != []
    ensures AllValid(matches[1..])
  {
    assert forall j :: 0 <= j < |matches| - 1 ==> matches[1..][j] == matches[j + 1];
  }

  lemma AllValidPrefix(matches: seq<Match>, i: nat)
    requires AllValid(matches) && i <= |matches|
    ensures AllValid(matches[..i])
  {
    assert forall j :: 0 <= j < i ==> matches[..i][j] == matches[j];
  }

  /** The fold's code is 1 exactly when some culprit is reported at the error level. */
  lemma ExitCodeCulprits(matches: seq<Match>)
    requires AllValid(matches)
    ensures ExitCode(matches) == 1 <==> exists c :: c in Culprits(matches) && c.level == Error
  {
    var cs := Culprits(matches);
    if ExitCode(matches) == 1 {
      var i :| 0 <= i < |matches| && matches[i].test.error;
      assert cs[i] in cs;
    }
  }

  /** One more match folds one more step into the exit code. */
  lemma ExitCodeStep(matches: seq<Match>, i: nat)
    requires i < |matches|
    ensures ExitCode(matches[..i + 1]) == NextExitCode(ExitCode(matches[..i]), matches[i].test.error)
  {
    assert matches[..i + 1][..i] == matches[..i];
  }

  /** A GitHub Actions annotation, before formatting. */
  datatype Annotation = Annotation(level: Level, filename: string, location: Location, title: Value, hint: Value)

  /** The annotation of one match: at its lines and 1-based columns. */
  function AnnotationOf(m: Match): (a: Annotation)
    requires ValidSpan(m.content, m.span)
    ensures a.level == Error <==> m.test.error
    ensures 1 <= a.location.line <= a.location.endLine && a.location.col >= 1 && a.location.colEnd >= 1
  {
    Annotation(LevelOf(m.test), m.filename, Locate(m.content, m.span), m.test.name, m.test.hint)
  }

  /** The annotations of the matches, in order. */
  function Annotations(matches: seq<Match>): (anns: seq<Annotation>)
    requires AllValid(matches)
    ensures |anns| == |matches|
    ensures forall i :: 0 <= i < |matches| ==> anns[i] == AnnotationOf(matches[i])
  {
    if matches == [] then []
    else
      AllValidSuffix(matches);
      [AnnotationOf(matches[0])] + Annotations(matches[1..])
  }

  lemma AnnotationsStep(matches: seq<Match>, i: nat)
    requires AllValid(matches) && i < |matches|
    ensures AllValid(matches[..i]) && AllValid(matches[..i + 1])
    ensures Annotations(matches[..i + 1]) == Annotations(matches[..i]) + [AnnotationOf(matches[i])]
  {
    AllValidPrefix(matches, i);
    AllValidPrefix(matches, i + 1);
    var longer := Annotations(matches[..i + 1]);
    var shorter := Annotations(matches[..i]) + [AnnotationOf(matches[i])];
    forall k | 0 <= k < i + 1
      ensures longer[k] == shorter[k]
    {
      assert matches[..i + 1][k] == matches[k];
      if k < i {
        assert matches[..i][k] == matches[k];
      }
    }
  }

  /**
   * `print_github_actions_output`: the exit code and one annotation per
   * match, in order.
   */
  method PrintGithubActionsOutput(matches: seq<Match>) returns (exitCode: nat, annotations: seq<Annotation>)
    requires AllValid(matches)
    ensures exitCode == ExitCode(matches)
    ensures exitCode == 1 <==> exists i :: 0 <= i < |matches| && matches[i].test.error
    ensures annotations == Annotations(matches)
  {
    exitCode := 0;
    annotations := [];
    AllValidPrefix(matches, 0);
    for i := 0 to |matches|
      invariant AllValid(matches[..i])
      invariant exitCode == ExitCode(matches[..i])
      invariant annotations == Annotations(matches[..i])
    {
      var m := matches[i];
      ExitCodeStep(matches, i);
      AnnotationsStep(matches, i);
      exitCode := NextExitCode(exitCode, m.test.error);
      annotations := annotations + [AnnotationOf(m)];
    }
    assert matches[..|matches|] == matches;
  }


  /** A reported culprit, before rendering: its level, rule, file and lines. */
  datatype Culprit = Culprit(level: Level, title: Value, filename: string, line: nat, endLine: nat, hint: Value)

  /** The culprit of one match: from the line of its start to the line of its end. */
  function CulpritOf(m: Match): (c: Culprit)
    requires ValidSpan(m.content, m.span)
    ensures c.level == Error <==> m.test.error
    ensures 1 <= c.line <= c.endLine
    ensures c.endLine - c.line == Count(m.content[m.span.start..m.span.end], '\n')
  {
    LineSpan(m.content, m.span.start, m.span.end);
    Culprit(LevelOf(m.test), m.test.name, m.filename,
            LineOf(m.content, m.span.start), LineOf(m.content, m.span.end), m.test.hint)
  }

  /** The culprits of the matches, in order. */
  function Culprits(matches: seq<Match>): (cs: seq<Culprit>)
    requires AllValid(matches)
    ensures |cs| == |matches|
    ensures forall i :: 0 <= i < |matches| ==> cs[i] == CulpritOf(matches[i])
  {
    if matches == [] then []
    else
      AllValidSuffix(matches);
      [CulpritOf(matches[0])] + Culprits(matches[1..])
  }

  lemma CulpritsStep(matches: seq<Match>, i: nat)
    requires AllValid(matches) && i < |matches|
    ensures AllValid(matches[..i]) && AllValid(matches[..i + 1])
    ensures Culprits(matches[..i + 1]) == Culprits(matches[..i]) + [CulpritOf(matches[i])]
  {
    AllValidPrefix(matches, i);
    AllValidPrefix(matches, i + 1);
    var longer := Culprits(matches[..i + 1]);
    var shorter := Culprits(matches[..i]) + [CulpritOf(matches[i])];
    forall k | 0 <= k < i + 1
      ensures longer[k] == shorter[k]
    {
      assert matches[..i + 1][k] == matches[k];
      if k < i {
        assert matches[..i][k] == matches[k];
      }
    }
  }

  /**
   * `print_culprits` without grouping: the exit code and one culprit per
   * match, in order.
   */
  method PrintCulprits(matches: seq<Match>) returns (exitCode: nat, culprits: seq<Culprit>)
    requires AllValid(matches)
    ensures exitCode == ExitCode(matches)
    ensures exitCode == 1 <==> exists i :: 0 <= i < |matches| && matches[i].test.error
    ensures culprits == Culprits(matches)
  {
    exitCode := 0;
    culprits := [];
    AllValidPrefix(matches, 0);
    for i := 0 to |matches|
      invariant AllValid(matches[..i])
      invariant exitCode == ExitCode(matches[..i])
      invariant culprits == Culprits(matches[..i])
    {
      var m := matches[i];
      ExitCodeStep(matches, i);
      CulpritsStep(matches, i);
      exitCode := NextExitCode(exitCode, m.test.error);
      culprits := culprits + [CulpritOf(m)];
    }
    assert matches[..|matches|] == matches;
  }

}
