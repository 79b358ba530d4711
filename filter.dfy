/**
 * `match_with_diff_changes`: the matches are filtered, in order, to those
 * on a line the diff changed in their file.
 */
module DiffFilter {
  import opened Lint

  /**
   * The source keeps a match when its file's list of changed lines is
   * present and non-empty and holds the match's line.
   */
  predicate Changed(content: map<string, seq<int>>, m: Match) {
    m.filename in content && content[m.filename] != [] && m.line in content[m.filename]
  }

  function MatchWithDiffChanges(content: map<string, seq<int>>, matches: seq<Match>): (kept: seq<Match>)
    ensures |kept| <= |matches|
    ensures forall m :: m in kept <==> m in matches && Changed(content, m)
  {
    if matches == [] then []
    else
      var rest := MatchWithDiffChanges(content, matches[1..]);
      if Changed(content, matches[0]) then [matches[0]] + rest else rest
  }

  /** The non-emptiness test is implied by the membership test. */
  lemma ChangedIsMembership(content: map<string, seq<int>>, m: Match)
    ensures Changed(content, m) <==> m.filename in content && m.line in content[m.filename]
  {
  }

  /**
   * The filter keeps the input order: filtering a concatenation
   * concatenates the filtered parts.
   */
  lemma {:induction false} FilterAppend(content: map<string, seq<int>>, a: seq<Match>, b: seq<Match>)
    ensures MatchWithDiffChanges(content, a + b) == MatchWithDiffChanges(content, a) + MatchWithDiffChanges(content, b)
  {
    if a == [] {
      assert a + b == b;
    } else {
      assert (a + b)[1..] == a[1..] + b;
      FilterAppend(content, a[1..], b);
    }
  }

  /** Filtering twice with the same changes is filtering once. */
  lemma {:induction false} FilterIdempotent(content: map<string, seq<int>>, matches: seq<Match>)
    ensures MatchWithDiffChanges(content, MatchWithDiffChanges(content, matches)) == MatchWithDiffChanges(content, matches)
  {
    if matches != [] {
      FilterIdempotent(content, matches[1..]);
      var rest := MatchWithDiffChanges(content, matches[1..]);
      if Changed(content, matches[0]) {
        assert ([matches[0]] + rest)[1..] == rest;
      }
    }
  }

  /**
   * The example of relint's tests: with changes `{"test_parse.py": [2],
   * "setup.py": [6]}`, of matches on `test_parse.py` line 2 and on line 1
   * of two files absent from the diff only the first is kept.
   */
  lemma FilterExample(m1: Match, m2: Match, m3: Match)
    requires m1.filename == "test_parse.py" && m1.line == 2
    requires m2.filename == "test_relint2.py" && m2.line == 1
    requires m3.filename == "test_relint3.py" && m3.line == 1
    ensures MatchWithDiffChanges(map["test_parse.py" := [2], "setup.py" := [6]], [m1, m2, m3]) == [m1]
  {
    var content := map["test_parse.py" := [2], "setup.py" := [6]];
    assert "test_relint2.py" != "test_parse.py" && "test_relint2.py" != "setup.py" by {
      assert "test_relint2.py"[5] != "test_parse.py"[5];
      assert |"test_relint2.py"| != |"setup.py"|;
    }
    assert "test_relint3.py" != "test_parse.py" && "test_relint3.py" != "setup.py" by {
      assert "test_relint3.py"[5] != "test_parse.py"[5];
      assert |"test_relint3.py"| != |"setup.py"|;
    }
    assert Changed(content, m1) by {
      assert 2 in content["test_parse.py"];
    }
    assert !Changed(content, m2) && !Changed(content, m3);
    assert [m3][1..] == [];
    assert MatchWithDiffChanges(content, [m3]) == [];
    assert [m2, m3][1..] == [m3];
    assert MatchWithDiffChanges(content, [m2, m3]) == [];
    assert [m1, m2, m3][1..] == [m2, m3];
  }
}
