/**
 * Line and column arithmetic of relint's reports. A match is a span of
 * character offsets into the linted file; its line is one more than the
 * number of newlines before its start, and its column is its distance from
 * the newline before it (or from the virtual position -1 when there is
 * none), so both are 1-based.
 */
module Offsets {
  import opened Text

  /** A regex match: the half-open range `[start, end)` of the content. */
  datatype Span = Span(start: nat, end: nat)

  predicate ValidSpan(content: string, sp: Span) {
    sp.start <= sp.end <= |content|
  }

  /** The 1-based line holding offset `off`. */
  function LineOf(content: string, off: nat): (line: nat)
    requires off <= |content|
    ensures line >= 1
    ensures line == 1 <==> '\n' !in content[..off]
  {
    1 + Count(content[..off], '\n')
  }

  /**
   * The index of the last newline strictly before `off`, or -1 when there is
   * none: Python's `content.rfind("\n", 0, off)`.
   */
  function LastNewlineBefore(content: string, off: nat): (k: int)
    requires off <= |content|
    ensures -1 <= k < off
    ensures k >= 0 ==> content[k] == '\n'
    ensures forall j :: k < j < off ==> content[j] != '\n'
  {
    if off == 0 then -1
    else if content[off - 1] == '\n' then off - 1
    else LastNewlineBefore(content, off - 1)
  }

  /** The 1-based column of offset `off` within its line. */
  function ColumnOf(content: string, off: nat): (col: nat)
    requires off <= |content|
    ensures 1 <= col <= off + 1
    ensures col == off + 1 <==> '\n' !in content[..off]
  {
    assert LastNewlineBefore(content, off) >= 0 ==> content[..off][LastNewlineBefore(content, off)] == '\n';
    off - LastNewlineBefore(content, off)
  }

  /** The position relint reports for a match. */
  datatype Location = Location(line: nat, endLine: nat, col: nat, colEnd: nat)

  /**
   * The line and column of a match's start and of its end. The end line is
   * never before the start line; the two are equal exactly when the match
   * holds no newline, and then the columns differ by the match's length.
   */
  function Locate(content: string, sp: Span): (loc: Location)
    requires ValidSpan(content, sp)
    ensures loc.line == LineOf(content, sp.start) && loc.endLine == LineOf(content, sp.end)
    ensures loc.col == ColumnOf(content, sp.start) && loc.colEnd == ColumnOf(content, sp.end)
    ensures loc.line >= 1 && loc.col >= 1 && loc.colEnd >= 1 && loc.endLine >= loc.line
    ensures loc.endLine == loc.line <==> '\n' !in content[sp.start..sp.end]
    ensures loc.endLine == loc.line ==> loc.colEnd - loc.col == sp.end - sp.start
  {
    LineSpan(content, sp.start, sp.end);
    assert '\n' !in content[sp.start..sp.end] ==>
      LastNewlineBefore(content, sp.end) == LastNewlineBefore(content, sp.start) by {
      if '\n' !in content[sp.start..sp.end] {
        LastNewlineSkips(content, sp.start, sp.end);
      }
    }
    Location(LineOf(content, sp.start), LineOf(content, sp.end),
             ColumnOf(content, sp.start), ColumnOf(content, sp.end))
  }

  /** The lines a span covers differ by the newlines inside the span. */
  lemma {:induction false} LineSpan(content: string, a: nat, b: nat)
    requires a <= b <= |content|
    ensures LineOf(content, b) - LineOf(content, a) == Count(content[a..b], '\n')
    ensures LineOf(content, a) <= LineOf(content, b)
  {
    assert content[..b] == content[..a] + content[a..b];
    CountAppend(content[..a], content[a..b], '\n');
  }

  /**
   * The column counts the characters since the start of the line: the
   * `col - 1` characters before `off` hold no newline, and the one before
   * them, if any, is a newline.
   */
  lemma ColumnIsLineOffset(content: string, off: nat)
    requires off <= |content|
    ensures var col := ColumnOf(content, off);
      '\n' !in content[off - col + 1..off] &&
      (col <= off ==> content[off - col] == '\n')
  {
    var k := LastNewlineBefore(content, off);
    assert off - ColumnOf(content, off) + 1 == k + 1;
    forall j | k + 1 <= j < off
      ensures content[j] != '\n'
    {
    }
  }

  /** The newline before `off` is the last one before the spans it starts. */
  lemma {:induction false} LastNewlineSkips(content: string, a: nat, b: nat)
    requires a <= b <= |content|
    requires '\n' !in content[a..b]
    ensures LastNewlineBefore(content, b) == LastNewlineBefore(content, a)
    decreases b
  {
    if b > a {
      assert content[b - 1] == content[a..b][b - 1 - a];
      assert content[a..b - 1] == content[a..b][..b - 1 - a];
      LastNewlineSkips(content, a, b - 1);
    }
  }

  /**
   * `FIXME` in `# FIXME do something`, the span 2 to 7, is reported at
   * line 1 to 1, columns 3 to 8.
   */
  lemma FixmeLocation(content: string)
    requires content == "# FIXME do something"
    ensures Locate(content, Span(2, 7)) == Location(1, 1, 3, 8)
  {
    assert '\n' !in content[..7];
    assert content[..2] == content[..7][..2];
  }
}
