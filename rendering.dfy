/**
 The text a matrix context produces when it sees its closing `]`: a LaTeX
 `array` environment inside `\left[ ... \right]`, one line per matrix row.
 */
module MatrixRendering {
  import opened Text

  /** Placed between the cells of a row. */
  const CellSeparator: string := " & "
  /** Placed between rows: a LaTeX row break and a newline. */
  const RowSeparator: string := "\\\\\n"
  /** Everything before the column specification. */
  const BlockHead: string := "\\left[\n\\begin{array}{"
  /** Closes the column specification. */
  const SpecEnd: string := "}\n"
  /** Everything after the last row. */
  const BlockTail: string := "\n\\end{array}\n\\right]"

  /** The column specification for `n` columns: a `c` per column, with one
      `|` right after column `bar` when `1 <= bar <= n`, and none otherwise. */
  function ColumnSpec(n: nat, bar: int): string
  {
    if 1 <= bar <= n then Repeat('c', bar) + "|" + Repeat('c', n - bar)
    else Repeat('c', n)
  }

  /** Each row's cells joined by the cell separator, row for row. */
  function RowTexts(rows: seq<seq<string>>): (r: seq<string>)
    ensures |r| == |rows|
    ensures forall k :: 0 <= k < |rows| ==> r[k] == Join(rows[k], CellSeparator)
  {
    if rows == [] then []
    else RowTexts(rows[..|rows| - 1]) + [Join(rows[|rows| - 1], CellSeparator)]
  }

  /** The rendered matrix: the column specification sized by the first row,
      then the rows separated by row breaks. */
  function Block(rows: seq<seq<string>>, bar: int): string
    requires |rows| >= 1
  {
    BlockHead + ColumnSpec(|rows[0]|, bar) + SpecEnd
    + Join(RowTexts(rows), RowSeparator) + BlockTail
  }

  /** Extending the specification by one column adds a `c`, followed by the
      bar exactly when the new column is column `bar`. */
  lemma {:induction false} ColumnSpecStep(i: nat, bar: int)
    ensures ColumnSpec(i + 1, bar) == ColumnSpec(i, bar) + "c" + (if i == bar - 1 then "|" else "")
  {
  }

  /** The specification names exactly `n` columns and holds a bar exactly
      when `1 <= bar <= n`. */
  lemma {:induction false} ColumnSpecCounts(n: nat, bar: int)
    ensures Count('c', ColumnSpec(n, bar)) == n
    ensures Count('|', ColumnSpec(n, bar)) == if 1 <= bar <= n then 1 else 0
  {
    CountUniform('c', Repeat('c', n));
    CountZeroIffAbsent('|', Repeat('c', n));
    if 1 <= bar <= n {
      var left, right := Repeat('c', bar), Repeat('c', n - bar);
      CountUniform('c', left);
      CountUniform('c', right);
      CountZeroIffAbsent('|', left);
      CountZeroIffAbsent('|', right);
      CountConcat('c', left, "|");
      CountConcat('c', left + "|", right);
      CountConcat('|', left, "|");
      CountConcat('|', left + "|", right);
    }
  }

  /** A string holding `c` once, between two pieces free of it. */
  lemma CountOnce(c: char, a: string, b: string)
    requires c !in a && c !in b
    ensures Count(c, a + [c] + b) == 1
  {
    CountZeroIffAbsent(c, a);
    CountZeroIffAbsent(c, b);
    CountConcat(c, a, [c]);
    CountConcat(c, a + [c], b);
  }

  /** Newlines in the fixed pieces of the block. */
  lemma FrameLines()
    ensures Count('\n', BlockHead) == 1 && Count('\n', SpecEnd) == 1
    ensures Count('\n', BlockTail) == 2 && Count('\n', RowSeparator) == 1
    ensures Count('\n', CellSeparator) == 0
  {
    HeadLines();
    TailLines();
    assert SpecEnd == "}" + ['\n'] + "";
    CountOnce('\n', "}", "");
    assert RowSeparator == "\\\\" + ['\n'] + "";
    CountOnce('\n', "\\\\", "");
    CountZeroIffAbsent('\n', CellSeparator);
  }

  /** The head holds the one newline after `\left[`. */
  lemma HeadLines()
    ensures Count('\n', BlockHead) == 1
  {
    assert BlockHead == "\\left[" + ['\n'] + "\\begin{array}{";
    CountOnce('\n', "\\left[", "\\begin{array}{");
  }

  /** The tail holds the newlines before `\end{array}` and `\right]`. */
  lemma TailLines()
    ensures Count('\n', BlockTail) == 2
  {
    assert BlockTail == ("" + ['\n'] + "\\end{array}") + ("" + ['\n'] + "\\right]");
    CountOnce('\n', "", "\\end{array}");
    CountOnce('\n', "", "\\right]");
    CountConcat('\n', "" + ['\n'] + "\\end{array}", "" + ['\n'] + "\\right]");
  }

  /** With no newline in any cell, the joined rows hold exactly the
      newlines of the row separators. */
  lemma {:induction false} BodyLines(rows: seq<seq<string>>)
    requires |rows| >= 1
    requires forall i, j :: 0 <= i < |rows| && 0 <= j < |rows[i]| ==> '\n' !in rows[i][j]
    ensures Count('\n', Join(RowTexts(rows), RowSeparator)) == |rows| - 1
  {
    FrameLines();
    var texts := RowTexts(rows);
    forall k | 0 <= k < |rows|
      ensures '\n' !in texts[k]
    {
      if |rows[k]| >= 1 {
        CountAllAbsent('\n', rows[k]);
        CountJoin('\n', rows[k], CellSeparator);
        CountZeroIffAbsent('\n', texts[k]);
      }
    }
    CountAllAbsent('\n', texts);
    CountJoin('\n', texts, RowSeparator);
  }

  /** When no cell holds a newline, the rendered block has exactly one line
      per row plus the three lines of the environment's frame. */
  lemma {:induction false} BlockLines(rows: seq<seq<string>>, bar: int)
    requires |rows| >= 1
    requires forall i, j :: 0 <= i < |rows| && 0 <= j < |rows[i]| ==> '\n' !in rows[i][j]
    ensures Count('\n', Block(rows, bar)) == |rows| + 3
  {
    FrameLines();
    BodyLines(rows);
    var body := Join(RowTexts(rows), RowSeparator);
    var spec := ColumnSpec(|rows[0]|, bar);
    assert '\n' !in spec;
    CountZeroIffAbsent('\n', spec);
    CountConcat('\n', BlockHead, spec);
    CountConcat('\n', BlockHead + spec, SpecEnd);
    CountConcat('\n', BlockHead + spec + SpecEnd, body);
    CountConcat('\n', BlockHead + spec + SpecEnd + body, BlockTail);
  }

  /** The `]` renderer: a counting loop writes the column specification and
      a loop over the rows collects each row's joined cells. */
  method RenderBlock(rows: seq<seq<string>>, barIndex: int) returns (block: string)
    requires |rows| >= 1
    ensures block == Block(rows, barIndex)
  {
    block := BlockHead;
    for i := 0 to |rows[0]|
      invariant block == BlockHead + ColumnSpec(i, barIndex)
    {
      ColumnSpecStep(i, barIndex);
      block := block + "c";
      if i == barIndex - 1 {
        block := block + "|";
      }
    }
    block := block + SpecEnd;
    var compiledRows: seq<string> := [];
    for i := 0 to |rows|
      invariant compiledRows == RowTexts(rows[..i])
    {
      assert rows[..i + 1][..i] == rows[..i];
      compiledRows := compiledRows + [Join(rows[i], CellSeparator)];
    }
    assert rows[..|rows|] == rows;
    block := block + Join(compiledRows, RowSeparator);
    block := block + BlockTail;
  }
}
