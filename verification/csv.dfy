/** `parseCsv` of src/lib/ludus.ts: rows split on CRLF, cells on commas, no
    quoting or escaping. */
module Csv {
  import opened Strings

  const RowSeparator: string := "\r\n"
  const CellSeparator: string := ","

  type Grid = seq<seq<string>>

  function ParseCsv(txt: string): (grid: Grid)
    ensures |grid| >= 1
    ensures forall i :: 0 <= i < |grid| ==> |grid[i]| >= 1
  {
    var lines := Split(txt, RowSeparator);
    seq(|lines|, i requires 0 <= i < |lines| => Split(lines[i], CellSeparator))
  }

  /** Writes a grid back out in the same format. */
  function Unparse(grid: Grid): string {
    Join(seq(|grid|, i requires 0 <= i < |grid| => Join(grid[i], CellSeparator)), RowSeparator)
  }

  /** Parsing loses nothing: writing the grid back reproduces the text, and no
      cell contains a comma. */
  lemma ParseCsvRoundTrip(txt: string)
    ensures Unparse(ParseCsv(txt)) == txt
    ensures forall i, j :: 0 <= i < |ParseCsv(txt)| && 0 <= j < |ParseCsv(txt)[i]| ==>
              ',' !in ParseCsv(txt)[i][j]
  {
    var lines := Split(txt, RowSeparator);
    var grid := ParseCsv(txt);
    var rows := seq(|grid|, i requires 0 <= i < |grid| => Join(grid[i], CellSeparator));
    forall i | 0 <= i < |lines|
      ensures rows[i] == lines[i]
    {
      SplitJoin(lines[i], CellSeparator);
    }
    assert rows == lines;
    SplitJoin(txt, RowSeparator);
    forall i, j | 0 <= i < |grid| && 0 <= j < |grid[i]|
      ensures ',' !in grid[i][j]
    {
      SplitPiecesAvoidSep(lines[i], CellSeparator, j);
    }
  }
}
