/**
  * The row parser of phase3/transport.py: lines of tab-separated fields, each a comma-separated list
  * of values.
  */
module TsharkRows {
  import opened PythonText

  type Field = seq<string>
  type Row = seq<Field>

  function ParseField(cell: string): Field {
    if cell == "" then [] else Split(cell, ',')
  }

  function ParseRow(line: string): Row {
    var cells := Split(line, '\t');
    seq(|cells|, i requires 0 <= i < |cells| => ParseField(cells[i]))
  }

  function RowsOfLines(lines: seq<string>): seq<Row> {
    if lines == [] then []
    else (if Strip(lines[0]) != "" then [ParseRow(lines[0])] else []) + RowsOfLines(lines[1..])
  }

  function ParseRows(output: string): seq<Row> {
    RowsOfLines(SplitLines(output))
  }

  lemma {:induction false} OneMoreLine(lines: seq<string>, line: string)
    ensures RowsOfLines(lines + [line])
         == RowsOfLines(lines) + (if Strip(line) != "" then [ParseRow(line)] else [])
  {
    hide Strip, ParseRow;
    if lines == [] {
      assert lines + [line] == [line] && [line][1..] == [];
    } else {
      assert (lines + [line])[1..] == lines[1..] + [line];
      OneMoreLine(lines[1..], line);
    }
  }

  /** The parsing loop of tshark_fields, on the output of tshark. */
  method TsharkFields(output: string) returns (rows: seq<Row>)
    ensures rows == ParseRows(output)
  {
    rows := [];
    var lines := SplitLines(output);
    for n := 0 to |lines|
      invariant rows == RowsOfLines(lines[..n])
    {
      hide Strip, ParseRow, RowsOfLines;
      var line := lines[n];
      OneMoreLine(lines[..n], line);
      assert lines[..n + 1] == lines[..n] + [line];
      if Strip(line) != "" {
        rows := rows + [ParseRow(line)];
      }
    }
    assert lines[..|lines|] == lines;
  }

  // ----- Printing -----

  /** A value tshark prints: no separator and no whitespace in it. Decimal numbers are such values. */
  predicate IsToken(v: string) {
    v != "" && forall i :: 0 <= i < |v| ==> v[i] != ',' && !IsWhitespace(v[i])
  }

  predicate IsTokenRow(row: Row) {
    forall i, j :: 0 <= i < |row| && 0 <= j < |row[i]| ==> IsToken(row[i][j])
  }

  function PrintField(f: Field): string {
    Join(f, ',')
  }

  function PrintCells(row: Row): seq<string> {
    seq(|row|, i requires 0 <= i < |row| => PrintField(row[i]))
  }

  function PrintRow(row: Row): string {
    Join(PrintCells(row), '\t')
  }

  function RowLines(rows: seq<Row>): seq<string> {
    seq(|rows|, i requires 0 <= i < |rows| => PrintRow(rows[i]))
  }

  function PrintRows(rows: seq<Row>): string {
    PrintLines(RowLines(rows))
  }

  /** Some field of the row is not empty. */
  predicate HasData(row: Row) {
    exists i :: 0 <= i < |row| && row[i] != []
  }

  function WithData(rows: seq<Row>): seq<Row> {
    if rows == [] then []
    else (if HasData(rows[0]) then [rows[0]] else []) + WithData(rows[1..])
  }

  lemma DecimalIsToken(n: nat)
    ensures IsToken(Decimal(n))
  {
  }

  // ----- Round trip -----

  predicate IsFieldText(s: string) {
    forall i :: 0 <= i < |s| ==> !IsWhitespace(s[i])
  }

  lemma FieldRoundTrip(f: Field)
    requires forall j :: 0 <= j < |f| ==> IsToken(f[j])
    ensures ParseField(PrintField(f)) == f
    ensures IsFieldText(PrintField(f))
    ensures PrintField(f) == "" <==> f == []
  {
    hide Join, Split;
    var s := PrintField(f);
    if f == [] {
      EmptyJoin(',');
    } else {
      PartIsInJoin(f, ',', 0, f[0][0]);
      SplitOfJoin(f, ',');
    }
    forall i | 0 <= i < |s| ensures !IsWhitespace(s[i]) {
      CharactersOfJoin(f, ',', i);
    }
  }

  lemma EmptyJoin(sep: char)
    ensures Join([], sep) == ""
  {
  }

  /** A printed row with data parses back to itself; without data it is blank; it is always one line. */
  lemma RowRoundTrip(row: Row)
    requires IsTokenRow(row)
    ensures IsOneLine(PrintRow(row))
    ensures Strip(PrintRow(row)) != "" <==> HasData(row)
    ensures HasData(row) ==> ParseRow(PrintRow(row)) == row
  {
    hide Join, Split, PrintField, ParseField, Strip;
    var cells, line := PrintCells(row), PrintRow(row);
    forall k | 0 <= k < |row|
      ensures IsFieldText(cells[k]) && ParseField(cells[k]) == row[k] && (cells[k] == "" <==> row[k] == [])
    {
      FieldRoundTrip(row[k]);
    }
    StripEmptiesBlank(line);
    forall i | 0 <= i < |line| ensures !IsLineBreak(line[i]) {
      CharactersOfJoin(cells, '\t', i);
    }
    if HasData(row) {
      var k :| 0 <= k < |row| && row[k] != [];
      PartIsInJoin(cells, '\t', k, cells[k][0]);
      assert !IsWhitespace(cells[k][0]);
      SplitOfJoin(cells, '\t');
    } else {
      forall i | 0 <= i < |line| ensures IsWhitespace(line[i]) {
        CharactersOfJoin(cells, '\t', i);
      }
    }
  }

  lemma {:induction false} LinesRoundTrip(rows: seq<Row>)
    requires forall r :: 0 <= r < |rows| ==> IsTokenRow(rows[r])
    ensures forall r :: 0 <= r < |rows| ==> IsOneLine(RowLines(rows)[r])
    ensures RowsOfLines(RowLines(rows)) == WithData(rows)
  {
    hide PrintRow, ParseRow, Strip, HasData, IsTokenRow, IsOneLine;
    forall r | 0 <= r < |rows| ensures IsOneLine(RowLines(rows)[r]) {
      RowRoundTrip(rows[r]);
    }
    if rows != [] {
      RowRoundTrip(rows[0]);
      LinesRoundTrip(rows[1..]);
      assert RowLines(rows)[1..] == RowLines(rows[1..]);
    }
  }

  /**
    * Parsing the print of any rows gives back, in order and unchanged, the rows that have data:
    * empty fields are empty lists and trailing ones are kept. Rows without data disappear.
    */
  lemma RowsRoundTrip(rows: seq<Row>)
    requires forall r :: 0 <= r < |rows| ==> IsTokenRow(rows[r])
    ensures ParseRows(PrintRows(rows)) == WithData(rows)
  {
    LinesRoundTrip(rows);
    SplitPrintedLines(RowLines(rows));
  }

  lemma {:induction false} WithDataLength(rows: seq<Row>)
    ensures |WithData(rows)| <= |rows|
    ensures WithData(rows) == rows <==> forall r :: 0 <= r < |rows| ==> HasData(rows[r])
  {
    if rows != [] {
      WithDataLength(rows[1..]);
      assert rows == [rows[0]] + rows[1..];
      if WithData(rows) == rows {
        assert |WithData(rows)| == |rows|;
        assert HasData(rows[0]);
        assert WithData(rows)[1..] == WithData(rows[1..]);
        forall r | 0 <= r < |rows| ensures HasData(rows[r]) {
          if r > 0 { assert rows[r] == rows[1..][r - 1]; }
        }
      }
    }
  }

  /** The rows come back exactly when each of them has data. */
  lemma RowsComeBackExactlyWithData(rows: seq<Row>)
    requires forall r :: 0 <= r < |rows| ==> IsTokenRow(rows[r])
    ensures ParseRows(PrintRows(rows)) == rows <==> forall r :: 0 <= r < |rows| ==> HasData(rows[r])
  {
    RowsRoundTrip(rows);
    WithDataLength(rows);
  }
}
