/** The CSV rows the data kits are converted to, and the reader of result rows (section 2 of RFC 4180). */
module CsvRows {
  import opened Strings
  import opened Wrappers

  // ---- writing

  predicate NeedsQuote(s: string) {
    ',' in s || '"' in s || '\n' in s || '\r' in s
  }

  /** Every quote doubled. */
  function Escape(s: string): string {
    if s == "" then "" else (if s[0] == '"' then "\"\"" else [s[0]]) + Escape(s[1..])
  }

  function Cell(s: string): string {
    if NeedsQuote(s) then "\"" + Escape(s) + "\"" else s
  }

  function Row(cells: seq<string>): string {
    if cells == [] then ""
    else if |cells| == 1 then Cell(cells[0])
    else Cell(cells[0]) + "," + Row(cells[1..])
  }

  // ---- reading

  /** The cells of the rest of a line, given the cell read so far and whether a quote is open. */
  function ParseFrom(line: string, cur: string, inQuotes: bool): (cells: seq<string>)
    ensures cells != []
    decreases |line|
  {
    if line == "" then [cur]
    else if line[0] == '"' && inQuotes && |line| > 1 && line[1] == '"' then ParseFrom(line[2..], cur + "\"", true)
    else if line[0] == '"' then ParseFrom(line[1..], cur, !inQuotes)
    else if line[0] == ',' && !inQuotes then [cur] + ParseFrom(line[1..], "", false)
    else ParseFrom(line[1..], cur + [line[0]], inQuotes)
  }

  function Parse(line: string): seq<string> {
    ParseFrom(line, "", false)
  }

  method ParseCsvLine(line: string) returns (cells: seq<string>)
    ensures cells == Parse(line)
  {
    cells := [];
    var cur, inQuotes, i := "", false, 0;
    while i < |line|
      invariant i <= |line|
      invariant cells + ParseFrom(line[i..], cur, inQuotes) == Parse(line)
    {
      var c := line[i];
      assert line[i..][1..] == line[i + 1..];
      i := i + 1;
      if c == '"' && inQuotes && i < |line| && line[i] == '"' {
        assert line[i - 1..][2..] == line[i + 1..];
        cur := cur + "\"";
        i := i + 1;
      } else if c == '"' {
        inQuotes := !inQuotes;
      } else if c == ',' && !inQuotes {
        cells, cur := cells + [cur], "";
      } else {
        cur := cur + [c];
      }
    }
    cells := cells + [cur];
  }

  // ---- what is written is read back

  lemma {:induction false} PlainCell(cell: string, rest: string, cur: string)
    requires ',' !in cell && '"' !in cell
    ensures ParseFrom(cell + rest, cur, false) == ParseFrom(rest, cur + cell, false)
    decreases |cell|
  {
    if cell == "" {
      assert cell + rest == rest && cur + cell == cur;
    } else {
      assert (cell + rest)[0] == cell[0] && cell[0] in cell;
      assert (cell + rest)[1..] == cell[1..] + rest;
      assert cur + [cell[0]] + cell[1..] == cur + cell;
      PlainCell(cell[1..], rest, cur + [cell[0]]);
    }
  }

  /** Inside quotes everything but the closing quote belongs to the cell. */
  lemma {:induction false} QuotedCell(cell: string, rest: string, cur: string)
    requires rest == "" || rest[0] != '"'
    ensures ParseFrom(Escape(cell) + "\"" + rest, cur, true) == ParseFrom(rest, cur + cell, false)
    decreases |cell|
  {
    var line := Escape(cell) + "\"" + rest;
    if cell == "" {
      assert line == "\"" + rest && line[1..] == rest && cur + cell == cur;
    } else {
      var next := Escape(cell[1..]) + "\"" + rest;
      if cell[0] == '"' {
        assert line == "\"\"" + next;
        assert line[0] == '"' && line[1] == '"' && line[2..] == next;
      } else {
        assert line == [cell[0]] + next;
        assert line[0] == cell[0] && line[1..] == next;
      }
      assert cur + [cell[0]] + cell[1..] == cur + cell;
      QuotedCell(cell[1..], rest, cur + [cell[0]]);
    }
  }

  lemma Regroup(a: string, b: string, c: string, d: string)
    ensures a + b + c + d == a + (b + c + d)
  {
  }

  lemma OpenQuote(body: string)
    ensures ParseFrom("\"" + body, "", false) == ParseFrom(body, "", true)
  {
    var line := "\"" + body;
    assert line[0] == '"' && line[1..] == body;
  }

  lemma CellReadsBack(cell: string, rest: string)
    requires rest == "" || rest[0] != '"'
    ensures ParseFrom(Cell(cell) + rest, "", false) == ParseFrom(rest, cell, false)
  {
    hide Escape;
    assert "" + cell == cell;
    if NeedsQuote(cell) {
      hide ParseFrom;
      Regroup("\"", Escape(cell), "\"", rest);
      OpenQuote(Escape(cell) + "\"" + rest);
      QuotedCell(cell, rest, "");
    } else {
      PlainCell(cell, rest, "");
    }
  }

  /** A cell is written as it is exactly when it has no comma, quote or line break in it; otherwise between quotes,
      with its own quotes doubled. */
  lemma CellExactly(cell: string)
    ensures Cell(cell) == cell <==> ',' !in cell && '"' !in cell && '\n' !in cell && '\r' !in cell
    ensures Cell(cell) != cell ==> Cell(cell) == "\"" + Escape(cell) + "\""
    ensures |Escape(cell)| == |cell| + Quotes(cell)
  {
    EscapeGrows(cell);
  }

  function Quotes(s: string): nat {
    if s == "" then 0 else (if s[0] == '"' then 1 else 0) + Quotes(s[1..])
  }

  lemma {:induction false} EscapeGrows(s: string)
    ensures |Escape(s)| == |s| + Quotes(s)
  {
    if s != "" {
      EscapeGrows(s[1..]);
    }
  }

  /** Without quotes a line is cut at its commas and nowhere else. */
  lemma {:induction false} PlainLineFrom(line: string, cur: string)
    requires '"' !in line
    ensures ParseFrom(line, cur, false) == [cur + Split(line, ',')[0]] + Split(line, ',')[1..]
    decreases |line|
  {
    if line == "" {
      assert cur + "" == cur;
    } else {
      assert line[0] in line;
      var rest := Split(line[1..], ',');
      if line[0] == ',' {
        PlainLineFrom(line[1..], "");
        assert "" + rest[0] == rest[0] && [rest[0]] + rest[1..] == rest && cur + "" == cur;
        assert ([""] + rest)[1..] == rest;
      } else {
        PlainLineFrom(line[1..], cur + [line[0]]);
        assert cur + [line[0]] + rest[0] == cur + ([line[0]] + rest[0]);
      }
    }
  }

  lemma PlainLineSplits(line: string)
    requires '"' !in line
    ensures Parse(line) == Split(line, ',')
  {
    PlainLineFrom(line, "");
    var parts := Split(line, ',');
    assert "" + parts[0] == parts[0] && [parts[0]] + parts[1..] == parts;
  }

  /** Reading a written row gives exactly its cells. */
  lemma {:induction false} RowReadsBack(cells: seq<string>)
    requires cells != []
    ensures Parse(Row(cells)) == cells
  {
    hide Cell;
    if |cells| == 1 {
      CellReadsBack(cells[0], "");
      assert Cell(cells[0]) + "" == Cell(cells[0]);
    } else {
      var rest := "," + Row(cells[1..]);
      assert Row(cells) == Cell(cells[0]) + rest;
      CellReadsBack(cells[0], rest);
      assert rest[0] == ',' && rest[1..] == Row(cells[1..]);
      RowReadsBack(cells[1..]);
    }
  }

  // ---- converting a table

  /** The loop with the `first` flag. */
  method WriteRow(cells: seq<string>) returns (out: string)
    ensures out == Row(cells)
  {
    out := "";
    var first := true;
    for i := 0 to |cells|
      invariant first <==> i == 0
      invariant out == Row(cells[..i])
    {
      RowSnoc(cells, i);
      if !first {
        out := out + ",";
      }
      first := false;
      out := out + Cell(cells[i]);
    }
    assert cells[..|cells|] == cells;
  }

  lemma {:induction false} RowSnoc(cells: seq<string>, i: nat)
    requires i < |cells|
    ensures Row(cells[..i + 1]) == if i == 0 then Cell(cells[0]) else Row(cells[..i]) + "," + Cell(cells[i])
    decreases |cells|
  {
    if i > 0 {
      assert cells[..i + 1][1..] == cells[1..][..i] && cells[..i][1..] == cells[1..][..i - 1];
      RowSnoc(cells[1..], i - 1);
    }
  }

  /** A line of a kit file without its final bar. */
  function Unbarred(line: string): string {
    if line != "" && line[|line| - 1] == '|' then line[..|line| - 1] else line
  }

  /** The rows of a kit file: the columns of its lines, blank ones left out. */
  function Rows(lines: seq<string>): (rows: seq<seq<string>>)
    ensures forall row <- rows :: row != []
  {
    if lines == [] then []
    else
      var front, last := Rows(lines[..|lines| - 1]), Unbarred(lines[|lines| - 1]);
      if last == "" then front else front + [Split(last, '|')]
  }

  /** The lines `written` read back as `rows`. */
  ghost predicate ReadsAs(written: seq<string>, rows: seq<seq<string>>) {
    |written| == |rows| && forall i :: 0 <= i < |rows| ==> Parse(written[i]) == rows[i]
  }

  /** The header line: the names, joined as they are. */
  function Header(names: seq<string>): string {
    if names == [] then "" else if |names| == 1 then names[0] else names[0] + "," + Header(names[1..])
  }

  /** Names that need no quotes read back from it. */
  lemma {:induction false} HeaderReadsBack(names: seq<string>)
    requires names != [] && forall h <- names :: !NeedsQuote(h)
    ensures Parse(Header(names)) == names
  {
    HeaderIsRow(names);
    RowReadsBack(names);
  }

  lemma {:induction false} HeaderIsRow(names: seq<string>)
    requires forall h <- names :: !NeedsQuote(h)
    ensures Header(names) == Row(names)
  {
    if names != [] {
      assert names[0] in names;
      HeaderIsRow(names[1..]);
    }
  }

  /** Convert a kit file: the header and one CSV line for each row, up to the first row that has the wrong
      width, which is an error. */
  method PipeToCsv(lines: seq<string>, headers: seq<string>) returns (out: seq<string>, r: Result<()>)
    ensures out != [] && out[0] == Header(headers)
    ensures |out| - 1 <= |Rows(lines)| && ReadsAs(out[1..], Rows(lines)[..|out| - 1])
    ensures forall i :: 0 <= i < |out| - 1 ==> |Rows(lines)[i]| == |headers|
    ensures r.Ok? ==> |out| - 1 == |Rows(lines)|
    ensures r.Err? ==> r.error == Io && |out| - 1 < |Rows(lines)| && |Rows(lines)[|out| - 1]| != |headers|
  {
    hide Parse, Row, Split, Header, ReadsAs, Rows;
    var header, written: seq<string> := Header(headers), [];
    NoRows(lines);
    for i := 0 to |lines|
      invariant forall row <- Rows(lines[..i]) :: |row| == |headers|
      invariant ReadsAs(written, Rows(lines[..i]))
    {
      RowsSnoc(lines, i);
      var line := Unbarred(lines[i]);
      if line == "" {
        continue;
      }
      var cols := Split(line, '|');
      if |cols| != |headers| {
        SoFar(lines, i, written, header);
        return [header] + written, Err(Io);
      }
      var row := WriteRow(cols);
      RowReadsBack(cols);
      ReadsAsMore(written, Rows(lines[..i]), row, cols);
      written := written + [row];
    }
    SoFar(lines, |lines|, written, header);
    assert lines[..|lines|] == lines;
    out, r := [header] + written, Ok(());
  }

  lemma NoRows(lines: seq<string>)
    ensures Rows(lines[..0]) == [] && ReadsAs([], [])
  {
  }

  lemma ReadsAsMore(written: seq<string>, rows: seq<seq<string>>, line: string, row: seq<string>)
    requires ReadsAs(written, rows) && Parse(line) == row
    ensures ReadsAs(written + [line], rows + [row])
  {
    hide Parse;
  }

  lemma RowsSnoc(lines: seq<string>, i: nat)
    requires i < |lines|
    ensures var row := Unbarred(lines[i]);
            && Rows(lines[..i + 1]) == (if row == "" then Rows(lines[..i]) else Rows(lines[..i]) + [Split(row, '|')])
            && Rows(lines[..i + 1]) <= Rows(lines)
  {
    assert lines[..i + 1][..i] == lines[..i];
    RowsPrefix(lines, i + 1);
  }

  /** Where the conversion stands after `i` lines. */
  lemma SoFar(lines: seq<string>, i: nat, written: seq<string>, header: string)
    requires i <= |lines| && ReadsAs(written, Rows(lines[..i]))
    ensures var n := |written|;
            n == |Rows(lines[..i])| <= |Rows(lines)| && Rows(lines)[..n] == Rows(lines[..i])
    ensures ([header] + written)[1..] == written
  {
    hide Rows, Parse;
    RowsPrefix(lines, i);
  }

  lemma {:induction false} RowsPrefix(lines: seq<string>, i: nat)
    requires i <= |lines|
    ensures Rows(lines[..i]) <= Rows(lines)
    decreases |lines| - i
  {
    if i < |lines| {
      assert lines[..i + 1][..i] == lines[..i];
      RowsPrefix(lines, i + 1);
    } else {
      assert lines[..i] == lines;
    }
  }

  /** A kit line: each cell followed by a bar. */
  function Barred(cells: seq<string>): string {
    if cells == [] then "" else cells[0] + "|" + Barred(cells[1..])
  }

  lemma {:induction false} BarredSplits(cells: seq<string>)
    requires cells != [] && forall c <- cells :: '|' !in c
    ensures var line := Barred(cells);
            line != "" && line[|line| - 1] == '|' && Split(line[..|line| - 1], '|') == cells
  {
    var c, line := cells[0], Barred(cells);
    assert c in cells;
    if |cells| == 1 {
      assert cells[1..] == [] && Barred(cells[1..]) == "";
      assert line == c + "|" && line[..|line| - 1] == c;
      SplitNone(c, '|');
    } else {
      var rest := Barred(cells[1..]);
      BarredSplits(cells[1..]);
      assert line[..|line| - 1] == c + "|" + rest[..|rest| - 1];
      SplitFirst(c, rest[..|rest| - 1], '|');
    }
  }

  /** A row of a kit file, whatever its cells hold besides bars, comes through to the reader of the
      converted file, unless it is a single empty cell. */
  lemma KitRowComesThrough(cells: seq<string>)
    requires cells != [] && forall c <- cells :: '|' !in c
    ensures Rows([Barred(cells)]) == if cells == [""] then [] else [cells]
  {
    BarredSplits(cells);
    var line := Barred(cells);
    assert [line][..0] == [] && Rows([]) == [];
    if Unbarred(line) == "" {
      assert Split("", '|') == [""];
    }
  }
}
