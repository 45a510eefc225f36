/** The Masivos record parser: pasted spreadsheet text becomes rows of
    ticket, group id, date text and the line itself (`parseExcelText`). */
module Records {
  import opened Text

  /** One pasted line: `tik`, `id` and `fecha` are its first three cells, trimmed;
      `raw` is the line the cells were taken from. */
  datatype Row = Row(tik: string, id: string, fecha: string, raw: string)

  /** The pasted text is cut into lines at every `\n` and at every `\r`. */
  const LineBreaks: set<char> := {'\n', '\r'}

  /** A line is cut into cells at every tab and at every comma. */
  const CellSeparators: set<char> := {'\t', ','}

  /** Cell `i` of a split line, trimmed; `""` when the line has fewer cells
      (`parts[i] || ''`). */
  function Cell(parts: seq<string>, i: nat): (r: string)
    ensures Trimmed(r)
    ensures i < |parts| ==> r == Trim(parts[i])
    ensures i >= |parts| ==> r == ""
    ensures i < |parts| && NoneOf(parts[i], CellSeparators) ==> NoneOf(r, CellSeparators)
  {
    if i < |parts| then
      TrimNoneOf(parts[i], CellSeparators);
      Trim(parts[i])
    else ""
  }

  function ParseLine(line: string): (r: Row)
    ensures r.raw == line
    ensures Trimmed(r.tik) && Trimmed(r.id) && Trimmed(r.fecha)
    ensures NoneOf(r.tik, CellSeparators) && NoneOf(r.id, CellSeparators) && NoneOf(r.fecha, CellSeparators)
    ensures var n := |Split(line, CellSeparators)|;
      (n < 2 ==> r.id == "") && (n < 3 ==> r.fecha == "")
  {
    var parts := Split(line, CellSeparators);
    Row(Cell(parts, 0), Cell(parts, 1), Cell(parts, 2), line)
  }

  /** The lines `parseExcelText` keeps: the text is trimmed, cut at line breaks, and the
      blank pieces (including the empty piece between `\r` and `\n`) are dropped. */
  function KeptLines(text: string): seq<string> {
    NonBlank(Split(Trim(text), LineBreaks))
  }

  /** `parseExcelText`: one row per kept line, in order. It has no failure case. */
  function ParseExcelText(text: string): (rows: seq<Row>)
    ensures |rows| == |KeptLines(text)|
    ensures forall i :: 0 <= i < |rows| ==> Trim(rows[i].raw) != [] && NoneOf(rows[i].raw, LineBreaks)
  {
    var lines := KeptLines(text);
    NonBlankNoneOf(Split(Trim(text), LineBreaks), LineBreaks);
    seq(|lines|, i requires 0 <= i < |lines| => ParseLine(lines[i]))
  }

  function Raws(rows: seq<Row>): (r: seq<string>)
    ensures |r| == |rows| && forall i :: 0 <= i < |rows| ==> r[i] == rows[i].raw
  {
    seq(|rows|, i requires 0 <= i < |rows| => rows[i].raw)
  }

  /** There is exactly one row per non-blank line of the pasted text, in the text's order.
      Each row's line equals the text's line up to white space at its two ends: the
      first and the last line lose theirs because the whole text is trimmed first. */
  lemma {:induction false} OneRowPerNonBlankLine(text: string)
    ensures TrimEach(Raws(ParseExcelText(text))) == TrimEach(NonBlank(Split(text, LineBreaks)))
  {
    var rows := ParseExcelText(text);
    var lines := KeptLines(text);
    assert forall i :: 0 <= i < |lines| ==> rows[i] == ParseLine(lines[i]);
    assert Raws(rows) == lines;
    NonBlankLinesOfTrim(text, LineBreaks);
  }

  /** A line written as cells joined by commas. */
  function FormatLine(cells: seq<string>): string {
    Join(cells, ",")
  }

  /** A cell that survives the round trip: no separator, no line break, trimmed. */
  predicate PlainCell(cell: string) {
    Trimmed(cell) && NoneOf(cell, CellSeparators + LineBreaks)
  }

  /** A sheet of lines, each a non-empty list of plain cells that does not format to
      the empty line. */
  predicate PlainSheet(sheet: seq<seq<string>>) {
    forall i :: 0 <= i < |sheet| ==>
      |sheet[i]| >= 1 && FormatLine(sheet[i]) != [] &&
      forall j :: 0 <= j < |sheet[i]| ==> PlainCell(sheet[i][j])
  }

  function SheetLines(sheet: seq<seq<string>>): (lines: seq<string>)
    ensures |lines| == |sheet| && forall i :: 0 <= i < |sheet| ==> lines[i] == FormatLine(sheet[i])
  {
    seq(|sheet|, i requires 0 <= i < |sheet| => FormatLine(sheet[i]))
  }

  function FormatSheet(sheet: seq<seq<string>>): string {
    Join(SheetLines(sheet), "\n")
  }

  /** The cell at `i`, or `""` past the end of the line. */
  function CellOr(cells: seq<string>, i: nat): string {
    if i < |cells| then cells[i] else ""
  }

  lemma {:induction false} PlainCellsNoneOf(cells: seq<string>, cs: set<char>)
    requires forall j :: 0 <= j < |cells| ==> PlainCell(cells[j])
    requires cs <= CellSeparators + LineBreaks
    ensures forall j :: 0 <= j < |cells| ==> NoneOf(cells[j], cs)
  {
    forall j, k | 0 <= j < |cells| && 0 <= k < |cells[j]| ensures cells[j][k] !in cs {
      assert NoneOf(cells[j], CellSeparators + LineBreaks);
    }
  }

  lemma {:induction false} ParseFormattedLine(cells: seq<string>)
    requires |cells| >= 1 && forall j :: 0 <= j < |cells| ==> PlainCell(cells[j])
    ensures Trimmed(FormatLine(cells)) && NoneOf(FormatLine(cells), LineBreaks)
    ensures var r := ParseLine(FormatLine(cells));
      r.tik == cells[0] && r.id == CellOr(cells, 1) && r.fecha == CellOr(cells, 2)
  {
    var line := FormatLine(cells);
    assert Trimmed(line) by {
      assert Trimmed(",");
      JoinTrimmed(cells, ",");
    }
    assert NoneOf(line, LineBreaks) by {
      PlainCellsNoneOf(cells, LineBreaks);
      assert NoneOf(",", LineBreaks);
      JoinNoneOf(cells, ",", LineBreaks);
    }
    assert Split(line, CellSeparators) == cells by {
      PlainCellsNoneOf(cells, CellSeparators);
      SplitJoin(cells, ',', CellSeparators);
    }
    forall j | 0 <= j < |cells| ensures Cell(cells, j) == cells[j] {
      TrimOfTrimmed(cells[j]);
    }
  }

  /** Parsing a sheet written as comma-separated lines gives back its cells: row `i`
      holds the first three cells of line `i` (empty where the line is shorter), and
      its `raw` is the written line. */
  lemma {:induction false} ParseFormatSheet(sheet: seq<seq<string>>)
    requires PlainSheet(sheet)
    ensures var rows := ParseExcelText(FormatSheet(sheet));
      |rows| == |sheet| &&
      forall i :: 0 <= i < |sheet| ==>
        rows[i].tik == sheet[i][0] && rows[i].id == CellOr(sheet[i], 1) &&
        rows[i].fecha == CellOr(sheet[i], 2) && rows[i].raw == FormatLine(sheet[i])
  {
    KeptSheetLines(sheet);
    forall i | 0 <= i < |sheet|
      ensures var r := ParseLine(FormatLine(sheet[i]));
        r.tik == sheet[i][0] && r.id == CellOr(sheet[i], 1) && r.fecha == CellOr(sheet[i], 2)
    {
      ParseFormattedLine(sheet[i]);
    }
  }

  /** The lines of a written sheet are exactly the lines `parseExcelText` keeps. */
  lemma {:induction false} KeptSheetLines(sheet: seq<seq<string>>)
    requires PlainSheet(sheet)
    ensures KeptLines(FormatSheet(sheet)) == SheetLines(sheet)
  {
    var lines := SheetLines(sheet);
    var text := FormatSheet(sheet);
    if |sheet| == 0 {
      assert text == [];
      assert Split(Trim(text), LineBreaks) == [[]];
    } else {
      forall i | 0 <= i < |lines| ensures Trimmed(lines[i]) && NoneOf(lines[i], LineBreaks) && lines[i] != [] {
        ParseFormattedLine(sheet[i]);
      }
      assert Trim(text) == text by {
        JoinEnds(lines, "\n");
        assert text[0] == lines[0][0];
        var last := lines[|lines| - 1];
        assert text[|text| - 1] == last[|last| - 1];
        TrimOfTrimmed(text);
      }
      assert Split(text, LineBreaks) == lines by {
        SplitJoin(lines, '\n', LineBreaks);
      }
      assert NonBlank(lines) == lines by {
        forall i | 0 <= i < |lines| ensures Trim(lines[i]) != [] {
          TrimOfTrimmed(lines[i]);
        }
        NonBlankKeepsAll(lines);
      }
    }
  }
}
