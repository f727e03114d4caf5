/** The line-by-line conversion of a markdown report into PDF output:
    character substitution, the classification of each stripped line,
    the buffer of pending table rows, and the output events that the PDF
    calls stand for. */
module Transducer {
  import opened Strings
  import opened Markup

  /** At most this many characters of a cell are shown (`cell[:35]`). */
  const MaxCellChars: nat := 35

  /** One PDF drawing step, with fonts, colours and geometry left out. */
  datatype Event =
    | Space(height: nat)                                      // pdf.ln(height)
    | Rule                                                    // the grey line across the page
    | Heading(level: nat, text: string)                       // multi_cell in the heading font
    | TableRow(header: bool, columns: nat, cells: seq<string>) // pdf.cell per cell, then pdf.ln()
    | ListItem(text: string)                                  // multi_cell of a bullet line
    | Paragraph(text: string)                                 // multi_cell of a paragraph

  /** Lines 9-11: `χ²`, then any other `χ`, then `μ` are spelt out. */
  function Preprocess(md: string): string {
    Replace(Replace(Replace(md, ChiSquare, "(Chi-Square)"), [Chi], "Chi"), [Mu], "mu")
  }

  const Chi: char := '\U{03C7}'
  const Mu: char := '\U{03BC}'
  const ChiSquare: string := [Chi, '\U{00B2}']

  /** The branches of the loop body, one per kind of stripped line. */
  datatype LineKind =
    | BlankLine
    | RuleLine
    | HeadingLine(level: nat, text: string)
    | SeparatorLine
    | RowLine(cells: seq<string>)
    | ListLine(text: string)       // the cleaned text after the bullet
    | ParagraphLine(text: string)  // the cleaned text

  predicate IsListLine(s: string) {
    StartsWith(s, "-   ") || StartsWith(s, "- ") || StartsWith(s, "* ")
  }

  /** Lines 29-116: the first test a stripped line passes decides it. */
  function Classify(stripped: string): LineKind {
    if stripped == [] then BlankLine
    else if stripped == "---" then RuleLine
    else if StartsWith(stripped, "# ") then HeadingLine(1, stripped[2..])
    else if StartsWith(stripped, "## ") then HeadingLine(2, stripped[3..])
    else if StartsWith(stripped, "### ") then HeadingLine(3, stripped[4..])
    else if '|' in stripped then TableLineKind(stripped)
    else TextLineKind(stripped)
  }

  /** Lines 62-72: a separator row or a row of cells. */
  function TableLineKind(stripped: string): LineKind {
    if IsSeparator(stripped) then SeparatorLine else RowLine(RowCells(stripped))
  }

  /** Lines 95-116: a list item without its bullet, or a paragraph, cleaned. */
  function TextLineKind(stripped: string): LineKind {
    if IsListLine(stripped) then ListLine(Clean(DropBullet(stripped)))
    else ParagraphLine(Clean(stripped))
  }

  /** A buffered row: non-empty, of trimmed non-empty cells without pipes. */
  predicate WellFormedRow(row: seq<string>) {
    row != [] && forall j :: 0 <= j < |row| ==> row[j] != [] && Trimmed(row[j]) && '|' !in row[j]
  }

  predicate WellFormedTable(table: seq<seq<string>>) {
    forall i :: 0 <= i < |table| ==> WellFormedRow(table[i])
  }

  /** The shown text of each cell of a row. */
  function Truncated(row: seq<string>): (r: seq<string>)
    ensures |r| == |row|
    ensures forall j :: 0 <= j < |row| ==>
              |r[j]| <= MaxCellChars && |r[j]| <= |row[j]| && r[j] == row[j][..|r[j]|]
    ensures forall j :: 0 <= j < |row| ==> (r[j] == [] <==> row[j] == [])
  {
    seq(|row|, j requires 0 <= j < |row| => Take(row[j], MaxCellChars))
  }

  /** Lines 77-91 and 122-136: every buffered row in order, the first one
      as the filled header row; the column count is that of the first row. */
  function RenderTable(table: seq<seq<string>>): (r: seq<Event>)
    ensures |r| == |table|
  {
    var columns := if table == [] then 1 else |table[0]|;
    seq(|table|, i requires 0 <= i < |table| => TableRow(i == 0, columns, Truncated(table[i])))
  }

  /** Lines 74-93: the flush that a list or paragraph line triggers. */
  function Flush(table: seq<seq<string>>): seq<Event> {
    if table == [] then [] else RenderTable(table) + [Space(3)]
  }

  /** The table buffer after a line, and what that line emits. */
  datatype Effect = Effect(table: seq<seq<string>>, emitted: seq<Event>)

  /** One iteration of the loop, on the line as split from the text. */
  function Step(table: seq<seq<string>>, line: string): Effect {
    Apply(table, Classify(Strip(line)))
  }

  /** What a line of the given kind does to the buffer and the output. */
  function Apply(table: seq<seq<string>>, kind: LineKind): Effect {
    match kind
    case BlankLine => Effect(table, [Space(3)])
    case RuleLine => Effect(table, [Space(3), Rule, Space(3)])
    case HeadingLine(level, text) => Effect(table, [Heading(level, text), Space(2)])
    case SeparatorLine => Effect(table, [])
    case RowLine(cells) => Effect(if cells == [] then table else table + [cells], [])
    case ListLine(_) => Effect([], Flush(table) + TextItem(kind))
    case ParagraphLine(_) => Effect([], Flush(table) + TextItem(kind))
  }

  /** Lines 95-116: what a list or paragraph line draws after the flush;
      an empty cleaned text draws nothing. */
  function TextItem(kind: LineKind): seq<Event> {
    match kind
    case ListLine(text) => if text == [] then [] else [ListItem("    - " + text)]
    case ParagraphLine(text) => if text == [] then [] else [Paragraph(text)]
    case _ => []
  }

  /** The buffer and the events after the loop has seen all of `lines`. */
  function Run(lines: seq<string>): Effect
    decreases |lines|
  {
    if lines == [] then Effect([], [])
    else
      var before := Run(lines[..|lines| - 1]);
      var step := Step(before.table, lines[|lines| - 1]);
      Effect(step.table, before.emitted + step.emitted)
  }

  /** Lines 25-136: the loop, then the final flush, which has no trailing space. */
  function Converted(lines: seq<string>): seq<Event> {
    var done := Run(lines);
    done.emitted + RenderTable(done.table)
  }

  /** The whole conversion of a document's text. */
  function ConvertedDocument(md: string): seq<Event> {
    Converted(Split(Preprocess(md), '\n'))
  }

  /** The PDF document being written and the rows of the table being read. */
  class Converter {
    var tableData: seq<seq<string>>
    var events: seq<Event>

    /** The buffer holds only well-formed rows. Every method keeps this;
        `Properties.RunDrawn` proves the same of `Run`, and with
        `Properties.DrawnRender` it bounds the cells the flushes draw. */
    ghost predicate Valid()
      reads this
    {
      WellFormedTable(tableData)
    }

    constructor ()
      ensures Valid() && tableData == [] && events == []
    {
      tableData := [];
      events := [];
    }

    /** Lines 75-91 and 120-136: draw the buffered rows. */
    method RenderTableData()
      modifies this`events
      ensures events == old(events) + RenderTable(tableData)
    {
      var numCols := if tableData != [] then |tableData[0]| else 1;
      var i := 0;
      while i < |tableData|
        invariant 0 <= i <= |tableData|
        invariant events == old(events) + RenderTable(tableData)[..i]
      {
        var row := tableData[i];
        var texts: seq<string> := [];
        var j := 0;
        while j < |row|
          invariant 0 <= j <= |row|
          invariant texts == Truncated(row)[..j]
        {
          texts := texts + [Take(row[j], MaxCellChars)];
          j := j + 1;
        }
        assert texts == Truncated(row);
        assert RenderTable(tableData)[..i + 1] == RenderTable(tableData)[..i] + [TableRow(i == 0, numCols, texts)];
        events := events + [TableRow(i == 0, numCols, texts)];
        i := i + 1;
      }
    }

    /** Lines 74-93: a list or paragraph line ends the pending table. */
    method FlushTable()
      requires Valid()
      modifies this
      ensures Valid() && tableData == []
      ensures events == old(events) + Flush(old(tableData))
    {
      if tableData != [] {
        RenderTableData();
        tableData := [];
        events := events + [Space(3)];
      }
    }

    /** Lines 62-72: a table line is buffered unless it is a separator. */
    method AddTableLine(stripped: string)
      requires Valid() && '|' in stripped
      modifies this`tableData
      ensures Valid()
      ensures tableData == Apply(old(tableData), TableLineKind(stripped)).table
    {
      if IsSeparator(stripped) {
        return;
      }
      var cells := RowCells(stripped);
      assert TableLineKind(stripped) == RowLine(cells);
      if cells != [] {
        AppendRow(tableData, cells);
        tableData := tableData + [cells];
      }
    }

    /** Lines 74-116: a list item or a paragraph, after the pending table. */
    method AddTextLine(stripped: string)
      requires Valid()
      modifies this
      ensures Valid()
      ensures tableData == Apply(old(tableData), TextLineKind(stripped)).table
      ensures events == old(events) + Apply(old(tableData), TextLineKind(stripped)).emitted
    {
      ghost var t0, e0 := tableData, events;
      FlushTable();
      DrawText(stripped);
      ghost var item := TextItem(TextLineKind(stripped));
      assert Apply(t0, TextLineKind(stripped)).emitted == Flush(t0) + item;
      AppendAssoc(e0, Flush(t0), item);
    }

    /** Lines 95-116: the list item or the paragraph itself. */
    method DrawText(stripped: string)
      modifies this`events
      ensures events == old(events) + TextItem(TextLineKind(stripped))
    {
      if IsListLine(stripped) {
        var text := Clean(DropBullet(stripped));
        if text != [] {
          events := events + [ListItem("    - " + text)];
        }
      } else {
        var text := Clean(stripped);
        if text != [] {
          events := events + [Paragraph(text)];
        }
      }
    }

    /** Lines 26-116: one iteration of the loop. */
    method ProcessLine(line: string)
      requires Valid()
      modifies this
      ensures Valid()
      ensures tableData == Step(old(tableData), line).table
      ensures events == old(events) + Step(old(tableData), line).emitted
    {
      var stripped := Strip(line);
      AddLine(stripped);
    }

    /** Lines 29-116: the branches, on the stripped line. */
    method AddLine(stripped: string)
      requires Valid()
      modifies this
      ensures Valid()
      ensures tableData == Apply(old(tableData), Classify(stripped)).table
      ensures events == old(events) + Apply(old(tableData), Classify(stripped)).emitted
    {
      if stripped == [] {
        events := events + [Space(3)];
      } else if stripped == "---" {
        events := events + [Space(3), Rule, Space(3)];
      } else if StartsWith(stripped, "# ") {
        events := events + [Heading(1, stripped[2..]), Space(2)];
      } else if StartsWith(stripped, "## ") {
        events := events + [Heading(2, stripped[3..]), Space(2)];
      } else if StartsWith(stripped, "### ") {
        events := events + [Heading(3, stripped[4..]), Space(2)];
      } else if '|' in stripped {
        AddTableLine(stripped);
      } else {
        AddTextLine(stripped);
      }
    }

    /** Lines 119-136: draw what is left in the buffer. */
    method Finish()
      modifies this`events
      ensures events == old(events) + RenderTable(tableData)
    {
      if tableData != [] {
        RenderTableData();
      }
    }
  }

  lemma AppendRow(table: seq<seq<string>>, row: seq<string>)
    requires WellFormedTable(table) && WellFormedRow(row)
    ensures WellFormedTable(table + [row])
  {
    assert (table + [row])[|table|] == row;
  }

  lemma RunExtends(lines: seq<string>, i: nat)
    requires i < |lines|
    ensures Run(lines[..i + 1]).table == Step(Run(lines[..i]).table, lines[i]).table
    ensures Run(lines[..i + 1]).emitted == Run(lines[..i]).emitted + Step(Run(lines[..i]).table, lines[i]).emitted
  {
    assert lines[..i + 1][..i] == lines[..i];
  }

  /** The script: substitute, split into lines, run the loop, flush. */
  method Convert(mdContent: string) returns (events: seq<Event>)
    ensures events == ConvertedDocument(mdContent)
  {
    var text := Preprocess(mdContent);
    var lines := Split(text, '\n');
    var pdf := new Converter();
    for i := 0 to |lines|
      invariant pdf.Valid()
      invariant Run(lines[..i]) == Effect(pdf.tableData, pdf.events)
    {
      assert lines[..i + 1][..i] == lines[..i];
      pdf.ProcessLine(lines[i]);
      RunExtends(lines, i);
    }
    assert lines[..|lines|] == lines;
    pdf.Finish();
    events := pdf.events;
  }
}
