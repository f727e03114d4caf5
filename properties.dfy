/** What the conversion promises, stated over the model of the loop: the
    character substitution, the order in which a line is classified, the
    table buffer and when it is flushed, and the shape of what is drawn. */
module Properties {
  import opened Strings
  import opened Markup
  import opened Transducer

  // ----- Character substitution (lines 9-11)

  /** No `χ` and no `μ` is left after the substitution. */
  lemma PreprocessRemovesGreek(md: string)
    ensures Chi !in Preprocess(md) && Mu !in Preprocess(md)
  {
    var r1 := Replace(md, ChiSquare, "(Chi-Square)");
    var r2 := Replace(r1, [Chi], "Chi");
    ReplaceRemoves(r1, Chi, "Chi");
    ReplaceRemoves(r2, Mu, "mu");
    ReplaceKeepsAbsent(r2, [Mu], "mu", Chi);
  }

  /** Every `χ²` becomes `(Chi-Square)`, whatever surrounds it: the pair is
      replaced before the lone `χ` is. */
  lemma PreprocessChiSquare(a: string, b: string)
    ensures Preprocess(a + ChiSquare + b) == Preprocess(a) + "(Chi-Square)" + Preprocess(b)
  {
    var rep := "(Chi-Square)";
    ReplaceAround(a, b, ChiSquare, rep);
    var a1, b1 := Replace(a, ChiSquare, rep), Replace(b, ChiSquare, rep);
    assert Chi !in rep && Mu !in rep;
    ReplaceCharKeepsMiddle(a1, rep, b1, Chi, "Chi");
    var a2, b2 := Replace(a1, [Chi], "Chi"), Replace(b1, [Chi], "Chi");
    ReplaceCharKeepsMiddle(a2, rep, b2, Mu, "mu");
  }

  /** A `χ` not followed by `²` becomes `Chi`, whatever surrounds it. */
  lemma PreprocessLoneChi(a: string, b: string)
    requires b == [] || b[0] != '\U{00B2}'
    ensures Preprocess(a + [Chi] + b) == Preprocess(a) + "Chi" + Preprocess(b)
  {
    ReplaceAroundChar(a, Chi, b, ChiSquare, "(Chi-Square)");
    var a1, b1 := Replace(a, ChiSquare, "(Chi-Square)"), Replace(b, ChiSquare, "(Chi-Square)");
    ReplaceCharConcat(a1 + [Chi], b1, Chi, "Chi");
    ReplaceCharConcat(a1, [Chi], Chi, "Chi");
    ReplaceOne(Chi, "Chi");
    var a2, b2 := Replace(a1, [Chi], "Chi"), Replace(b1, [Chi], "Chi");
    assert Mu !in "Chi";
    ReplaceCharKeepsMiddle(a2, "Chi", b2, Mu, "mu");
  }

  /** Every `μ` becomes `mu`, whatever surrounds it. */
  lemma PreprocessMu(a: string, b: string)
    ensures Preprocess(a + [Mu] + b) == Preprocess(a) + "mu" + Preprocess(b)
  {
    ReplaceAroundChar(a, Mu, b, ChiSquare, "(Chi-Square)");
    var a1, b1 := Replace(a, ChiSquare, "(Chi-Square)"), Replace(b, ChiSquare, "(Chi-Square)");
    ReplaceCharKeepsMiddle(a1, [Mu], b1, Chi, "Chi");
    var a2, b2 := Replace(a1, [Chi], "Chi"), Replace(b1, [Chi], "Chi");
    ReplaceCharConcat(a2 + [Mu], b2, Mu, "mu");
    ReplaceCharConcat(a2, [Mu], Mu, "mu");
    ReplaceOne(Mu, "mu");
  }

  /** Text without `χ` and `μ` passes through unchanged. */
  lemma PreprocessPlain(md: string)
    requires Chi !in md && Mu !in md
    ensures Preprocess(md) == md
  {
    ReplaceAbsent(md, ChiSquare, "(Chi-Square)");
    ReplaceAbsent(md, [Chi], "Chi");
    ReplaceAbsent(md, [Mu], "mu");
  }

  // ----- Classification (lines 29-116)

  predicate IsHeading(s: string) {
    StartsWith(s, "# ") || StartsWith(s, "## ") || StartsWith(s, "### ")
  }

  /** `#`, `##` or `###` and one space. */
  function HeadingPrefix(level: nat): string {
    seq(level, _ => '#') + " "
  }

  /** A blank line and the rule are recognised first, each only by itself. */
  lemma ClassifyBlankAndRule(s: string)
    ensures Classify(s) == BlankLine <==> s == []
    ensures Classify(s) == RuleLine <==> s == "---"
  {
  }

  /** A line is a heading exactly when it starts with one to three `#` and
      a space; the level is the number of `#`, the text is what follows. */
  lemma ClassifyHeading(s: string, level: nat, text: string)
    requires 1 <= level <= 3
    ensures Classify(s) == HeadingLine(level, text) <==> s == HeadingPrefix(level) + text
  {
    var p := HeadingPrefix(level);
    assert p == (if level == 1 then "# " else if level == 2 then "## " else "### ");
    if StartsWith(s, "# ") {
      assert s == "# " + s[2..];
    } else if StartsWith(s, "## ") {
      assert s == "## " + s[3..];
    } else if StartsWith(s, "### ") {
      assert s == "### " + s[4..];
    }
    if s == p + text {
      assert s[..|p|] == p && s[|p|..] == text;
      assert s[0] == '#' && s != "---";
      if level > 1 {
        assert s[1] == '#' && s[..2][1] == '#';
      }
      if level > 2 {
        assert s[2] == '#' && s[..3][2] == '#';
      }
    }
  }

  lemma ClassifyIsHeading(s: string)
    ensures Classify(s).HeadingLine? <==> IsHeading(s)
  {
    if s == "---" {
      assert s[..2][0] == '-' && s[..3][0] == '-';
    }
  }

  /** A line holding a pipe that is not a heading is a table line; it is a
      separator when made of pipes, whitespace, hyphens and colons only,
      and otherwise a row of at least one well-formed cell. */
  lemma ClassifyTable(s: string)
    ensures Classify(s).SeparatorLine? || Classify(s).RowLine? <==> '|' in s && !IsHeading(s)
    ensures Classify(s).SeparatorLine? <==> '|' in s && !IsHeading(s) && IsSeparator(s)
    ensures Classify(s).RowLine? ==> Classify(s).cells == RowCells(s) && WellFormedRow(Classify(s).cells)
  {
    if Classify(s).RowLine? {
      RowCellsNonEmpty(s);
    }
  }

  /** What falls through every earlier test is a list item when it starts
      with a bullet and a space, and a paragraph otherwise. */
  lemma ClassifyText(s: string)
    ensures Classify(s).ListLine? <==> '|' !in s && !IsHeading(s) && IsListLine(s)
    ensures Classify(s).ListLine? ==> Classify(s).text == Clean(DropBullet(s))
    ensures Classify(s).ParagraphLine? <==>
              s != [] && s != "---" && '|' !in s && !IsHeading(s) && !IsListLine(s)
    ensures Classify(s).ParagraphLine? ==> Classify(s).text == Clean(s)
  {
  }

  // ----- One line at a time (lines 26-116)

  predicate HasTableRow(es: seq<Event>) {
    exists i :: 0 <= i < |es| && es[i].TableRow?
  }

  /** The kinds of line that end a pending table. */
  predicate Flushes(k: LineKind) {
    k.ListLine? || k.ParagraphLine?
  }

  /** A separator appends nothing; any other table line appends exactly its
      row, which is well formed; neither draws anything. */
  lemma TableLineEffect(table: seq<seq<string>>, s: string)
    requires '|' in s && !IsHeading(s)
    ensures IsSeparator(s) ==> Apply(table, Classify(s)) == Effect(table, [])
    ensures !IsSeparator(s) ==>
              Apply(table, Classify(s)) == Effect(table + [RowCells(s)], []) && WellFormedRow(RowCells(s))
  {
    var k := TableLineKind(s);
    assert Classify(s) == k;
    if !IsSeparator(s) {
      RowCellsNonEmpty(s);
      assert k == RowLine(RowCells(s));
    }
  }

  /** Only list and paragraph lines flush: they draw the whole pending
      table, then the space after it, and leave the buffer empty. Every
      other line keeps the buffered rows and draws no table row; blank,
      rule and heading lines leave the buffer exactly as it was. */
  lemma ApplyFlushes(table: seq<seq<string>>, k: LineKind)
    ensures HasTableRow(Apply(table, k).emitted) <==> table != [] && Flushes(k)
    ensures Flushes(k) ==> Apply(table, k).table == []
    ensures Flushes(k) && table != [] ==>
              Apply(table, k).emitted[..|table| + 1] == RenderTable(table) + [Space(3)]
    ensures !Flushes(k) ==> table <= Apply(table, k).table && |Apply(table, k).table| <= |table| + 1
    ensures k.BlankLine? || k.RuleLine? || k.HeadingLine? ==> Apply(table, k).table == table
  {
    var es := Apply(table, k).emitted;
    if Flushes(k) && table != [] {
      assert es[0] == RenderTable(table)[0];
      assert es[..|table| + 1] == RenderTable(table) + [Space(3)];
    }
  }

  /** A list or paragraph line draws the pending table first, then its
      cleaned text, a list item behind the indented dash; a text that is
      empty once cleaned draws nothing of its own. */
  lemma TextLineEmits(table: seq<seq<string>>, s: string)
    requires s != [] && s != "---" && '|' !in s && !IsHeading(s)
    ensures Apply(table, Classify(s)).table == []
    ensures var es := Apply(table, Classify(s)).emitted;
            var text := if IsListLine(s) then Clean(DropBullet(s)) else Clean(s);
            |es| == |Flush(table)| + (if text == [] then 0 else 1) &&
            es[..|Flush(table)|] == Flush(table) &&
            (text != [] && IsListLine(s) ==> es[|Flush(table)|] == ListItem("    - " + text)) &&
            (text != [] && !IsListLine(s) ==> es[|Flush(table)|] == Paragraph(text))
  {
    ClassifyText(s);
    var es := Apply(table, Classify(s)).emitted;
    assert es == Flush(table) + TextItem(Classify(s));
    assert es[..|Flush(table)|] == Flush(table);
  }

  // ----- The whole run (lines 25-136)

  /** The rows the loop appends to the buffer, in the order of the lines. */
  function AppendedRows(lines: seq<string>): seq<seq<string>>
    decreases |lines|
  {
    if lines == [] then []
    else
      var k := Classify(Strip(lines[|lines| - 1]));
      AppendedRows(lines[..|lines| - 1]) + (if k.RowLine? && k.cells != [] then [k.cells] else [])
  }

  /** The cells of the drawn table rows, in drawing order. */
  function TableCells(es: seq<Event>): seq<seq<string>> {
    if es == [] then []
    else (if es[0].TableRow? then [es[0].cells] else []) + TableCells(es[1..])
  }

  /** The rows as they are shown, each cell cut to its first characters. */
  function TruncRows(table: seq<seq<string>>): seq<seq<string>> {
    seq(|table|, i requires 0 <= i < |table| => Truncated(table[i]))
  }

  lemma {:induction false} TableCellsConcat(a: seq<Event>, b: seq<Event>)
    ensures TableCells(a + b) == TableCells(a) + TableCells(b)
  {
    if a == [] {
      assert a + b == b;
    } else {
      assert (a + b)[1..] == a[1..] + b;
      TableCellsConcat(a[1..], b);
    }
  }

  lemma {:induction false} TableCellsOfRows(es: seq<Event>)
    requires forall i :: 0 <= i < |es| ==> es[i].TableRow?
    ensures TableCells(es) == seq(|es|, i requires 0 <= i < |es| => es[i].cells)
  {
    if es != [] {
      TableCellsOfRows(es[1..]);
    }
  }

  lemma {:induction false} TableCellsNone(es: seq<Event>)
    requires !HasTableRow(es)
    ensures TableCells(es) == []
  {
    if es != [] {
      assert !HasTableRow(es[1..]) by {
        forall i | 0 <= i < |es[1..]|
          ensures !es[1..][i].TableRow?
        {
          assert es[1..][i] == es[i + 1];
        }
      }
      TableCellsNone(es[1..]);
    }
  }

  /** Rendering a table draws each of its rows once, in order, truncated. */
  lemma TableCellsRender(table: seq<seq<string>>)
    ensures TableCells(RenderTable(table)) == TruncRows(table)
  {
    TableCellsOfRows(RenderTable(table));
  }

  lemma TruncRowsConcat(a: seq<seq<string>>, b: seq<seq<string>>)
    ensures TruncRows(a + b) == TruncRows(a) + TruncRows(b)
  {
  }

  /** One line moves rows from the buffer to the output, or appends one. */
  lemma StepRows(table: seq<seq<string>>, k: LineKind)
    ensures TableCells(Apply(table, k).emitted) + TruncRows(Apply(table, k).table)
         == TruncRows(table) + TruncRows(if k.RowLine? && k.cells != [] then [k.cells] else [])
  {
    var eff := Apply(table, k);
    if Flushes(k) {
      StepRowsFlush(table, k);
    } else if k.RowLine? && k.cells != [] {
      TruncRowsConcat(table, [k.cells]);
    } else {
      ApplyFlushes(table, k);
      TableCellsNone(eff.emitted);
    }
  }

  lemma StepRowsFlush(table: seq<seq<string>>, k: LineKind)
    requires Flushes(k)
    ensures TableCells(Apply(table, k).emitted) + TruncRows(Apply(table, k).table) == TruncRows(table)
  {
    var item := TextItem(k);
    assert Apply(table, k) == Effect([], Flush(table) + item);
    assert !HasTableRow(item);
    TableCellsConcat(Flush(table), item);
    TableCellsNone(item);
    FlushRows(table);
    assert TruncRows([]) == [];
  }

  /** A flush draws the buffered rows, truncated, and nothing else. */
  lemma FlushRows(table: seq<seq<string>>)
    ensures TableCells(Flush(table)) == TruncRows(table)
  {
    if table != [] {
      TableCellsConcat(RenderTable(table), [Space(3)]);
      TableCellsRender(table);
      assert TableCells([Space(3)]) == [];
    }
  }

  /** The loop's invariant: the rows drawn so far, then the rows still
      buffered, are the rows appended so far. */
  lemma {:induction false} RunRows(lines: seq<string>)
    ensures TableCells(Run(lines).emitted) + TruncRows(Run(lines).table) == TruncRows(AppendedRows(lines))
    decreases |lines|
  {
    if lines != [] {
      var init := lines[..|lines| - 1];
      var before := Run(init);
      var k := Classify(Strip(lines[|lines| - 1]));
      var added := if k.RowLine? && k.cells != [] then [k.cells] else [];
      var eff := Apply(before.table, k);
      assert Run(lines) == Effect(eff.table, before.emitted + eff.emitted);
      assert AppendedRows(lines) == AppendedRows(init) + added;
      calc {
        TableCells(before.emitted + eff.emitted) + TruncRows(eff.table);
        == { TableCellsConcat(before.emitted, eff.emitted); }
        TableCells(before.emitted) + TableCells(eff.emitted) + TruncRows(eff.table);
        == { AppendAssoc(TableCells(before.emitted), TableCells(eff.emitted), TruncRows(eff.table)); }
        TableCells(before.emitted) + (TableCells(eff.emitted) + TruncRows(eff.table));
        == { StepRows(before.table, k); }
        TableCells(before.emitted) + (TruncRows(before.table) + TruncRows(added));
        == { AppendAssoc(TableCells(before.emitted), TruncRows(before.table), TruncRows(added)); }
        TableCells(before.emitted) + TruncRows(before.table) + TruncRows(added);
        == { RunRows(init); }
        TruncRows(AppendedRows(init)) + TruncRows(added);
        == { TruncRowsConcat(AppendedRows(init), added); }
        TruncRows(AppendedRows(init) + added);
      }
    }
  }

  /** Every row appended to the buffer is drawn exactly once, in order, with
      its cells cut to their first 35 characters; no other row is drawn. */
  lemma RowsRenderedOnce(lines: seq<string>)
    ensures TableCells(Converted(lines)) == TruncRows(AppendedRows(lines))
  {
    RunRows(lines);
    TableCellsConcat(Run(lines).emitted, RenderTable(Run(lines).table));
    TableCellsRender(Run(lines).table);
  }

  // ----- Table blocks

  /** A table row is the header exactly when it opens a block of rows, the
      header's column count is its own cell count, and the rows of a block
      share it. */
  predicate Blocks(es: seq<Event>) {
    forall i :: 0 <= i < |es| && es[i].TableRow? ==> RowFits(es, i)
  }

  /** The row at `i` is a header exactly when it opens a block; a header
      has as many columns as cells, any other row the columns of the row
      above it. */
  predicate RowFits(es: seq<Event>, i: nat)
    requires i < |es| && es[i].TableRow?
  {
    (es[i].header <==> (i == 0 || !es[i - 1].TableRow?))
    && (es[i].header ==> es[i].columns == |es[i].cells|)
    && (!es[i].header ==> es[i].columns == es[i - 1].columns)
  }

  predicate EndsOpen(es: seq<Event>) {
    es == [] || !es[|es| - 1].TableRow?
  }

  lemma BlocksConcat(a: seq<Event>, b: seq<Event>)
    requires Blocks(a) && Blocks(b) && EndsOpen(a)
    ensures Blocks(a + b)
  {
    var s := a + b;
    forall i | 0 <= i < |s| && s[i].TableRow?
      ensures RowFits(s, i)
    {
      if i >= |a| {
        assert s[i] == b[i - |a|];
        if i > |a| {
          assert s[i - 1] == b[i - 1 - |a|];
        }
      }
    }
  }

  lemma BlocksExtend(a: seq<Event>, b: seq<Event>)
    requires Blocks(a) && EndsOpen(a) && Blocks(b) && EndsOpen(b)
    ensures Blocks(a + b) && EndsOpen(a + b)
  {
    BlocksConcat(a, b);
    if b == [] {
      assert a + b == a;
    } else {
      assert (a + b)[|a + b| - 1] == b[|b| - 1];
    }
  }

  lemma BlocksRender(table: seq<seq<string>>)
    ensures Blocks(RenderTable(table))
  {
  }

  /** Drawing something other than a row after a block closes it. */
  lemma BlocksClose(a: seq<Event>, b: seq<Event>)
    requires Blocks(a) && b != [] && !HasTableRow(b)
    ensures Blocks(a + b) && EndsOpen(a + b)
  {
    var s := a + b;
    assert s[|s| - 1] == b[|b| - 1];
    forall i | |a| <= i < |s|
      ensures !s[i].TableRow?
    {
      assert s[i] == b[i - |a|];
    }
    forall i | 0 <= i < |s| && s[i].TableRow?
      ensures RowFits(s, i)
    {
      assert i < |a|;
      assert s[i] == a[i];
      if i > 0 {
        assert s[i - 1] == a[i - 1];
      }
      assert RowFits(a, i);
    }
  }

  lemma BlocksNone(es: seq<Event>)
    requires !HasTableRow(es)
    ensures Blocks(es)
  {
  }

  /** What one line draws keeps the blocks apart and ends with no row. */
  lemma StepBlocks(table: seq<seq<string>>, k: LineKind)
    ensures Blocks(Apply(table, k).emitted) && EndsOpen(Apply(table, k).emitted)
  {
    var es := Apply(table, k).emitted;
    if Flushes(k) && table != [] {
      var item := es[|table| + 1..];
      assert es == RenderTable(table) + [Space(3)] + item;
      BlocksRender(table);
      BlocksClose(RenderTable(table), [Space(3)] + item);
      assert !HasTableRow([Space(3)] + item);
      assert es == RenderTable(table) + ([Space(3)] + item);
    } else {
      ApplyFlushes(table, k);
      BlocksNone(es);
    }
  }

  lemma {:induction false} RunBlocks(lines: seq<string>)
    ensures Blocks(Run(lines).emitted) && EndsOpen(Run(lines).emitted)
    decreases |lines|
  {
    if lines != [] {
      var init := lines[..|lines| - 1];
      var before := Run(init);
      var k := Classify(Strip(lines[|lines| - 1]));
      var es := Apply(before.table, k).emitted;
      assert Run(lines).emitted == before.emitted + es;
      RunBlocks(init);
      StepBlocks(before.table, k);
      BlocksExtend(before.emitted, es);
    }
  }

  /** In the whole output, each table is drawn as one block that opens with
      its header row and no other header, all with the header's columns. */
  lemma ConvertedBlocks(lines: seq<string>)
    ensures Blocks(Converted(lines))
  {
    RunBlocks(lines);
    BlocksRender(Run(lines).table);
    BlocksConcat(Run(lines).emitted, RenderTable(Run(lines).table));
  }

  // ----- What is drawn

  /** The shape of each drawn piece: headings have text, table cells are
      non-empty and at most 35 characters, list items carry the indented
      dash, paragraphs are non-empty, and cleaned text keeps at most one
      `*` and one backtick. */
  predicate Drawn(e: Event) {
    match e
    case Heading(level, text) => 1 <= level <= 3 && text != []
    case TableRow(_, _, cells) =>
      cells != [] && forall j :: 0 <= j < |cells| ==> cells[j] != [] && |cells[j]| <= MaxCellChars
    case ListItem(text) => |text| > 6 && text[..6] == "    - " && FewMarks(text)
    case Paragraph(text) => text != [] && FewMarks(text)
    case _ => true
  }

  predicate AllDrawn(es: seq<Event>) {
    forall i :: 0 <= i < |es| ==> Drawn(es[i])
  }

  lemma DrawnRender(table: seq<seq<string>>)
    requires WellFormedTable(table)
    ensures AllDrawn(RenderTable(table))
  {
    forall i | 0 <= i < |table|
      ensures Drawn(RenderTable(table)[i])
    {
      var cells := Truncated(table[i]);
      assert forall j :: 0 <= j < |cells| ==> cells[j] != [];
    }
  }

  /** Cleaned text keeps at most one `*` and one backtick. */
  predicate FewMarks(t: string) {
    Count(t, '*') <= 1 && Count(t, '`') <= 1
  }

  /** What a classified line carries before it is drawn. */
  predicate KindDrawn(k: LineKind) {
    match k
    case HeadingLine(level, text) => 1 <= level <= 3 && text != []
    case RowLine(cells) => WellFormedRow(cells)
    case ListLine(text) => FewMarks(text)
    case ParagraphLine(text) => FewMarks(text)
    case _ => true
  }

  /** A stripped line without a newline is classified into a well-formed
      heading, row, list item or paragraph. */
  lemma ClassifyDrawn(s: string)
    requires Trimmed(s) && '\n' !in s
    ensures KindDrawn(Classify(s))
  {
    if s == [] || s == "---" {
    } else if IsHeading(s) {
      assert s[|s| - 1] != ' ';
    } else if '|' in s {
      assert Classify(s) == TableLineKind(s);
      TableLineDrawn(s);
    } else {
      assert Classify(s) == TextLineKind(s);
      TextLineDrawn(s);
    }
  }

  lemma TableLineDrawn(s: string)
    requires s != []
    ensures KindDrawn(TableLineKind(s))
  {
    if !IsSeparator(s) {
      RowCellsNonEmpty(s);
    }
  }

  lemma TextLineDrawn(s: string)
    requires '\n' !in s
    ensures KindDrawn(TextLineKind(s))
  {
    if IsListLine(s) {
      var t := DropBullet(s);
      assert '\n' !in t by {
        assert t == s[|s| - |t|..];
      }
      CleanProperties(t);
    } else {
      CleanProperties(s);
    }
  }

  /** A well-formed line keeps the buffer well formed and draws only
      well-shaped pieces. */
  lemma ApplyDrawn(table: seq<seq<string>>, k: LineKind)
    requires WellFormedTable(table) && KindDrawn(k)
    ensures WellFormedTable(Apply(table, k).table)
    ensures AllDrawn(Apply(table, k).emitted)
  {
    if Flushes(k) {
      var f := Flush(table);
      if table != [] {
        DrawnRender(table);
      }
      var t := k.text;
      var item := TextItem(k);
      if t != [] && k.ListLine? {
        ListItemDrawn(t);
      }
      assert AllDrawn(item);
      assert Apply(table, k).emitted == f + item;
      AllDrawnConcat(f, item);
    }
  }

  lemma ListItemDrawn(t: string)
    requires FewMarks(t) && t != []
    ensures Drawn(ListItem("    - " + t))
  {
    CountConcat("    - ", t, '*');
    CountConcat("    - ", t, '`');
    CountAbsent("    - ", '*');
    CountAbsent("    - ", '`');
  }

  lemma AllDrawnConcat(a: seq<Event>, b: seq<Event>)
    requires AllDrawn(a) && AllDrawn(b)
    ensures AllDrawn(a + b)
  {
  }

  lemma {:induction false} RunDrawn(lines: seq<string>)
    requires forall i :: 0 <= i < |lines| ==> '\n' !in lines[i]
    ensures WellFormedTable(Run(lines).table) && AllDrawn(Run(lines).emitted)
    decreases |lines|
  {
    if lines != [] {
      var init := lines[..|lines| - 1];
      var before := Run(init);
      var line := lines[|lines| - 1];
      RunDrawn(init);
      var s := Strip(line);
      StripSubset(line);
      ClassifyDrawn(s);
      ApplyDrawn(before.table, Classify(s));
      AllDrawnConcat(before.emitted, Apply(before.table, Classify(s)).emitted);
    }
  }

  /** Everything the converter draws from a document is well shaped: the
      lines of a split text never hold a newline, so the clean-up leaves at
      most one `*` and one backtick in each list item and paragraph. */
  lemma DocumentDrawn(md: string)
    ensures AllDrawn(ConvertedDocument(md))
  {
    var lines := Split(Preprocess(md), '\n');
    RunDrawn(lines);
    DrawnRender(Run(lines).table);
    AllDrawnConcat(Run(lines).emitted, RenderTable(Run(lines).table));
  }
}
