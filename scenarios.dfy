/** Worked examples of the conversion rules, on concrete lines. */
module Scenarios {
  import opened Strings
  import opened Markup
  import opened Transducer
  import opened Properties

  /** A separator line as in `|---|---|---|`. */
  lemma SeparatorExample()
    ensures IsSeparator("|---|---|---|")
  {
    var sep := "|---|---|---|";
    assert forall i :: 0 <= i < |sep| ==> sep[i] == '|' || sep[i] == '-';
  }

  /** The row line `| A | B | C |` yields the cells A, B and C. */
  lemma RowCellsExample()
    ensures RowCells("| A | B | C |") == ["A", "B", "C"]
  {
    RowExampleFormats();
    ExampleCellsClean();
    FormatRowParses(["A", "B", "C"]);
  }

  lemma ExampleCellsClean()
    ensures NonBlankTrimmed(["A", "B", "C"]) && PipeFree(["A", "B", "C"])
  {
    var cells := ["A", "B", "C"];
    forall i | 0 <= i < |cells|
      ensures cells[i] != [] && Trimmed(cells[i]) && '|' !in cells[i]
    {
      assert |cells[i]| == 1;
    }
  }

  /** Writing out the cells A, B and C gives `| A | B | C |`. */
  lemma RowExampleFormats()
    ensures FormatRow(["A", "B", "C"]) == "| A | B | C |"
  {
    ExamplePadded();
    ExampleJoin();
  }

  lemma ExamplePadded()
    ensures [""] + Padded(["A", "B", "C"]) + [""] == ["", " A ", " B ", " C ", ""]
  {
    var cells := ["A", "B", "C"];
    assert " " + "A" + " " == " A " && " " + "B" + " " == " B " && " " + "C" + " " == " C ";
    assert cells[1..] == ["B", "C"] && cells[2..] == ["C"] && cells[3..] == [];
    assert Padded(cells[2..]) == [" C "];
    assert Padded(cells[1..]) == [" B ", " C "];
    assert Padded(cells) == [" A ", " B ", " C "];
  }

  lemma ExampleJoin()
    ensures Join(["", " A ", " B ", " C ", ""], '|') == "| A | B | C |"
  {
    var parts := ["", " A ", " B ", " C ", ""];
    assert parts[1..][1..][1..][1..] == [""];
    assert Join(parts[1..][1..][1..], '|') == " C |";
    assert Join(parts[1..][1..], '|') == " B | C |";
  }

  /** Bold, italic and code markup all come off one paragraph line:
      `**bold** and *italic* and `code`` cleans to `bold and italic and code`
      (the parts are spelt out by `CleanLineSpelled` and `CleanTextSpelled`). */
  lemma CleanExample(a: string, b: string, c: string, d: string, e: string, f: string, g: string)
    requires a == "" && b == "bold" && c == " and " && d == "italic" && e == " and " && f == "code" && g == ""
    ensures Clean(a + "**" + b + "**" + (c + "*" + d + "*" + (e + "`" + f + "`" + g))) == a + b + c + d + e + f + g
  {
    assert Unmarked(a) && Unmarked(b) && Unmarked(c) && Unmarked(d);
    assert Unmarked(e) && Unmarked(f) && Unmarked(g);
    CleanSpans(a, b, c, d, e, f, g);
  }

  /** The list line `- **Item**: description` loses its bullet and its
      bold markers and is drawn as `    - Item: description` (the parts are
      spelt out by `ListLineSpelled`). */
  lemma ListItemExample(b: string, c: string)
    requires b == "Item" && c == ": description"
    ensures Apply([], Classify("- " + ("**" + b + "**" + c))).emitted == [ListItem("    - " + (b + c))]
  {
    assert Unmarked(b) && Unmarked(c) && '\n' !in b && '|' !in b && '|' !in c && b + c != [];
    BoldListItem(b, c);
  }

  /** Any list line made of a bold span and plain text, not both empty,
      draws that text behind the indented dash. */
  lemma BoldListItem(b: string, c: string)
    requires Unmarked(b) && Unmarked(c) && '\n' !in b && '|' !in b && '|' !in c && b + c != []
    ensures Apply([], Classify("- " + ("**" + b + "**" + c))).emitted == [ListItem("    - " + (b + c))]
  {
    var t := "**" + b + "**" + c;
    var s := "- " + t;
    ListLineShape(s, t);
    TextLineEmits([], s);
    ListBulletDropped(s, t);
    BoldFront(b, c);
    var es := Apply([], Classify(s)).emitted;
    assert |es| == 1 && es[0] == ListItem("    - " + (b + c));
    assert es == [es[0]];
  }

  lemma BoldFront(b: string, c: string)
    requires Unmarked(b) && Unmarked(c) && '\n' !in b
    ensures Clean("**" + b + "**" + c) == b + c
  {
    CleanBold([], b, c);
    assert [] + "**" == "**";
    assert [] + b == b;
  }

  lemma ListLineShape(s: string, t: string)
    requires s == "- " + t && t != [] && t[0] == '*' && '|' !in t
    ensures s != [] && s != "---" && '|' !in s && !IsHeading(s) && IsListLine(s)
  {
    assert s[..2] == "- " && s[2] == '*';
  }

  lemma ListBulletDropped(s: string, t: string)
    requires s == "- " + t && t != [] && !IsSpace(t[0])
    ensures DropBullet(s) == t
  {
    assert s[1..] == " " + t;
    assert AllSpace(" ");
    TrimLeftPadded(" ", t);
  }

  /** The paragraph example, written out from its parts. */
  lemma CleanLineSpelled()
    ensures "" + "**" + "bold" + "**" + (" and " + "*" + "italic" + "*" + (" and " + "`" + "code" + "`" + ""))
            == "**bold** and *italic* and `code`"
  {
  }

  lemma CleanTextSpelled()
    ensures "" + "bold" + " and " + "italic" + " and " + "code" + "" == "bold and italic and code"
  {
  }

  /** The list example, written out from its parts. */
  lemma ListLineSpelled()
    ensures "- " + ("**" + "Item" + "**" + ": description") == "- **Item**: description"
    ensures "    - " + ("Item" + ": description") == "    - Item: description"
  {
  }

  /** The paragraph example as written. */
  lemma CleanLiteral()
    ensures Clean("**bold** and *italic* and `code`") == "bold and italic and code"
  {
    CleanExample("", "bold", " and ", "italic", " and ", "code", "");
    CleanLineSpelled();
    CleanTextSpelled();
  }

  /** The list example as written. */
  lemma ListItemLiteral()
    ensures Apply([], Classify("- **Item**: description")).emitted == [ListItem("    - Item: description")]
  {
    ListItemExample("Item", ": description");
    ListLineSpelled();
  }

  // ----- One line of each kind, as a report's lines are written

  /** A separator line as the script meets it: pipes, hyphens, colons and
      whitespace, with a pipe at each end. */
  predicate TableSeparator(s: string) {
    IsSeparator(s) && s[0] == '|' && s[|s| - 1] == '|'
  }

  /** A paragraph drawn as it stands: trimmed, without markup or pipes, and
      neither a rule, a heading nor a list item. */
  predicate PlainText(t: string) {
    t != [] && Trimmed(t) && Unmarked(t) && '|' !in t
    && t != "---" && !IsHeading(t) && !IsListLine(t)
  }

  /** A cell as a table line holds it: non-empty, trimmed, without pipes. */
  predicate PlainCell(x: string) {
    x != [] && Trimmed(x) && '|' !in x
  }

  lemma StripSelf(s: string)
    requires Trimmed(s)
    ensures Strip(s) == s
  {
    StripPadded([], s, []);
    assert [] + s + [] == s;
  }

  /** A `# ` heading line draws the heading and a space, and leaves the
      buffer as it was. */
  lemma HeadingStep(table: seq<seq<string>>, t: string)
    requires t != [] && !IsSpace(t[|t| - 1])
    ensures Step(table, "# " + t) == Effect(table, [Heading(1, t), Space(2)])
  {
    HeadingStripped(t);
    HeadingClassified(t);
    HeadingEffect(table, "# " + t, t);
  }

  lemma HeadingEffect(table: seq<seq<string>>, s: string, t: string)
    requires Strip(s) == s && Classify(s) == HeadingLine(1, t)
    ensures Step(table, s) == Effect(table, [Heading(1, t), Space(2)])
  {
  }

  lemma HeadingStripped(t: string)
    requires t != [] && !IsSpace(t[|t| - 1])
    ensures Strip("# " + t) == "# " + t
  {
    var s := "# " + t;
    assert s[0] == '#' && s[|s| - 1] == t[|t| - 1];
    StripSelf(s);
  }

  lemma HeadingClassified(t: string)
    ensures Classify("# " + t) == HeadingLine(1, t)
  {
    assert HeadingPrefix(1) == "# " by {
      assert seq(1, _ => '#') == "#";
    }
    ClassifyHeading("# " + t, 1, t);
  }

  /** A blank line draws a space and leaves the buffer as it was. */
  lemma BlankStep(table: seq<seq<string>>)
    ensures Step(table, "") == Effect(table, [Space(3)])
  {
    StripSelf("");
  }

  /** `---` draws the rule between two spaces and leaves the buffer as it
      was: a table pending before the rule is still pending after it. */
  lemma RuleStep(table: seq<seq<string>>)
    ensures Step(table, "---") == Effect(table, [Space(3), Rule, Space(3)])
  {
    StripSelf("---");
    ClassifyBlankAndRule("---");
    RuleEffect(table, "---");
  }

  lemma RuleEffect(table: seq<seq<string>>, s: string)
    requires Strip(s) == s && Classify(s) == RuleLine
    ensures Step(table, s) == Effect(table, [Space(3), Rule, Space(3)])
  {
  }

  /** A plain paragraph draws the pending table first, then itself, and
      empties the buffer. */
  lemma ParagraphStep(table: seq<seq<string>>, t: string)
    requires PlainText(t)
    ensures Step(table, t) == Effect([], Flush(table) + [Paragraph(t)])
  {
    StripSelf(t);
    StripPairAbsent(t, "**");
    StripPairAbsent(t, "*");
    StripPairAbsent(t, "`");
    ClassifyText(t);
  }

  /** A two-cell row written out as `| x | y |` appends exactly those cells
      and draws nothing, unless both cells are separator text, which makes
      the whole line a separator. */
  lemma RowStep(table: seq<seq<string>>, x: string, y: string)
    requires PlainCell(x) && PlainCell(y) && (!IsSeparator(x) || !IsSeparator(y))
    ensures Step(table, "| " + x + " | " + y + " |") == Effect(table + [[x, y]], [])
  {
    var s := "| " + x + " | " + y + " |";
    FormatPair(x, y);
    assert NonBlankTrimmed([x, y]) && PipeFree([x, y]);
    FormatRowParses([x, y]);
    RowNotSeparator(x, y);
    assert s[0] == '|' && s[|s| - 1] == '|';
    StripSelf(s);
    NoHashNoHeading(s);
    RowEffect(table, s, [x, y]);
  }

  /** A line that does not start with `#` is no heading. */
  lemma NoHashNoHeading(s: string)
    requires s != [] && s[0] != '#'
    ensures !IsHeading(s)
  {
  }

  lemma RowEffect(table: seq<seq<string>>, s: string, row: seq<string>)
    requires Strip(s) == s && '|' in s && !IsHeading(s) && !IsSeparator(s) && RowCells(s) == row
    ensures Step(table, s) == Effect(table + [row], [])
  {
    TableLineEffect(table, s);
  }

  /** A two-cell table line is a separator only when both its cells are. */
  lemma RowNotSeparator(x: string, y: string)
    requires x != [] && y != [] && (!IsSeparator(x) || !IsSeparator(y))
    ensures !IsSeparator("| " + x + " | " + y + " |")
  {
    var s := "| " + x + " | " + y + " |";
    if !IsSeparator(x) {
      var k :| 0 <= k < |x| && !SeparatorChar(x[k]);
      assert s[2 + k] == x[k];
    } else {
      var k :| 0 <= k < |y| && !SeparatorChar(y[k]);
      assert s[2 + |x| + 3 + k] == y[k];
    }
  }

  /** A separator line appends nothing and draws nothing. */
  lemma SeparatorStep(table: seq<seq<string>>, s: string)
    requires TableSeparator(s)
    ensures Step(table, s) == Effect(table, [])
  {
    StripSelf(s);
    assert !IsHeading(s) by {
      assert s[0] == '|';
    }
    TableLineEffect(table, s);
  }

  /** Two cells written out as a table line. */
  lemma FormatPair(x: string, y: string)
    ensures FormatRow([x, y]) == "| " + x + " | " + y + " |"
  {
    var px, py := " " + x + " ", " " + y + " ";
    var cells := [x, y];
    assert cells[1..] == [y] && cells[1..][1..] == [];
    assert Padded(cells[1..]) == [py] + Padded([]);
    assert Padded(cells) == [px, py];
    var parts := ["", px, py, ""];
    assert [""] + Padded(cells) + [""] == parts;
    assert parts[1..] == [px, py, ""] && parts[1..][1..] == [py, ""] && parts[1..][1..][1..] == [""];
    assert Join(parts[1..][1..], '|') == py + "|" + "";
    assert Join(parts[1..], '|') == px + "|" + (py + "|" + "");
    assert Join(parts, '|') == "" + "|" + (px + "|" + (py + "|" + ""));
  }
}
