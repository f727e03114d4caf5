# Markdown-to-PDF line converter, modelled in Dafny

This project models `convert_to_pdf.py`, the script that turns a markdown
statistics report into a PDF. The script works in five stages:

1. It spells out the Greek letters `χ` and `μ` in three replacements:
   `χ²` (a `χ` followed by a superscript two) becomes `(Chi-Square)`, then
   any other `χ` becomes `Chi`, then `μ` becomes `mu`.
2. It splits the text into lines and strips each line.
3. It classifies each stripped line, taking the first rule that matches:
   blank, `---` rule, `# ` / `## ` / `### ` heading, pipe-table line, list
   item or paragraph.
4. It collects table rows in a buffer (`table_data`). A list or paragraph
   line draws the buffer as one table and empties it, and so does the end
   of the input.
5. It removes bold, italic and code markup with non-greedy regular
   expressions, and cuts table cells to 35 characters.

Each PDF call becomes an abstract `Event`:
- `Space(n)` for `pdf.ln(n)`;
- `Rule` for the grey line;
- `Heading(level, text)`;
- `TableRow(header, columns, cells)` for one row of `pdf.cell` calls and
  its `pdf.ln()`;
- `ListItem(text)`;
- `Paragraph(text)`.

The project has five modules:
- `Strings` models the Python `str` operations the script calls: `strip`
  (over the whitespace set of `str.isspace`), `split`, `replace`,
  `startswith` and slicing. `Join` is not called by the script; it is the
  inverse of `split`, used to state round trips.
- `Markup` models the regular expressions: non-greedy pair removal
  (`StripPair`, `Clean`), the bullet prefix (`DropBullet`), the separator
  test (`IsSeparator`) and the split of a table line into cells (`RowCells`).
- `Transducer` holds the model itself:
  - the pure step functions `Classify`, `Apply`, `Step` and `Run`, which
    specify the loop;
  - the class `Converter`, whose fields `tableData` and `events` are
    updated in place as the script updates `table_data` and the PDF. Its
    methods are proved against the step functions.
  - the method `Convert`, the script's loop over the lines followed by the
    final flush.
- `Properties` proves what the conversion promises over those functions.
- `Scenarios` works through a few concrete lines.

Where the code and its intended behaviour differ, the model follows the code:
- A `---` line does not flush a pending table. Blank lines and headings do
  not flush it either: all of them `continue` before the flush test at
  line 74. A pending table is therefore drawn after any headings, rules and
  blank-line spaces that follow it in the source.
- The heading text is `stripped[2:]`, `stripped[3:]` or `stripped[4:]`.
  It is not stripped again, so `#   Title` keeps its extra leading spaces.
- The final flush (lines 119-136) draws the rows but adds no `ln(3)` after
  them. A flush in the middle of the document (lines 74-93) does add one.

Notes on the regular expressions:
- In the markup patterns, `.` does not match a newline. The non-greedy
  group therefore closes only if the closing delimiter comes before any
  newline. `FindClose` models this exactly.
- The lines come from `split('\n')`, so no line holds a newline.
  The "at most one mark left" property is stated for such text.
- The separator test `^[\|\s\-:]+$` is applied to a stripped line. That
  line has no trailing newline, so the `$` subtlety (it also matches just
  before a final newline) never arises. `IsSeparator` is that test on
  newline-free text.

## Model

| member | source | states |
|---|---|---|
| Strings.IsSpace | convert_to_pdf.py:26 | no ensures (a predicate): the whitespace set of `str.isspace`, which is also what `\s` matches on a `str`; used by TrimLeft, TrimRight and DropBullet |
| Strings.StartsWith | convert_to_pdf.py:42-59 | no ensures (a predicate): `str.startswith`, the prefix of the pattern's length equals the pattern |
| Strings.TrimLeft | convert_to_pdf.py:26 | `lstrip`: the result is a suffix of the input that is empty or does not start with whitespace |
| Strings.TrimLeftSpaces | convert_to_pdf.py:26 | what `lstrip` removes is all whitespace |
| Strings.TrimRight | convert_to_pdf.py:26 | `rstrip`: the result is a prefix of the input that is empty or does not end with whitespace |
| Strings.TrimRightSpaces | convert_to_pdf.py:26 | what `rstrip` removes is all whitespace |
| Strings.Strip | convert_to_pdf.py:26 | a stripped line is no longer than the line and has no whitespace at either end |
| Strings.StripSpec | convert_to_pdf.py:26 | the line is some whitespace, then the stripped line, then some whitespace |
| Strings.StripPadded | convert_to_pdf.py:26 | stripping whitespace padding off a trimmed text gives that text back, so the decomposition is unique |
| Strings.StripIdempotent | convert_to_pdf.py:26 | stripping twice is stripping once |
| Strings.StripEmpty | convert_to_pdf.py:26-29 | a line strips to the empty string exactly when it is all whitespace, so exactly such lines take the blank branch |
| Strings.Split | convert_to_pdf.py:21 | `split` gives at least one piece, and no piece holds the separator |
| Strings.JoinSplit | convert_to_pdf.py:21 | joining the lines with the separator gives the text back |
| Strings.SplitJoin | convert_to_pdf.py:21 | splitting a join of separator-free pieces gives the pieces back |
| Strings.SplitCovers | convert_to_pdf.py:21 | every character other than the separator lands in some piece |
| Strings.Replace | convert_to_pdf.py:9-11 | no ensures of its own: `str.replace`, one left-to-right scan replacing each leftmost non-overlapping occurrence; characterised by ReplaceOne, ReplaceRemoves, ReplaceKeepsAbsent, ReplaceAbsent, ReplaceCharConcat, ReplaceCharKeepsMiddle, ReplaceAround and ReplaceAroundChar |
| Strings.ReplaceRemoves | convert_to_pdf.py:10-11 | replacing a character by text without it leaves no occurrence of it |
| Strings.ReplaceKeepsAbsent | convert_to_pdf.py:9-11 | a replacement does not create a character absent from the text and from the replacement |
| Strings.ReplaceAbsent | convert_to_pdf.py:9-11 | text without the pattern's first character is unchanged |
| Strings.ReplaceCharConcat | convert_to_pdf.py:10-11 | replacing one character works piece by piece over a concatenation |
| Strings.ReplaceAround | convert_to_pdf.py:9 | an occurrence of a two-character pattern with distinct characters is replaced wherever it stands, independently of its neighbours |
| Strings.ReplaceOne | convert_to_pdf.py:10-11 | a text that is exactly a one-character pattern becomes the replacement |
| Strings.ReplaceAroundChar | convert_to_pdf.py:9 | a character that can start no occurrence of a two-character pattern, and end none, stays in place, and the text on each side is replaced independently |
| Strings.ReplaceCharKeepsMiddle | convert_to_pdf.py:10-11 | replacing a character leaves a middle part without that character in place |
| Strings.Take | convert_to_pdf.py:85 | `cell[:35]` is a prefix of length min(length, 35) |
| Markup.FindClose | convert_to_pdf.py:101-103 | the non-greedy `(.*?)` group followed by the closing delimiter; its own ensures only puts the close inside the text; FindCloseSpec characterises it |
| Markup.PairAt | convert_to_pdf.py:101-103 | whether a pair opens at the start of the text, and the length of its content; ensures the whole pair lies inside the text |
| Markup.PairStep | convert_to_pdf.py:101-103 | one step of the `re.sub` scan: a pair's content is kept and the pair consumed, or one character is kept; ensures the scan goes forward |
| Markup.StripPair | convert_to_pdf.py:101-103 | one `re.sub` of a non-greedy pair pattern; its own ensures says it never lengthens the text; characterised by StripPairAbsent, StripPairFirst, StripPairRemovesOnlyDelimiters, StripSingleLeavesOne and StripPairNoNewline |
| Markup.Clean | convert_to_pdf.py:101-103 | no ensures of its own: bold, then italic, then code removal, as at lines 101-103 and again at 112-114; characterised by CleanProperties, CleanBold and CleanSpans |
| Markup.FindCloseSpec | convert_to_pdf.py:101-103 | the non-greedy group closes at the first occurrence of the delimiter, with no newline before it; it reports none only when no occurrence comes before a newline |
| Markup.FindCloseAt | convert_to_pdf.py:101-103 | a group free of the delimiter's first character and of newlines closes right after itself |
| Markup.StripPairAbsent | convert_to_pdf.py:101-103 | pair removal leaves text without the delimiter's first character unchanged |
| Markup.StripPairFirst | convert_to_pdf.py:101-103 | the leftmost pair is removed with its content kept, and scanning resumes after the closing delimiter |
| Markup.StripPairRemovesOnlyDelimiters | convert_to_pdf.py:101-103 | pair removal of a delimiter made of one repeated character deletes only that character |
| Markup.StripSingleLeavesOne | convert_to_pdf.py:102-103 | after removing single-character pairs on a newline-free line, at most one such character is left |
| Markup.StripPairNoNewline | convert_to_pdf.py:101-103 | pair removal creates no newline |
| Markup.StripPairKeepsOthers | convert_to_pdf.py:103 | removing code pairs leaves the number of `*` unchanged |
| Markup.CleanProperties | convert_to_pdf.py:101-103 | cleaning never lengthens the text; it leaves text without `*` and backticks unchanged; it removes only `*` and backticks; on a newline-free line it leaves at most one `*` and one backtick |
| Markup.LoneStar | convert_to_pdf.py:101 | a `*` not followed by another `*` opens no bold pair and stays |
| Markup.CleanBold | convert_to_pdf.py:101-103 | a line with one bold span and no other markup loses exactly its two `**` markers |
| Markup.CleanSpans | convert_to_pdf.py:101-103 | a line with one bold, one non-empty italic and one code span, in that order and otherwise free of markup, loses exactly the markers: the bold pass leaves the lone `*` of the italic span alone |
| Markup.IsSeparator | convert_to_pdf.py:64 | no ensures (a predicate): the separator pattern of line 64 on a stripped line, a non-empty text of pipes, whitespace, hyphens and colons; used by ClassifyTable and RowCellsNonEmpty |
| Markup.SeparatorChar | convert_to_pdf.py:64 | no ensures (a predicate): the character class of the separator pattern, a pipe, whitespace, a hyphen or a colon; used by IsSeparator and RowCellsNonEmpty |
| Markup.Cells | convert_to_pdf.py:67-68 | the two comprehensions: each piece stripped, the empty ones dropped; its own ensures gives at most one cell per piece; characterised by CellsTrimmed, CellsNoPipe and CellsKeepVisible |
| Markup.DropBullet | convert_to_pdf.py:100 | `^[-*]\s+` removes a leading `-` or `*` and all the whitespace after it exactly when a whitespace character follows the bullet; otherwise the text is unchanged |
| Markup.CellsTrimmed | convert_to_pdf.py:67-68 | every kept cell is non-empty and stripped |
| Markup.CellsNoPipe | convert_to_pdf.py:67-68 | cells cut from pipe-free pieces hold no pipe |
| Markup.RowCells | convert_to_pdf.py:67-68 | no cell of a table line is empty, holds a pipe, or starts or ends with whitespace |
| Markup.RowCellsNonEmpty | convert_to_pdf.py:64-70 | a table line that is not a separator always yields at least one cell, so it always appends a row |
| Markup.CellsKeepVisible | convert_to_pdf.py:67-68 | a piece with non-whitespace content survives the empty-cell filter: its stripped text is one of the cells |
| Markup.FormatRowParses | convert_to_pdf.py:67-68 | writing out trimmed, non-empty, pipe-free cells as a table line (each cell padded by spaces, pipes between and around them) and parsing that line gives the cells back |
| Transducer.Preprocess | convert_to_pdf.py:9-11 | no ensures of its own: the three replacements in the script's order; characterised by PreprocessChiSquare, PreprocessLoneChi, PreprocessMu, PreprocessRemovesGreek and PreprocessPlain |
| Transducer.IsListLine | convert_to_pdf.py:96 | no ensures (a predicate): the line starts with `-   `, `- ` or `* ` |
| Transducer.Classify | convert_to_pdf.py:29-116 | no ensures of its own: the tests in the script's order, the first that passes decides; characterised by ClassifyBlankAndRule, ClassifyHeading, ClassifyIsHeading, ClassifyTable and ClassifyText |
| Transducer.TableLineKind | convert_to_pdf.py:62-71 | no ensures of its own: a separator, or the row `RowCells`; characterised by ClassifyTable and TableLineEffect |
| Transducer.TextLineKind | convert_to_pdf.py:95-116 | no ensures of its own: a list line without its bullet, or a paragraph, cleaned; characterised by ClassifyText |
| Transducer.Truncated | convert_to_pdf.py:85-90 | every shown cell is a prefix of its cell, at most 35 characters long, and empty only when the cell is |
| Transducer.RenderTable | convert_to_pdf.py:77-91 | a rendered table has one event per buffered row |
| Transducer.Flush | convert_to_pdf.py:74-93 | no ensures of its own: nothing for an empty buffer, otherwise the rendered table and `Space(3)`; characterised by FlushRows and ApplyFlushes |
| Transducer.Apply | convert_to_pdf.py:29-116 | no ensures of its own: what each kind of line does to the buffer and draws; characterised by ApplyFlushes, TableLineEffect, TextLineEmits, StepRows, StepBlocks and ApplyDrawn |
| Transducer.TextItem | convert_to_pdf.py:95-116 | no ensures of its own: `"    - " + text` for a list line, the text for a paragraph, nothing when the text is empty; characterised by TextLineEmits |
| Transducer.Step | convert_to_pdf.py:26-116 | no ensures of its own: one iteration, `Apply` of the classified stripped line; Converter.ProcessLine is proved equal to it |
| Transducer.Run | convert_to_pdf.py:25-116 | no ensures of its own: the loop as a fold of `Step` over the lines; characterised by RunRows, RunBlocks and RunDrawn, and the loop invariant of Convert |
| Transducer.Converted | convert_to_pdf.py:25-136 | no ensures of its own: the loop, then the final flush without a trailing space; characterised by RowsRenderedOnce and ConvertedBlocks |
| Transducer.ConvertedDocument | convert_to_pdf.py:9-136 | no ensures of its own: substitution, split into lines, conversion; characterised by DocumentDrawn; Convert is proved equal to it |
| Transducer.Converter.constructor | convert_to_pdf.py:22-23 | the converter starts with an empty buffer and no output |
| Transducer.Converter.RenderTableData | convert_to_pdf.py:77-91 | the nested loops (here and again at lines 122-136) draw exactly `RenderTable` of the buffer: each row in order, the first as header, each cell truncated |
| Transducer.Converter.FlushTable | convert_to_pdf.py:74-93 | a flush draws the pending table and its trailing space, then empties the buffer |
| Transducer.Converter.AddTableLine | convert_to_pdf.py:62-71 | a separator leaves the buffer alone; any other table line appends its cells if there are any; the buffer stays well formed |
| Transducer.Converter.DrawText | convert_to_pdf.py:95-116 | a list line draws `"    - " + text` and a paragraph draws its text, each only when the cleaned text is non-empty |
| Transducer.Converter.AddTextLine | convert_to_pdf.py:73-116 | a list or paragraph line flushes first and then draws itself, as `Apply` says |
| Transducer.Converter.AddLine | convert_to_pdf.py:29-116 | the branch chain on a stripped line changes the buffer and the output exactly as `Apply(Classify(line))` says |
| Transducer.Converter.ProcessLine | convert_to_pdf.py:25-116 | one loop iteration on a raw line is `Step` on that line |
| Transducer.Converter.Finish | convert_to_pdf.py:118-136 | the final flush draws the remaining rows with no trailing space |
| Transducer.AppendRow | convert_to_pdf.py:69-70 | appending a well-formed row keeps the buffer well formed |
| Transducer.RunExtends | convert_to_pdf.py:25 | the run over one more line is one more step |
| Transducer.Convert | convert_to_pdf.py:9-136 | the events the script's loop and final flush draw are `ConvertedDocument` of the text; this is what the script draws when FPDF can encode everything drawn (see "Left out") |
| Properties.PreprocessRemovesGreek | convert_to_pdf.py:9-11 | after substitution no `χ` and no `μ` remains |
| Properties.PreprocessChiSquare | convert_to_pdf.py:9-10 | every `χ²` becomes `(Chi-Square)`, never `Chi²`, whatever surrounds it |
| Properties.PreprocessLoneChi | convert_to_pdf.py:9-11 | a `χ` not followed by `²` becomes `Chi`, whatever surrounds it |
| Properties.PreprocessMu | convert_to_pdf.py:9-11 | every `μ` becomes `mu`, whatever surrounds it |
| Properties.PreprocessPlain | convert_to_pdf.py:9-11 | text without `χ` and `μ` is unchanged |
| Properties.ClassifyBlankAndRule | convert_to_pdf.py:29-39 | a line is blank exactly when it is empty, and a rule exactly when it is `---` |
| Properties.ClassifyHeading | convert_to_pdf.py:42-59 | a line is a heading of level 1-3 with a given text exactly when it is that many `#`, a space, then the text |
| Properties.ClassifyIsHeading | convert_to_pdf.py:42-59 | a line is a heading exactly when it starts with `# `, `## ` or `### ` |
| Properties.ClassifyTable | convert_to_pdf.py:62-71 | a line is a table line exactly when it holds a pipe and is not a heading, even if it starts like a list item; it is a separator exactly when it is made of separator characters; otherwise its row is `RowCells` and well formed |
| Properties.ClassifyText | convert_to_pdf.py:95-116 | a line is a list item exactly when it falls through the earlier tests and starts with a bullet, and a paragraph exactly when it falls through all of them; the text is the cleaned line, without its bullet for a list item |
| Properties.TableLineEffect | convert_to_pdf.py:62-71 | a separator appends nothing and draws nothing; any other table line appends exactly its well-formed row and draws nothing |
| Properties.ApplyFlushes | convert_to_pdf.py:29-93 | a line draws a table row exactly when it is a list or paragraph line and the buffer is non-empty; such a line empties the buffer and draws the whole table and its space first; every other line keeps the buffered rows and appends at most one; blank, rule and heading lines leave the buffer exactly as it was |
| Properties.TextLineEmits | convert_to_pdf.py:74-116 | a list or paragraph line draws the pending table, then its cleaned text (a list item behind `"    - "`), or nothing of its own when that text is empty; the buffer ends empty |
| Properties.TableCellsRender | convert_to_pdf.py:80-91 | rendering a table draws each row once, in order, truncated |
| Properties.FlushRows | convert_to_pdf.py:74-93 | a flush draws exactly the buffered rows, truncated |
| Properties.AppendedRows | convert_to_pdf.py:62-71 | no ensures (a reference definition): the non-empty rows of the table lines in line order, independent of when flushes happen |
| Properties.TableCells | convert_to_pdf.py:85-90 | no ensures (a reference definition): the cells of the drawn table rows, in drawing order |
| Properties.TruncRows | convert_to_pdf.py:85-90 | no ensures (a reference definition): each row with every cell cut to 35 characters |
| Properties.StepRows | convert_to_pdf.py:62-93 | each line either moves every buffered row to the output or appends at most one row, and loses none |
| Properties.RunRows | convert_to_pdf.py:25-116 | loop invariant: the rows drawn so far, followed by the rows still buffered, are exactly the rows appended so far |
| Properties.RowsRenderedOnce | convert_to_pdf.py:25-136 | over the whole run, every appended row is drawn exactly once, in order, and no other row is drawn |
| Properties.BlocksRender | convert_to_pdf.py:80-91 | in a rendered table only the first row is the header, and all rows share the first row's column count |
| Properties.StepBlocks | convert_to_pdf.py:29-116 | what a line draws keeps tables apart and ends with no row pending |
| Properties.RunBlocks | convert_to_pdf.py:25-116 | in the loop's output each table is one block of rows that opens with its only header row |
| Properties.ConvertedBlocks | convert_to_pdf.py:25-136 | the same holds for the whole output, including the final flush |
| Properties.DrawnRender | convert_to_pdf.py:85-90 | a rendered table of well-formed rows draws non-empty cells of at most 35 characters |
| Properties.ClassifyDrawn | convert_to_pdf.py:26-116 | a stripped newline-free line classifies into a heading with text, a well-formed row, or cleaned text with at most one `*` and one backtick |
| Properties.ApplyDrawn | convert_to_pdf.py:29-116 | a well-formed line keeps the buffer well formed and draws only well-shaped events |
| Properties.ListItemDrawn | convert_to_pdf.py:104-105 | a drawn list item is the indented dash followed by non-empty text |
| Properties.RunDrawn | convert_to_pdf.py:21-116 | over newline-free lines the buffer stays well formed and everything drawn is well shaped |
| Properties.DocumentDrawn | convert_to_pdf.py:9-136 | every event the model draws from any document is well shaped (the encoding failure is not modelled, see "Left out") |
| Scenarios.SeparatorExample | convert_to_pdf.py:64 | the markdown separator line of three dashed columns is a separator |
| Scenarios.RowExampleFormats | convert_to_pdf.py:67 | the cells A, B and C are written out as the table line of those three cells |
| Scenarios.RowCellsExample | convert_to_pdf.py:67-68 | the table line of A, B and C yields exactly those three cells |
| Scenarios.CleanExample | convert_to_pdf.py:112-114 | the paragraph text made of the bold span bold, the italic span italic and the code span code, joined by ` and `, given by its parts, cleans to `bold and italic and code` |
| Scenarios.BoldListItem | convert_to_pdf.py:96-106 | a list line of a bold span and plain text, not both empty, is drawn as `"    - "` followed by that text without markers |
| Scenarios.ListItemExample | convert_to_pdf.py:96-106 | the list line `- **Item**: description`, given by its parts, is drawn as `    - Item: description` |
| Scenarios.CleanLiteral | convert_to_pdf.py:112-114 | the paragraph text ``**bold** and *italic* and `code` `` cleans to `bold and italic and code` |
| Scenarios.ListItemLiteral | convert_to_pdf.py:96-106 | the list line `- **Item**: description` is drawn as the single list item `    - Item: description` |
| Scenarios.HeadingStep | convert_to_pdf.py:42-47 | a level-one heading line `# ` followed by text with no trailing space draws that text as a level-one heading and a space of 2, and leaves the pending table untouched |
| Scenarios.BlankStep | convert_to_pdf.py:28-31 | a blank line draws a space of 3 and leaves the pending table untouched |
| Scenarios.RuleStep | convert_to_pdf.py:33-39 | the line `---` draws a space of 3, the rule and a space of 3, and leaves the pending table untouched |
| Scenarios.ParagraphStep | convert_to_pdf.py:73-116 | a paragraph line that is non-empty, trimmed, free of stars, backticks and pipes, and neither `---`, a heading nor a list item first draws the pending table, then itself unchanged, and empties the buffer |
| Scenarios.RowStep | convert_to_pdf.py:62-71 | a two-cell table line built from two non-empty, trimmed, pipe-free cells, not both made only of separator characters, appends exactly the row of those two cells to the pending table and draws nothing |
| Scenarios.RowNotSeparator | convert_to_pdf.py:64 | a two-cell table line of non-empty cells is a separator only when both cells are made only of separator characters |
| Scenarios.SeparatorStep | convert_to_pdf.py:62-65 | a separator line made of pipes, hyphens, colons and whitespace, starting and ending with a pipe, appends nothing and draws nothing |
| Scenarios.FormatPair | convert_to_pdf.py:67 | two cells are written out as the table line with those two cells, each padded by one space |

## Left out

- FPDF rendering: fonts, colours, fill colours, `multi_cell` wrapping,
  page breaks, margins and the coordinates of the rule (lines 14-18,
  36-37, 43-57, 75-76, 82-83, 87, 97-98, 109-110, 120-121, 127-128,
  132). FPDF is a foreign library.
  Each call is kept only as the abstract event it stands for. The header
  row's `fill=True` becomes `TableRow.header`.
- `col_width = 180 / num_cols` (lines 78, 123) is floating-point
  arithmetic. Only `num_cols` is recorded, as `TableRow.columns`.
- Reading the markdown file, writing the PDF, and the final `print`
  (lines 5-6, 139-141). The text is a parameter of `Convert`, and the
  output is the returned event sequence.
- The `in_table` flag (line 22) is never read, so it is not modelled.
- `generate_word_doc.py` and the `word_generator` package are not part of
  this model. They are a wrapper over python-docx with hardcoded content
  and styles.
- Strings.IsSpace: covers the characters that Python's `str.isspace` and
  `\s` accept. Unicode normalisation and encodings do not arise, since the
  script works on decoded text.
- Transducer.Convert: the events are what the script draws only when
  FPDF can encode every drawn text. The script uses a core font
  (Helvetica), which takes only Latin-1. A drawn text that still holds
  another character after the substitution at lines 9-11 (`α`, `≤`, `—`, …)
  makes the real script stop with an encoding error, and no PDF is written.
  That failure path is not modelled: `Convert` and `ConvertedDocument`
  draw such text like any other.
- Properties.DocumentDrawn: states the shape of the modelled events for
  any document; for a document whose drawn text is not Latin-1 the script
  itself fails instead (see the line above).
- Markup.IsSeparator: models `re.match` with `$` only on text without a
  newline, which is the only kind of text the script passes to it.
