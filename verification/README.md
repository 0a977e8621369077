# Text-chart cell interpreter and row assembler, in Dafny

This project models the core of `convert_textchart_xml_excel.py`. That script turns an
interlinear text chart, exported as XML, into a spreadsheet. The model covers three parts:

- `parse_cell`. It reads one chart cell and returns one display string. Its handling, in order:
  - A cell with a row number, a move marker or a note shows that child's text, in that
    priority order.
  - Any other cell collects, in document order, its stripped non-empty words, its literals
    and its `listRef` codes. Empty literals and bare `(` or `)` literals are dropped.
  - The words are paired with the glosses. Equal counts give `w (g)`. Unequal counts give
    the words, then one group of the glosses. Glosses alone give just the group.
  - The literals are appended, then every code as `(code)`.
  - The segments are joined with single spaces. Two regex passes then remove whitespace
    before `)` and after `(`.
  - A cell with no segment falls back to the raw text of its first literal.
  - Every non-empty code is counted in a chart-wide `Counter`.
- The header and row part of `convert_to_excel`:
  - The top header row is built from the `title1` row: a blank, one header per cell with
    its span, and the analysis placeholder inserted before the last header.
  - The second header row is built from the inner cells of the `title2` row.
  - The conversion raises unless the spans add up to the second row's width.
  - Every `normal` row that has cells becomes one data row:
    - a leading blank;
    - each body cell's text, followed by a blank for each further column of its span;
    - one analysis blank;
    - the text of the last cell, which is the notes cell.
  - Each data row is then trimmed or padded to the header width.
- The Legend sheet's order: the counter's items sorted by code.

Modules, one per file:

- `Wrappers` (`wrappers.dfy`): `Option` and `Result`.
- `Text` (`text.dfy`):
  - Python's `str.strip` over the `str.isspace` characters. The same set is the regex
    class `\s`.
  - `' '.join`.
  - The two `re.sub` passes, as left-to-right scans.
- `Counter` (`counter.dfy`): `collections.Counter` as a map from code to count, with a
  missing key counting zero. A `listRef` whose stripped code is empty is not counted at all.
- `ChartCell` (`cell.dfy`): cells and their children as immutable datatypes, and
  `parse_cell` as a pure function that returns the text and the updated counter.
- `Headers` (`headers.dfy`): the two header rows and the span sums.
- `DataRow` (`rows.dfy`):
  - the span layout of one row;
  - the counter threaded through its cells;
  - the trim or pad.
- `Conversion` (`convert.dfy`): the title-row lookup, the header check and the loop over the
  chart's rows.
- `Legend` (`legend.dfy`):
  - Python's string order;
  - a sort of the counter's items by insertion;
  - a proof that the sorted list is unique.
- `CellSamples` (`samples.dfy`): the text and counter of each shape of content cell, for any
  words, glosses and codes without whitespace or parentheses.

Element texts are `Option<string>`, because an XML element's text may be absent. Python
treats a missing text and an empty one alike, and the model follows it. Every counter-free
reference definition (`BodyLayout`, `RowLayout`, `FittedLayouts`) reads the cells alone.
The threaded versions are proved equal to it, with the counter gaining exactly the cells'
codes.

## Model

| member | source | states |
|---|---|---|
| Text.StripSpec | python/convert_textchart_xml_excel.py:61 | `strip()` is empty exactly when the text is all whitespace; otherwise the result starts and ends with a non-space character, is the slice after the leading whitespace, and only whitespace is cut from either end |
| Text.SubCloseCleans | python/convert_textchart_xml_excel.py:117 | after the first pass no whitespace character stands right before a `)` |
| Text.SubCloseKeepsText | python/convert_textchart_xml_excel.py:117 | the first pass deletes whitespace only: the non-space characters survive in order and the string never grows |
| Text.SubCloseKeepsClean | python/convert_textchart_xml_excel.py:117 | a string with no whitespace before a `)` goes through the first pass unchanged |
| Text.SubCloseHead | python/convert_textchart_xml_excel.py:117 | the first pass's output starts with `)` exactly when the input's first non-space character is `)` |
| Text.SubOpenCleans | python/convert_textchart_xml_excel.py:118 | after the second pass no whitespace stands right after a `(`; the output is empty only for empty input and keeps the first character |
| Text.SubOpenKeepsCloseClean | python/convert_textchart_xml_excel.py:117-118 | the second pass cannot put whitespace before a `)`, so the first pass's guarantee survives it |
| Text.SubOpenKeepsText | python/convert_textchart_xml_excel.py:118 | the second pass deletes whitespace only |
| Text.SubOpenKeepsClean | python/convert_textchart_xml_excel.py:118 | a string with no whitespace after a `(` goes through the second pass unchanged |
| Text.Cleanup | python/convert_textchart_xml_excel.py:116-118 | the two passes leave no whitespace before `)` or after `(`, keep every non-space character in order, never lengthen the string, and leave an already clean string unchanged |
| Text.CleanupIdempotent | python/convert_textchart_xml_excel.py:116-118 | running both passes again on their own output changes nothing |
| Text.CleanupJoin | python/convert_textchart_xml_excel.py:116-118 | the space that joins two pieces survives the passes when neither piece starts with whitespace or `)` nor ends with whitespace or `(`, and each piece is cleaned on its own |
| Text.CleanupJoinAll | python/convert_textchart_xml_excel.py:116-118 | cleaning the space join of such pieces equals joining the cleaned pieces: only whitespace inside a piece is removed |
| Text.JoinTidy | python/convert_textchart_xml_excel.py:116 | the space join of such pieces is again such a piece |
| Counter.Bump | python/convert_textchart_xml_excel.py:73 | `counter[code] += 1` raises that code's count by one and no other |
| Counter.Tally | python/convert_textchart_xml_excel.py:70-75 | counting a list of codes adds each code's multiplicity to its count and adds exactly those codes as keys |
| Counter.TallyThreads | python/convert_textchart_xml_excel.py:179-189 | threading the counter through successive `parse_cell` calls counts the concatenation of their codes |
| Counter.TallyFresh | python/convert_textchart_xml_excel.py:167 | a counter started empty holds only codes that occurred, each with a count of at least one |
| ChartCell.First | python/convert_textchart_xml_excel.py:37-47 | `find(tag)` gives nothing exactly when no child has the tag, and otherwise a child carrying the tag |
| ChartCell.Pick | python/convert_textchart_xml_excel.py:59-75 | each collection branch yields only tokens its filter accepts, at most one per child |
| ChartCell.PickOne | python/convert_textchart_xml_excel.py:59-75 | one child adds its stripped text exactly when it carries the branch's tag and the filter accepts the text, and adds nothing otherwise |
| ChartCell.PickCounts | python/convert_textchart_xml_excel.py:59-75 | a branch yields each accepted text exactly as often as children with the tag carry it, and never a text the filter rejects |
| ChartCell.PresentGlosses | python/convert_textchart_xml_excel.py:94 | the grouped glosses are the non-empty ones; with every gloss empty or missing there are none |
| ChartCell.PresentGlossesOne | python/convert_textchart_xml_excel.py:94 | one gloss contributes its text exactly when that text is present and non-empty |
| ChartCell.PresentGlossesAppend | python/convert_textchart_xml_excel.py:94 | the filter keeps gloss order: the present glosses of two lists in a row are the first list's, then the second's |
| ChartCell.PresentGlossesCounts | python/convert_textchart_xml_excel.py:94 | the grouped glosses hold each non-empty gloss text once per gloss carrying it, and never the empty text |
| ChartCell.CellText | python/convert_textchart_xml_excel.py:32-119 | no `main` gives `''`; a content cell with segments gives a clean string (no whitespace before `)` or after `(`, unchanged by a further cleanup) whose non-space characters are exactly those of the joined segments, and equal to the joined segments when they are already clean |
| ChartCell.ParseCell | python/convert_textchart_xml_excel.py:18-119 | the text is the cell's display text; every code's count rises by the number of the cell's `listRef` children carrying it; the empty code is never counted; cells without `main` and row-number, move-marker and note cells leave the counter unchanged |
| ChartCell.CodesCountRefs | python/convert_textchart_xml_excel.py:70-75 | the collected codes hold each non-empty code once per `listRef` child whose stripped text it is, and never the empty code |
| ChartCell.SegmentsNonEmpty | python/convert_textchart_xml_excel.py:116 | no segment is ever empty, so the `if seg` filter of the join drops nothing |
| ChartCell.PickAppend | python/convert_textchart_xml_excel.py:59-75 | collection is in encounter order: the tokens of a child list followed by another are the first list's tokens, then the second's |
| ChartCell.PickByTag | python/convert_textchart_xml_excel.py:59-75 | a collection branch depends only on the children carrying its tag |
| ChartCell.CrossTagOrderIrrelevant | python/convert_textchart_xml_excel.py:59-107 | two child lists that agree tag by tag give the same text and counter, however children of different tags are interleaved |
| ChartCell.SwapDistinctTagsKeepsCell | python/convert_textchart_xml_excel.py:78-107 | exchanging two neighbouring children with different tags changes neither the text nor the counter, so gloss material always precedes literals and literals precede codes |
| ChartCell.PairWordsPairs | python/convert_textchart_xml_excel.py:83-88 | the 1:1 loop gives, for every word in order, `w (g)` when its gloss is present and the bare word otherwise |
| ChartCell.EqualCountsPairEachWord | python/convert_textchart_xml_excel.py:80-90 | equal non-zero counts: the segments are the paired words joined by spaces, then the literals, then the codes |
| ChartCell.UnequalCountsGroupGlosses | python/convert_textchart_xml_excel.py:91-94 | unequal non-zero counts: the joined words, then one group of the present glosses, which is `()` when every gloss is empty or missing, then literals and codes |
| ChartCell.OneSidedPairing | python/convert_textchart_xml_excel.py:95-99 | glosses without words give only the gloss group; words without glosses give only the joined words |
| ChartCell.IgnoredChildAddsNothing | python/convert_textchart_xml_excel.py:59-76 | inserting a whitespace-only word or code, an empty or bare-parenthesis literal, or an unknown child anywhere changes no segment and no count, and changes the text only when it is a literal in a cell without segments |
| ChartCell.SpecialChildWins | python/convert_textchart_xml_excel.py:36-49 | the first row-number child, else the first move marker, else the first note supplies the whole text, and the counter is unchanged |
| ChartCell.BareCellFallsBack | python/convert_textchart_xml_excel.py:109-114 | a content cell has no segment exactly when it has no word, gloss, kept literal or code; its text is then the raw text of its first literal (`''` when the text is missing), or `''` with no literal, and that literal's stripped text is blank or a bare parenthesis |
| Headers.MainHeaders | python/convert_textchart_xml_excel.py:141-150 | the top headers are the blank one-column header, the `title1` cells' headers in order, with the one-column placeholder second to last |
| Headers.SubHeaders | python/convert_textchart_xml_excel.py:153-158 | the second row is blank, `Row`, the texts of the `title2` cells but the first and the last, the placeholder and `Notes` |
| Headers.Middle | python/convert_textchart_xml_excel.py:154 | `[1:-1]` drops the first and the last element, and is empty for fewer than three |
| Headers.MainHeadersSpan | python/convert_textchart_xml_excel.py:141-161 | the top headers span the `title1` cells' columns plus two: the blank and the placeholder |
| DataRow.Slots | python/convert_textchart_xml_excel.py:183-185 | a body cell occupies its span when the span is at least one, and exactly one column otherwise |
| DataRow.CellColumns | python/convert_textchart_xml_excel.py:183-185 | a body cell's columns are its value followed by blanks, as many as it occupies |
| DataRow.BodyLayout | python/convert_textchart_xml_excel.py:179-185 | the body columns number the sum of the cells' slots |
| DataRow.BodyColumns | python/convert_textchart_xml_excel.py:179-185 | threading the counter through the body cells yields the counter-free layout and counts exactly the cells' codes in order |
| DataRow.AssembleRow | python/convert_textchart_xml_excel.py:172-189 | a row before fitting is the leading blank, the body layout, the analysis blank and the notes text, three columns more than the body slots, and counts the codes of all its cells |
| DataRow.BodyCellPlacement | python/convert_textchart_xml_excel.py:179-185 | body cell `i` starts right after the slots of the cells before it, holds its text there and blanks over the rest of its span |
| DataRow.Fit | python/convert_textchart_xml_excel.py:190-196 | a fitted row has exactly the width; trimming keeps the prefix of that length; padding keeps the row as a prefix followed by blanks |
| DataRow.FitKeepsPrefix | python/convert_textchart_xml_excel.py:190-196 | column `i` of a fitted row is the row's column `i` when it has one and a blank otherwise, and fitting twice is fitting once |
| Conversion.FirstRow | python/convert_textchart_xml_excel.py:137-138 | the title-row lookup finds nothing exactly when no row has the type, and otherwise a row of that type |
| Conversion.FirstRowAppend | python/convert_textchart_xml_excel.py:137-138 | `find` returns the first match: a row of the type in an earlier part of the chart hides every later one |
| Conversion.FirstRowIsFirst | python/convert_textchart_xml_excel.py:137-138 | the row found stands at a position before which no row has the type |
| Conversion.EmittingRows | python/convert_textchart_xml_excel.py:171-175 | only `normal` rows with at least one cell produce data rows |
| Conversion.EmittingRowsOne | python/convert_textchart_xml_excel.py:171-175 | a single row is kept exactly when it is a `normal` row with cells |
| Conversion.EmittingRowsAppend | python/convert_textchart_xml_excel.py:170-175 | the loop keeps chart order: the kept rows of two row lists in a row are the first list's, then the second's |
| Conversion.EmittingRowsMembers | python/convert_textchart_xml_excel.py:171-175 | a row is kept exactly when it is in the chart and is a `normal` row with cells |
| Conversion.DataRows | python/convert_textchart_xml_excel.py:170-197 | the row loop yields each emitting row's layout fitted to the width, skips the rest, and counts exactly the codes of the emitting rows |
| Conversion.Convert | python/convert_textchart_xml_excel.py:136-197 | a missing `title1` or `title2` row fails; a header mismatch fails with two different totals; success means the headers are those built from the first `title1` and first `title2` rows, the spans match the second row's width, the data are the fitted layouts of the emitting rows, and the counter counts their codes |
| Conversion.HeaderCheck | python/convert_textchart_xml_excel.py:160-164 | with both title rows present, the conversion succeeds exactly when the `title1` spans plus two equal four plus the inner `title2` cells, and otherwise fails with those two totals |
| Conversion.HeaderCheckIgnoresBody | python/convert_textchart_xml_excel.py:160-171 | the check's outcome and the headers depend only on the title rows: a failure happens before any data row and whatever the data rows are |
| Conversion.ChartTally | python/convert_textchart_xml_excel.py:166-189 | the counter a converted chart carries counts each code of its emitting rows as often as it occurs, holds no other code and never the empty code |
| Conversion.DataRowShape | python/convert_textchart_xml_excel.py:171-197 | every fitted data row (the data rows of a converted chart, at the second header row's width of at least four) is exactly that wide, starts with the blank column and holds its layout's columns up to the width, blanks after |
| Conversion.ChartCodesPresent | python/convert_textchart_xml_excel.py:72-75 | the empty code is never counted anywhere in a chart |
| Legend.BelowTotal | python/convert_textchart_xml_excel.py:356 | string order is total: two different codes are always ordered one way or the other |
| Legend.BelowTransitive | python/convert_textchart_xml_excel.py:356 | string order is transitive |
| Legend.BelowIrreflexive | python/convert_textchart_xml_excel.py:356 | no code sorts before itself |
| Legend.InsertSorted | python/convert_textchart_xml_excel.py:356 | inserting an item with a new code into a sorted list keeps it sorted and adds exactly that item |
| Legend.SortedItems | python/convert_textchart_xml_excel.py:356 | `sorted(counter.items())` holds exactly the counter's entries, each once, in strictly increasing code order |
| Legend.SortedUnique | python/convert_textchart_xml_excel.py:356 | two sorted lists with the same items are equal, so the legend does not depend on the order the counter is read in |
| Legend.LegendCountsCodes | python/convert_textchart_xml_excel.py:166-189 | every legend row listing the chart's tally (the counter a converted chart carries) has a non-empty code and a count of at least one, equal to the code's occurrences in the emitting rows |
| CellSamples.PairedSample | python/convert_textchart_xml_excel.py:80-119 | two words with glosses `g` and missing show `w1 (g) w2` and leave the counter unchanged |
| CellSamples.GroupedSample | python/convert_textchart_xml_excel.py:91-119 | two words with one gloss show `w1 w2 (g)` |
| CellSamples.EmptyGroupSample | python/convert_textchart_xml_excel.py:91-119 | two words whose three glosses are missing or empty show `w1 w2 ()` |
| CellSamples.GlossOnlySample | python/convert_textchart_xml_excel.py:95-119 | two glosses without words show `(g1 g2)` |
| CellSamples.MixedSample | python/convert_textchart_xml_excel.py:59-119 | a padded code, a bare `(` literal, a word and a literal show `w x (c)` and count the stripped code once |
| CellSamples.SpacedGlossSample | python/convert_textchart_xml_excel.py:83-119 | a word with a gloss padded by whitespace shows `w (g)`, the whitespace inside the parentheses removed |

## Left out

- XML parsing with `ElementTree` (lines 128-134). The chart, its rows and cells are
  datatypes. A missing `chart` element, or a parse error, is not modelled.
- A missing `title1` or `title2` row. The source then fails on an attribute access of
  `None`. The model returns `MissingTitleRow`, checked for `title1` first, as the source's
  order implies.
- `int(cell.get('cols', 1))`. A cell's `cols` is already an integer in the model. A
  non-numeric attribute, which raises `ValueError`, is not modelled.
- Multiple `main` or `glosses` children. A cell keeps only its first `main` and its first
  `glosses` element, the ones `find` returns. This matters for headers:
  `cell.find('main/lit')` would also search a second `main` when the first has no literal.
  The model looks in the first `main` only.
- The header texts. They go into the tables as read, `None` included. How pandas and
  openpyxl render a `None` header is not modelled.
- pandas DataFrame creation and everything openpyxl does (lines 199-365):
  - row insertion, merges, fonts and borders;
  - column widths from `len(str(...))`;
  - the auto-filter;
  - the Legend sheet's cell positions, fonts and widths;
  - the save.

  These are calls into libraries that are not part of this model. The legend is modelled
  only as the sorted item list.
- `logging` calls. The warnings about trimming and padding have no effect on the data.
- The `tkinter` dialogs and the overwrite loop in `main`. They are UI and file-system code.
- `scripts/gen-icons.mjs` and `main.js`. They are build tooling and Electron window setup,
  unrelated to the conversion.
- `parse_cell` without a counter. The text does not depend on the counter, so that call is
  `ChartCell.CellText`.
- Unicode. Strings are sequences of code points. `str.strip` and `\s` are modelled by the
  `str.isspace` character set, and no other Unicode behaviour is involved.
