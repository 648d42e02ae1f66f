# FANC feasibility tooling, modelled in Dafny

The FANC part of the launch-flow repository has two scripts, and this
project models the core of each.

- **`create_fanc_docx.py`** turns a Markdown feasibility report into a Word
  document.
  - It makes one pass over the lines of the file. Each line is stripped and
    sent through a cascade of prefix tests. The loop carries two modes from
    line to line: a table buffer (`table_mode`, `table_lines`) and a diagram
    flag (`mermaid_mode`).
  - Runs of pipe lines become a table: `process_table` drops the divider
    rows and fits every row to the width of the first data row.
  - Text inside `**…**` becomes bold runs (`process_bold`).
- **`analyze_fanc_data.py`** does three things.
  - It reads the product from the quotation sheet (`extract_product_specs`).
  - It reads the sides of a box from a size text (`parse_dimensions`).
  - It matches the product against the packages of the parts table
    (`package_matching`): both boxes are sorted, the three slacks scored,
    the rule of thumb applied, and the results ordered by score.

Modules:

- `Text`: the Python `str` operations the scripts use (`strip`,
  `strip('|')`, `split`, `count`, `replace`, `in`, `startswith`,
  `endswith`).
- `Inline`: `process_bold`, as a scan equal to `re.split` with one capture
  group. The formatter the rest of the model uses has the bold test
  corrected (see "## Findings"). `AsWrittenBoldRuns` keeps the code's own
  test.
- `Docs`: the output document. It is a class whose sequence of blocks only
  grows.
- `Tables`: `process_table`.
- `Converter`: `create_docx`. It is an imperative method, proved against
  `Feed`, a left fold (a fold over the lines in order) of a one-line step
  function `Step`.
- `Dimensions`: `parse_dimensions` and `package_matching`.
- `Quotation`: `extract_product_specs`.

Details the model takes from the code:

- A quote line loses every `>` it contains (`line.replace('>', '')`), not
  only its leading marker, and is then stripped.
- `strip('|')` drops every leading and trailing pipe of a table line.
- `process_bold("")` adds one empty plain run.
- Slacks are taken between sorted sides, so a 41x137x51 product in a
  50x140x60 box has the slacks [9, 9, 3] (`Dimensions.ScenarioFit`).

Boxes are compared up to turning. `Orientations(d)` lists the six orders of
the three sides. "Sorting only reorders" is stated as membership in that
list.

## Model

| member | source | states |
|---|---|---|
| `Text.ContainsAt` | analyze_fanc_data.py:69 | `sub in s` holds exactly when `sub` occurs in `s` at some position |
| `Text.Count` | create_fanc_docx.py:72 | `line.count` of a character is never more than the length of the line |
| `Text.CountAll` | create_fanc_docx.py:72 | the count is the whole length exactly when every character is the counted one |
| `Text.CountPositive` | create_fanc_docx.py:69-72 | `line.count` of the pipe character is positive exactly when the line contains a pipe, so a counted line with fewer than two pipes has exactly one |
| `Text.TrimStartFacts` | create_fanc_docx.py:57 | `lstrip` keeps a suffix that does not start with a stripped character, and every character it drops is one |
| `Text.TrimEndFacts` | create_fanc_docx.py:57 | `rstrip` keeps a prefix that does not end with a stripped character, and every character it drops is one |
| `Text.TrimFacts` | create_fanc_docx.py:135 | `strip(chars)` keeps an infix that neither starts nor ends with a stripped character, and drops only those characters on either side |
| `Text.TrimIdempotent` | create_fanc_docx.py:57 | stripping twice is stripping once |
| `Text.Strip` | create_fanc_docx.py:57 | `strip()` gives a string no longer than the line that neither starts nor ends with whitespace |
| `Text.StripChars` | create_fanc_docx.py:57 | `strip()` keeps only characters of the line, and every one of them that is not whitespace |
| `Text.RemoveChar` | create_fanc_docx.py:106 | `line.replace('>', '')` leaves no `>` in the line |
| `Text.RemoveCharCount` | create_fanc_docx.py:106 | `replace` drops exactly as many characters as `count` finds, and no more |
| `Text.RemoveCharChars` | create_fanc_docx.py:129 | the removal keeps only characters of the line, and keeps every character other than the removed one |
| `Text.RemoveCharAppend` | create_fanc_docx.py:106 | the removal goes character by character: on a concatenation it is the removal on each part, in order |
| `Text.RemoveCharAbsent` | create_fanc_docx.py:106 | a line without the character is left as it is |
| `Text.ReplaceChar` | analyze_fanc_data.py:77 | `replace("×", "x")` keeps the length and changes exactly the `×` characters, each into `x` |
| `Text.SplitOn` | create_fanc_docx.py:143 | `split` on the pipe character gives one more piece than there are pipes, and no piece holds a pipe |
| `Text.JoinSplitOn` | create_fanc_docx.py:143 | joining the pieces of `split` on the pipe character with pipes gives the string back |
| `Inline.CloseFrom` | create_fanc_docx.py:32 | the lazy tail of a match ends just after a `**` that lies within the line |
| `Inline.CloseFromFirst` | create_fanc_docx.py:32 | the lazy tail stops at the first `**` when no line feed comes before it, and fails exactly when a line feed comes before every later `**` |
| `Inline.Split` | create_fanc_docx.py:32 | splitting always gives at least one piece, and the first and the last pieces are plain text |
| `Inline.MatchWellMarked` | create_fanc_docx.py:32 | every match has opening and closing markers, no line feed, and no marker inside it |
| `Inline.SplitShape` | create_fanc_docx.py:32 | `re.split` with one capture group gives an odd number of pieces, alternating plain and match (plain exactly at the even positions), and every match is well formed |
| `Inline.CloseFromSlice` | create_fanc_docx.py:32 | a closing `**` found inside a stretch of the line is found at the same place in the whole line |
| `Inline.MatchInSlice` | create_fanc_docx.py:32 | a match inside a stretch of the line is a match in the whole line at the same place |
| `Inline.PlainPieceNoMatch` | create_fanc_docx.py:32 | a stretch the scan passed over without a match holds no match itself |
| `Inline.SplitPlainNoMatch` | create_fanc_docx.py:32 | no plain piece of `re.split` holds a match: no `**…**` is left unsplit |
| `Inline.SplitPlaced` | create_fanc_docx.py:32 | the scan takes the leftmost match every time: no match of the line starts inside a plain piece, and each match piece is the match of the line that starts where the piece does |
| `Inline.PlacedIndexed` | create_fanc_docx.py:32 | pieces laid end to end can be located by index: piece k starts where the pieces before it end |
| `Inline.SplitBoldLeftmost` | create_fanc_docx.py:32 | for `re.split` on the whole line: piece k sits at the combined length of the pieces before it; no match of the line starts inside a plain piece, and a match piece is the match that starts there |
| `Inline.MatchFound` | create_fanc_docx.py:32 | when the line has a match anywhere the scan has yet to reach, `re.split` gives at least one match piece |
| `Inline.SplitCovers` | create_fanc_docx.py:32 | the pieces of the scan, put back together, are the rest of the line |
| `Inline.SplitBoldCovers` | create_fanc_docx.py:32 | `re.split` loses nothing: the pieces concatenated are the line |
| `Inline.ProcessBold` | create_fanc_docx.py:30-38 | the loop adds one run per piece, in order: a match becomes bold and loses its markers, any other piece stays verbatim and plain (the corrected bold test; see "## Left out") |
| `Inline.RenderSegmentRuns` | create_fanc_docx.py:33-38 | writing each bold run back between `**` gives the text of the pieces |
| `Inline.BoldRunsRoundTrip` | create_fanc_docx.py:30-38 | round trip: the runs, with bold text written back between `**`, are the input line |
| `Inline.BoldRunShape` | create_fanc_docx.py:30-38 | the runs alternate plain, bold, …, plain, and a bold run holds no `**` and no line feed |
| `Inline.PlainRunsHoldNoMatch` | create_fanc_docx.py:32-38 | no plain run holds a `**…**` match: every match is made bold |
| `Inline.MarkedLineHasBoldRun` | create_fanc_docx.py:32-36 | a line without line feeds that has two `**` markers apart from each other gets at least one bold run |
| `Inline.NoMarkerPlain` | create_fanc_docx.py:32 | a line without `**` is one plain piece |
| `Inline.PlainLineSingleRun` | create_fanc_docx.py:30-38 | a line without `**` becomes a single plain run holding the line |
| `Inline.LoneMarkerIsSwallowed` | create_fanc_docx.py:34-36 | as written, the line `**` becomes one empty bold run and its text is lost; the corrected formatter keeps `**` as plain text |
| `Inline.AsWrittenBoldRuns` | create_fanc_docx.py:30-38 | the code's own formatter gives one run per piece of `re.split`, and a run that is not bold is its piece verbatim |
| `Inline.PlainPiecesUnmarked` | create_fanc_docx.py:32-34 | a plain piece in a line without line feeds passes the source's `startswith`/`endswith` test only when it is `**` or `***` |
| `Inline.PlainPieceBound` | create_fanc_docx.py:32-34 | a stretch scanned without a match that starts and ends with `**` is `**` or `***` |
| `Inline.MarkersMatch` | create_fanc_docx.py:32 | two markers with no line feed between them make a match at the first |
| `Inline.AsWrittenAgrees` | create_fanc_docx.py:30-38 | when no plain piece is `**` or `***`, `process_bold` as written gives exactly the corrected runs |
| `Docs.PlainText` | create_fanc_docx.py:64 | `add_paragraph(text)` and `add_heading(text)` give one plain run of the text, or none for the empty text |
| `Docs.Document.constructor` | create_fanc_docx.py:41 | a new document has no blocks |
| `Docs.Document.Add` | create_fanc_docx.py:91 | adding a block appends it and changes nothing else |
| `Tables.DataLines` | create_fanc_docx.py:129 | the filter keeps at most the lines it is given |
| `Tables.DividerLine` | create_fanc_docx.py:129 | the divider test passes every line made of dashes, colons, spaces and pipes, and passes no line holding anything beyond those and whitespace |
| `Tables.Cells` | create_fanc_docx.py:143 | a line always has at least one cell |
| `Tables.Blanks` | create_fanc_docx.py:148 | `[''] * n` has `n` empty cells, or none when `n` is not positive |
| `Tables.FitRow` | create_fanc_docx.py:146-148 | a fitted row is exactly `cols` wide: cell j keeps the j-th cell when there is one, otherwise it is empty |
| `Tables.TableBlocks` | create_fanc_docx.py:129-154 | a flush adds at most one block, a table with no more rows than lines buffered |
| `Tables.FillRow` | create_fanc_docx.py:151-154 | the inner loop gives cell j of the row the corrected bold runs of the j-th fitted cell text |
| `Tables.FillGrid` | create_fanc_docx.py:142-154 | the outer loop writes one row per data line, in order |
| `Tables.ProcessTable` | create_fanc_docx.py:127-154 | `process_table` adds nothing when every line is a divider, otherwise one table as wide as the first data row |
| `Tables.DataLinesAppend` | create_fanc_docx.py:129 | the filter works line by line and keeps input order |
| `Tables.DataLinesMembers` | create_fanc_docx.py:129 | a line is kept exactly when it is buffered and is not a divider |
| `Tables.GridCells` | create_fanc_docx.py:136-154 | the table has one row per data line, each `cols` wide; cell (i, j) holds the bold runs of cell j of line i, or of "" past the end of a short line |
| `Tables.NoTableIffAllDividers` | create_fanc_docx.py:129-132 | no table is emitted exactly when every buffered line is a divider |
| `Tables.TableRowsEqualWidth` | create_fanc_docx.py:135-148 | every row of an emitted table is exactly as wide as the first data row |
| `Tables.CellsArePipeFree` | create_fanc_docx.py:143 | no cell contains a pipe |
| `Converter.CreateDocx` | create_fanc_docx.py:40-124 | the loop over the lines and the final flush build exactly `Convert(lines)`: the fold of the one-line step over the file, then a table still open is flushed (runs from the corrected bold test) |
| `Converter.Step` | create_fanc_docx.py:56-118 | one line keeps every block already in the document, adds at most two (a flushed table and its own block), and flips the diagram flag exactly at a fence |
| `Converter.Classify` | create_fanc_docx.py:89-118 | the prefix cascade adds at most one block, never a table, and headings only of levels 1 to 4 |
| `Converter.StepRules` | create_fanc_docx.py:56-118 | one line, rule by rule: fences toggle the diagram flag; diagram lines become verbatim quotes; a first line with one pipe is a paragraph and one with two pipes opens the buffer; further pipe lines join it; a line without a pipe flushes an open table, then goes through the prefix cascade |
| `Converter.FeedAppend` | create_fanc_docx.py:56 | the pass over two pieces of input is the pass over one, then the other |
| `Converter.Feed` | create_fanc_docx.py:56-118 | the pass only appends: blocks once added stay, in their order |
| `Converter.FeedKeepsBufferInvariant` | create_fanc_docx.py:69-87 | the table buffer is open exactly when it holds lines; its first line has two pipes or more and every line in it has one |
| `Converter.DiagramBody` | create_fanc_docx.py:63-66 | inside a diagram, each non-fence line becomes one verbatim quote, and nothing else changes |
| `Converter.DiagramBlock` | create_fanc_docx.py:59-66 | a fenced diagram adds one verbatim quote per inner line; the fences add nothing, and a buffered table stays buffered |
| `Converter.TableBody` | create_fanc_docx.py:79-81 | in table mode, every pipe line joins the buffer, stripped and in order, and nothing is added to the document |
| `Converter.TableLinesBuffered` | create_fanc_docx.py:69-81 | a file of table lines only leaves all of them, stripped and in order, in the open buffer, and the document stays empty |
| `Converter.TableAtEndIsFlushed` | create_fanc_docx.py:120-122 | a table still open at the end of the file is emitted, with no buffered line lost |
| `Converter.TableThenLine` | create_fanc_docx.py:82-118 | a line without a pipe closes the table: the buffered lines become one table (or none if all are dividers), then the line is classified as if no table had been open |
| `Converter.ClassifyAtMostOne` | create_fanc_docx.py:89-118 | the prefix cascade adds at most one block, and none exactly for the empty line or a `>` line with nothing else |
| `Converter.PlainLines` | create_fanc_docx.py:56-118 | for a file with no pipes and no diagram fences, the pass carries no state between lines and each stripped line gives its own blocks, in order |
| `Converter.PlainDocument` | create_fanc_docx.py:40-122 | the document of such a file is the blocks of its lines, in order |
| `Dimensions.DigitPrefix` | analyze_fanc_data.py:169 | the digits at the front of a string stop at its first non-digit |
| `Dimensions.DigitRuns` | analyze_fanc_data.py:169 | every run `\d+` finds is non-empty and made of digits |
| `Dimensions.DigitsAppend` | analyze_fanc_data.py:169 | the digits of a concatenation are the digits of its parts, in order |
| `Dimensions.AllDigitsAreKept` | analyze_fanc_data.py:169 | a string of digits is its own digits |
| `Dimensions.DigitRunsCoverDigits` | analyze_fanc_data.py:169 | no digit is lost or reordered: the runs put together are the digits of the string |
| `Dimensions.DigitPrefixAppend` | analyze_fanc_data.py:169 | the first run of a concatenation stops where the first part's run stops, unless that run fills the first part |
| `Dimensions.DigitRunsSeparate` | analyze_fanc_data.py:169 | a non-digit separates: the runs on its two sides are found independently |
| `Dimensions.OneRun` | analyze_fanc_data.py:169 | a non-empty string of digits is a single run |
| `Dimensions.Decimal` | analyze_fanc_data.py:171 | a decimal numeral is non-empty and made of digits |
| `Dimensions.Value` | analyze_fanc_data.py:171 | `int` of a digit string is zero exactly when every digit is `0` |
| `Dimensions.ValueOfDecimal` | analyze_fanc_data.py:171 | `int` of the numeral of n is n |
| `Dimensions.ParseDimensions` | analyze_fanc_data.py:166-172 | a result exactly when there are at least three digit runs; it is then the values of the first three, in order |
| `Dimensions.NumeralThen` | analyze_fanc_data.py:169 | a numeral followed by a non-digit, or by nothing, is a run of its own |
| `Dimensions.NumeralSep` | analyze_fanc_data.py:169 | a numeral followed by a separator is the first run, whatever follows the separator |
| `Dimensions.RunsOfWritten` | analyze_fanc_data.py:169 | three numerals with non-digit separators are the first three runs |
| `Dimensions.ParseWrittenDimensions` | analyze_fanc_data.py:166-172 | round trip: three numbers written with any non-digit separators, and a tail that does not extend the last numeral, parse back as themselves |
| `Dimensions.Sort3` | analyze_fanc_data.py:206-207 | `sorted` of three sides gives three sides in ascending order |
| `Dimensions.SortTurns` | analyze_fanc_data.py:206-207 | sorting only reorders the sides |
| `Dimensions.SortUnique` | analyze_fanc_data.py:206-207 | the one ascending order of the sides is the sorted one |
| `Dimensions.SortIgnoresTurn` | analyze_fanc_data.py:206-207 | listing a box's sides in another order does not change its sorted form |
| `Dimensions.Slacks` | analyze_fanc_data.py:209 | there are three slacks |
| `Dimensions.SortMonotone` | analyze_fanc_data.py:205-212 | boxes that lie side by side within one another still do once both are sorted |
| `Dimensions.FitsIffSomeOrientation` | analyze_fanc_data.py:205-212 | the sorted comparison finds a fit exactly when some turn of the product lies side by side within the box as given |
| `Dimensions.OrientationInto` | analyze_fanc_data.py:205-212 | when the sorted comparison fits, a turn of the product that lies within the box is constructed |
| `Dimensions.Min3` | analyze_fanc_data.py:219 | `min` of the slacks is one of them and no larger than any |
| `Dimensions.Max3` | analyze_fanc_data.py:219 | `max` of the slacks is one of them and no smaller than any |
| `Dimensions.VerdictOf` | analyze_fanc_data.py:219 | the verdict is Optimal exactly when every slack is between 5 and 15 |
| `Dimensions.Evaluate` | analyze_fanc_data.py:200-221 | a package is kept exactly when its size parses and the product fits inside it |
| `Dimensions.EvaluateMeaning` | analyze_fanc_data.py:200-221 | a kept package has its own name and size, three non-negative slacks, their sum as score, and the verdict of the rule |
| `Dimensions.SlacksIgnoreOrder` | analyze_fanc_data.py:206-212 | slacks and fit do not depend on the order in which either box's sides are written |
| `Dimensions.EvaluateIgnoresProductOrder` | analyze_fanc_data.py:206-221 | whatever order the product's sides are listed in, every package gets the same outcome |
| `Dimensions.Outcomes` | analyze_fanc_data.py:199 | one outcome per package |
| `Dimensions.Somes` | analyze_fanc_data.py:221 | collecting the matches keeps at most one per outcome |
| `Dimensions.SomesMembers` | analyze_fanc_data.py:201-221 | a match is collected exactly when it is among the outcomes |
| `Dimensions.KeptMembers` | analyze_fanc_data.py:199-221 | a match is collected exactly when some package has it as its outcome |
| `Dimensions.KeptSnoc` | analyze_fanc_data.py:221 | one more package appends its match, if any, at the end |
| `Dimensions.Insert` | analyze_fanc_data.py:224 | inserting one match makes the list one longer |
| `Dimensions.SortByGap` | analyze_fanc_data.py:224 | the sort by `Total_Gap` keeps the number of matches |
| `Dimensions.InsertPermutes` | analyze_fanc_data.py:224 | inserting adds exactly the one match |
| `Dimensions.InsertSorted` | analyze_fanc_data.py:224 | inserting into an ascending list keeps it ascending |
| `Dimensions.WithGapAppend` | analyze_fanc_data.py:224 | selecting by score distributes over concatenation |
| `Dimensions.NoneBelowFirst` | analyze_fanc_data.py:224 | an ascending list has no match scored below its first |
| `Dimensions.InsertStable` | analyze_fanc_data.py:224 | an inserted match comes after all matches of the same score |
| `Dimensions.SortByGapSorted` | analyze_fanc_data.py:224 | the sort by `Total_Gap` ends in ascending order |
| `Dimensions.SortByGapPermutes` | analyze_fanc_data.py:224 | the sort keeps every match (same multiset) |
| `Dimensions.SortByGapStable` | analyze_fanc_data.py:224 | the sort is stable: matches of equal score keep their order |
| `Dimensions.SortByGapCorrect` | analyze_fanc_data.py:224 | the sort is ascending, a permutation, and stable |
| `Dimensions.Matching` | analyze_fanc_data.py:174-224 | nothing exactly when the product size cannot be read, otherwise at most one match per package |
| `Dimensions.PackageMatching` | analyze_fanc_data.py:174-224 | nothing when the product size is unreadable; otherwise the loop collects the packages that fit, in order, and sorts them by score |
| `Dimensions.MatchInfo` | analyze_fanc_data.py:200-221 | the loop body for one package computes exactly its outcome |
| `Dimensions.MatchingCorrect` | analyze_fanc_data.py:174-224 | nothing exactly when the product size has fewer than three numbers; otherwise the result is ascending by score, holds exactly the fitting packages' matches, and keeps package order among equal scores |
| `Dimensions.ScenarioFit` | analyze_fanc_data.py:205-219 | a 41x137x51 product in a 50x140x60 box fits with slacks 9, 9 and 3, verdict Check |
| `Dimensions.ScenarioRuns` | analyze_fanc_data.py:169 | the size text `41x137x51` has the runs `41`, `137`, `51` |
| `Dimensions.ScenarioParse` | analyze_fanc_data.py:166-172 | `41x137x51` parses as [41, 137, 51] |
| `Quotation.FromRow` | analyze_fanc_data.py:76-79 | a data row fills the name, size, price and specification; the size has no `×` left, and weight and material stay N/A |
| `Quotation.IsHeader` | analyze_fanc_data.py:69 | a header row has at least eight cells, the product-name label somewhere in the fourth and the supply-price label somewhere in the eighth |
| `Quotation.ExtractProductSpecs` | analyze_fanc_data.py:50-85 | the loop skips header rows and reads the first row after a header, or leaves the defaults |
| `Quotation.Scan` | analyze_fanc_data.py:52-82 | weight and material are never read from the sheet, and the size never keeps a `×` |
| `Quotation.SkipBeforeHeader` | analyze_fanc_data.py:67-73 | rows before any header are passed over |
| `Quotation.SkipHeaders` | analyze_fanc_data.py:69-71 | header rows are passed over, and afterwards a header has been seen |
| `Quotation.NoDataRowGivesDefaults` | analyze_fanc_data.py:52-85 | with no data row after a header, every field keeps its default N/A |
| `Quotation.FirstRowAfterHeader` | analyze_fanc_data.py:66-82 | the first row after a run of header rows fills the fields, and no later row is read |

## Left out

- File and sheet I/O is not modelled: `open`/`readlines`, `doc.save`, `load_workbook`, `load_data` and the pandas frames. The converter takes the file's lines as a list of strings and returns the document's blocks. The quotation sheet is a list of rows of cell texts ("" for an empty cell). The parts table is a list of (name, size text) packages.
- Styles and fonts are not modelled (the Normal font, 'Quote', 'List Bullet', 'Table Grid'). The block kind stands for the style.
- `add_hyperlink` is left out: nothing in the core calls it.
- `analyze_sales_and_market` and `main` are left out, as are every `print` and the top-5 listing. They are reporting only.
- The column discovery of `package_matching` and its `'Package'` type filter run over pandas columns, so they are left out. The model starts from the packages that pass the filter.
- `package_matching` returns nothing and prints its matches. In the model, `PackageMatching` returns the sorted match list it would print.
- `list.sort` on `matches` is modelled as a pure function, `SortByGap`: a stable insertion sort. Python sorts in place; the model proves the same promised outcome (ascending, a permutation, stable).
- `\d` in `re.findall` here matches only the ASCII digits 0-9. Python also matches other Unicode decimal digits.
- `Dimensions.ParseDimensions`: the `isinstance(dim_str, str)` guard is not modelled, because the argument is always text in the model.
- `Quotation.ExtractProductSpecs` requires `ScanSafe`. It excludes exactly the inputs on which the source raises IndexError: a row that passes the `제품명` test but is shorter than eight cells, or a data row shorter than nine cells. The exception itself is not modelled.
- `Inline.ProcessBold` uses the corrected bold test: a piece is bold exactly when it is a match of `\*\*.*?\*\*`. The code at create_fanc_docx.py:34 tests `startswith('**') and endswith('**')` instead. On text without line feeds, as every line read from the file is, the two differ exactly on a plain piece `**` or `***` (`Inline.PlainPiecesUnmarked`, `Inline.AsWrittenAgrees`). The code turns such a piece into an empty bold run; the model keeps it as plain text. Text with line feeds is not compared. `Inline.AsWrittenBoldRuns` models the code's test.
- `Tables.FillRow` gives each cell the corrected runs, so it differs from the code on a cell text with a plain piece `**` or `***`. The same holds for `Tables.FillGrid`, `Tables.ProcessTable` and `Tables.GridCells`, which are built on it.
- `Converter.Classify` gives bullets, quotes and paragraphs the corrected runs, so it differs from the code on a line with a plain piece `**` or `***`.
- `Converter.Step` differs in the same way, through `Converter.Classify`, the one-pipe paragraph and the flushed table; so do `Converter.StepRules` and `Converter.Feed`, which are built on it.
- `Converter.CreateDocx` builds the document with the corrected runs, so it differs from the code on a file with a line or cell holding a plain piece `**` or `***`.
- A `` ```mermaid `` fence seen while a table is buffered does not flush the table: the table is emitted after the diagram's quotes. The model keeps this behaviour (`Converter.DiagramBlock`).

## Findings

| source | as written | input that shows it | evidently intended | confidence | as-written member | corrected member |
|---|---|---|---|---|---|---|
| create_fanc_docx.py:34-36 | a piece counts as bold when its text starts and ends with `**` | the line `**` (also `***`): `re.split` returns it as plain text, the test makes it an empty bold run, and the asterisks vanish from the document | a piece is bold exactly when it is a match of `\*\*.*?\*\*`, so unmatched asterisks stay as text | high, not executed | `Inline.LoneMarkerIsSwallowed` | `Inline.BoldRunsRoundTrip` |
