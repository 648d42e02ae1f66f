/**
  `process_table`: a buffered run of pipe lines becomes one table whose
  width is that of its first data row.
 */
module Tables {
  import opened Text
  import opened Inline
  import opened Docs

  /** The characters a divider row such as `|:---|---:|` is made of once its
      pipes are gone. */
  const DividerChars: set<char> := {'-', ':', ' '}

  /** `set(l.replace('|', '').strip()) <= set('-: ')`: after removing every
      pipe and stripping, only dashes, colons and spaces are left (an empty
      remainder counts as a divider too). */
  predicate IsDivider(line: string) {
    var body := Strip(RemoveChar(line, '|'));
    forall k :: 0 <= k < |body| ==> body[k] in DividerChars
  }

  /** What the divider test lets through: a line made of dashes, colons,
      spaces and pipes is a divider, and a divider holds nothing but those
      and whitespace. */
  lemma DividerLine(line: string)
    ensures (forall k :: 0 <= k < |line| ==> line[k] in DividerChars + {'|'}) ==> IsDivider(line)
    ensures IsDivider(line) ==> forall k :: 0 <= k < |line| ==> line[k] in DividerChars + {'|'} + Whitespace
  {
    RemoveCharChars(line, '|');
    StripChars(RemoveChar(line, '|'));
  }

  /** `data_lines`: the buffered lines that are not divider rows. */
  function DataLines(lines: seq<string>): (r: seq<string>)
    ensures |r| <= |lines|
  {
    if lines == [] then []
    else (if IsDivider(lines[0]) then [] else [lines[0]]) + DataLines(lines[1..])
  }

  /** `[c.strip() for c in line.strip('|').split('|')]` */
  function Cells(line: string): (r: seq<string>)
    ensures |r| >= 1
  {
    var pieces := SplitOn(Trim(line, {'|'}), '|');
    seq(|pieces|, k requires 0 <= k < |pieces| => Strip(pieces[k]))
  }

  /** `[''] * n`, which is empty for n <= 0. */
  function Blanks(n: int): (r: seq<string>)
    ensures |r| == if n <= 0 then 0 else n
    ensures forall k :: 0 <= k < |r| ==> r[k] == ""
  {
    if n <= 0 then [] else seq(n, _ => "")
  }

  /** The row adjustment: `cells[:cols] + [''] * (cols - len(cells))` when
      the lengths differ. The row is exactly `cols` wide, keeping the cells
      that fit and filling the rest with empty ones. */
  function FitRow(cells: seq<string>, cols: nat): (r: seq<string>)
    ensures |r| == cols
    ensures forall j :: 0 <= j < cols ==> r[j] == if j < |cells| then cells[j] else ""
  {
    if |cells| != cols then
      cells[..if cols < |cells| then cols else |cells|] + Blanks(cols - |cells|)
    else cells
  }

  /** The text that ends up in cell j of a row built from `line`. */
  function CellText(line: string, j: nat): string {
    var cells := Cells(line);
    if j < |cells| then cells[j] else ""
  }

  /** The cells of row i: `cols` of them, each the bold runs of one fitted
      cell text. */
  function RowOf(line: string, cols: nat): seq<Cell> {
    var cells := FitRow(Cells(line), cols);
    seq(cols, j requires 0 <= j < cols => BoldRuns(cells[j]))
  }

  /** The cells of the table built from the data lines, row by row. */
  function Grid(dataLines: seq<string>, cols: nat): seq<seq<Cell>> {
    seq(|dataLines|, i requires 0 <= i < |dataLines| => RowOf(dataLines[i], cols))
  }

  /** The blocks a flush of the buffer adds: no table when every buffered
      line is a divider, otherwise one table as wide as its first data row. */
  function TableBlocks(lines: seq<string>): (r: seq<Block>)
    ensures |r| <= 1
    ensures forall b :: b in r ==> b.Table? && |b.rows| <= |lines|
  {
    var data := DataLines(lines);
    if data == [] then [] else [Table(Grid(data, |Cells(data[0])|))]
  }

  /** The inner loop: the cells of one row, each given its bold runs. */
  method FillRow(line: string, cols: nat) returns (row: seq<Cell>)
    ensures row == RowOf(line, cols)
  {
    var cells := FitRow(Cells(line), cols);
    row := [];
    for j := 0 to cols
      invariant |row| == j
      invariant forall c :: 0 <= c < j ==> row[c] == BoldRuns(cells[c])
    {
      var runs := ProcessBold(cells[j]);
      ghost var before := row;
      row := row + [runs];
      forall c | 0 <= c <= j ensures row[c] == BoldRuns(cells[c]) {
        if c < j {
          assert row[c] == before[c];
        }
      }
    }
  }

  /** The outer loop: one row per data line. */
  method FillGrid(dataLines: seq<string>, cols: nat) returns (grid: seq<seq<Cell>>)
    ensures grid == Grid(dataLines, cols)
  {
    grid := [];
    for i := 0 to |dataLines|
      invariant |grid| == i
      invariant forall r :: 0 <= r < i ==> grid[r] == RowOf(dataLines[r], cols)
    {
      var row := FillRow(dataLines[i], cols);
      ghost var before := grid;
      grid := grid + [row];
      forall r | 0 <= r <= i ensures grid[r] == RowOf(dataLines[r], cols) {
        if r < i {
          assert grid[r] == before[r];
        }
      }
    }
  }

  /** `process_table(doc, lines)` */
  method ProcessTable(doc: Document, lines: seq<string>)
    modifies doc
    ensures doc.blocks == old(doc.blocks) + TableBlocks(lines)
  {
    var dataLines := DataLines(lines);
    if dataLines == [] {
      return;
    }
    var cols := |Cells(dataLines[0])|;
    var grid := FillGrid(dataLines, cols);
    doc.Add(Table(grid));
  }

  /** Filtering goes line by line, so it keeps the data lines in input order. */
  lemma {:induction false} DataLinesAppend(a: seq<string>, b: seq<string>)
    ensures DataLines(a + b) == DataLines(a) + DataLines(b)
  {
    if a == [] {
      assert a + b == b;
    } else {
      var head := if IsDivider(a[0]) then [] else [a[0]];
      assert (a + b)[0] == a[0];
      assert (a + b)[1..] == a[1..] + b;
      DataLinesAppend(a[1..], b);
      calc {
        DataLines(a + b);
        head + DataLines(a[1..] + b);
        head + (DataLines(a[1..]) + DataLines(b));
        (head + DataLines(a[1..])) + DataLines(b);
      }
    }
  }

  /** The filter discards exactly the divider rows. */
  lemma {:induction false} DataLinesMembers(lines: seq<string>, l: string)
    ensures l in DataLines(lines) <==> l in lines && !IsDivider(l)
  {
    if lines != [] {
      DataLinesMembers(lines[1..], l);
      assert lines == [lines[0]] + lines[1..];
    }
  }

  /** The table has one row per data line, in order, every row `cols` cells
      wide, and cell j of row i holds the bold runs of the j-th cell of data
      line i, or of "" past the end of a short line. */
  lemma GridCells(dataLines: seq<string>, cols: nat)
    ensures |Grid(dataLines, cols)| == |dataLines|
    ensures forall i :: 0 <= i < |dataLines| ==> |Grid(dataLines, cols)[i]| == cols
    ensures forall i, j :: 0 <= i < |dataLines| && 0 <= j < cols ==>
              Grid(dataLines, cols)[i][j] == BoldRuns(CellText(dataLines[i], j))
  {
  }

  /** A buffer of divider rows only gives no table, and such a buffer is the
      only kind that gives none. */
  lemma NoTableIffAllDividers(lines: seq<string>)
    ensures TableBlocks(lines) == [] <==> forall k :: 0 <= k < |lines| ==> IsDivider(lines[k])
  {
    var data := DataLines(lines);
    if data == [] {
      forall k | 0 <= k < |lines| ensures IsDivider(lines[k]) {
        DataLinesMembers(lines, lines[k]);
      }
    } else {
      DataLinesMembers(lines, data[0]);
    }
  }

  /** Every row of an emitted table is exactly as wide as the first data
      row, whatever the widths of the other rows. */
  lemma TableRowsEqualWidth(lines: seq<string>)
    requires TableBlocks(lines) != []
    ensures var t := TableBlocks(lines)[0];
            var data := DataLines(lines);
            t.Table? && |t.rows| == |data|
            && forall i :: 0 <= i < |t.rows| ==> |t.rows[i]| == |Cells(data[0])|
  {
  }

  /** No cell of a row contains a pipe: every pipe inside the line is a
      cell boundary. */
  lemma CellsArePipeFree(line: string)
    ensures forall j :: 0 <= j < |Cells(line)| ==> '|' !in Cells(line)[j]
  {
    var pieces := SplitOn(Trim(line, {'|'}), '|');
    forall j | 0 <= j < |pieces| ensures '|' !in Strip(pieces[j]) {
      TrimFacts(pieces[j], Whitespace);
    }
  }
}
