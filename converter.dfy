/**
  `create_docx`: one forward pass over the lines of a Markdown file that
  builds the document block by block, carrying the table buffer and the
  diagram flag from line to line.
 */
module Converter {
  import opened Text
  import opened Inline
  import opened Docs
  import opened Tables

  /** What the pass carries between lines: `table_mode`, `table_lines`,
      `mermaid_mode`, and the blocks of the document so far. */
  datatype State = State(tableMode: bool, tableLines: seq<string>, mermaidMode: bool, doc: seq<Block>)

  /** The state before the first line. */
  const Start := State(false, [], false, [])

  /** The fence test: a line opening a diagram, or any fence inside one. */
  predicate TogglesDiagram(mermaidMode: bool, line: string) {
    StartsWith(line, "```mermaid") || (mermaidMode && StartsWith(line, "```"))
  }

  /** The blocks the prefix cascade adds for a stripped line that is not
      part of a table or a diagram: at most one block, never a table, and a
      heading only of level 1 to 4. */
  function Classify(line: string): (r: seq<Block>)
    ensures |r| <= 1
    ensures forall b :: b in r ==> !b.Table? && (b.Heading? ==> 1 <= b.level <= 4)
  {
    if StartsWith(line, "# ") then [Heading(1, PlainText(line[2..]))]
    else if StartsWith(line, "## ") then [Heading(2, PlainText(line[3..]))]
    else if StartsWith(line, "### ") then [Heading(3, PlainText(line[4..]))]
    else if StartsWith(line, "#### ") then [Heading(4, PlainText(line[5..]))]
    else if StartsWith(line, "- ") then [Bullet(BoldRuns(line[2..]))]
    else if StartsWith(line, ">") then
      var content := Strip(RemoveChar(line, '>'));
      if content != "" then [Quote(BoldRuns(content))] else []
    else if StartsWith(line, "---") then [PageBreak]
    else if line != "" then [Paragraph(BoldRuns(line))]
    else []
  }

  /** The end of a table: the buffer goes through `process_table` and is
      cleared. */
  function Flush(s: State): State {
    State(false, [], s.mermaidMode, s.doc + TableBlocks(s.tableLines))
  }

  /** One iteration of the loop over the lines. It keeps every block the
      document has, adds at most two (a flushed table and the line's own),
      and flips the diagram flag exactly at a fence. */
  function Step(s: State, raw: string): (r: State)
    ensures s.doc <= r.doc && |r.doc| <= |s.doc| + 2
    ensures r.mermaidMode != s.mermaidMode <==> TogglesDiagram(s.mermaidMode, Strip(raw))
  {
    var line := Strip(raw);
    if TogglesDiagram(s.mermaidMode, line) then s.(mermaidMode := !s.mermaidMode)
    else if s.mermaidMode then s.(doc := s.doc + [Quote(PlainText(line))])
    else if '|' in line then
      if !s.tableMode then
        if Count(line, '|') >= 2 then s.(tableMode := true, tableLines := [line])
        else s.(doc := s.doc + [Paragraph(BoldRuns(line))])
      else s.(tableLines := s.tableLines + [line])
    else
      var t := if s.tableMode then Flush(s) else s;
      t.(doc := t.doc + Classify(line))
  }

  /** The state after the loop has gone over `lines`. */
  function Feed(s: State, lines: seq<string>): (r: State)
    ensures s.doc <= r.doc
  {
    if lines == [] then s else Step(Feed(s, lines[..|lines| - 1]), lines[|lines| - 1])
  }

  /** After the loop: a table still open is flushed. */
  function Finish(s: State): seq<Block> {
    if s.tableMode then s.doc + TableBlocks(s.tableLines) else s.doc
  }

  /** The document `create_docx` saves for the given lines. */
  function Convert(lines: seq<string>): seq<Block> {
    Finish(Feed(Start, lines))
  }

  /** `create_docx` from `f.readlines()` up to `doc.save`, which here hands
      back the blocks of the document. */
  method CreateDocx(lines: seq<string>) returns (blocks: seq<Block>)
    ensures blocks == Convert(lines)
  {
    var doc := new Document();
    var tableMode := false;
    var tableLines: seq<string> := [];
    var mermaidMode := false;

    for i := 0 to |lines|
      invariant State(tableMode, tableLines, mermaidMode, doc.blocks) == Feed(Start, lines[..i])
    {
      assert lines[..i + 1][..i] == lines[..i];
      var line := Strip(lines[i]);

      if StartsWith(line, "```mermaid") || (mermaidMode && StartsWith(line, "```")) {
        mermaidMode := !mermaidMode;
        continue;
      }
      if mermaidMode {
        doc.Add(Quote(PlainText(line)));
        continue;
      }

      if '|' in line {
        if !tableMode {
          if Count(line, '|') >= 2 {
            tableMode := true;
            tableLines := [line];
          } else {
            var runs := ProcessBold(line);
            doc.Add(Paragraph(runs));
          }
        } else {
          tableLines := tableLines + [line];
        }
        continue;
      } else {
        if tableMode {
          ProcessTable(doc, tableLines);
          tableMode := false;
          tableLines := [];
        }
      }

      if StartsWith(line, "# ") {
        doc.Add(Heading(1, PlainText(line[2..])));
      } else if StartsWith(line, "## ") {
        doc.Add(Heading(2, PlainText(line[3..])));
      } else if StartsWith(line, "### ") {
        doc.Add(Heading(3, PlainText(line[4..])));
      } else if StartsWith(line, "#### ") {
        doc.Add(Heading(4, PlainText(line[5..])));
      } else if StartsWith(line, "- ") {
        var runs := ProcessBold(line[2..]);
        doc.Add(Bullet(runs));
      } else if StartsWith(line, ">") {
        var content := Strip(RemoveChar(line, '>'));
        if content != "" {
          var runs := ProcessBold(content);
          doc.Add(Quote(runs));
        }
      } else if StartsWith(line, "---") {
        doc.Add(PageBreak);
      } else if line != "" {
        var runs := ProcessBold(line);
        doc.Add(Paragraph(runs));
      }
    }
    assert lines[..|lines|] == lines;

    if tableMode {
      ProcessTable(doc, tableLines);
    }
    blocks := doc.blocks;
  }

  // ---------------------------------------------------------------------
  // Properties of the pass

  /** Every line as `line.strip()` leaves it. */
  function Stripped(lines: seq<string>): seq<string> {
    seq(|lines|, k requires 0 <= k < |lines| => Strip(lines[k]))
  }

  /** The quotes a run of diagram lines becomes, one per line. */
  function DiagramQuotes(body: seq<string>): seq<Block> {
    seq(|body|, k requires 0 <= k < |body| => Quote(PlainText(Strip(body[k]))))
  }

  /** What one line does, rule by rule, in the order of the cascade. */
  lemma StepRules(s: State, raw: string)
    ensures var line := Strip(raw);
            var t := Step(s, raw);
            && (TogglesDiagram(s.mermaidMode, line) ==> t == s.(mermaidMode := !s.mermaidMode))
            && (s.mermaidMode && !StartsWith(line, "```") ==> t == s.(doc := s.doc + [Quote(PlainText(line))]))
            && (!s.mermaidMode && !StartsWith(line, "```mermaid") ==>
                  && (!s.tableMode && Count(line, '|') == 1 ==> t == s.(doc := s.doc + [Paragraph(BoldRuns(line))]))
                  && (!s.tableMode && Count(line, '|') >= 2 ==> t == s.(tableMode := true, tableLines := [line]))
                  && (s.tableMode && '|' in line ==> t == s.(tableLines := s.tableLines + [line]))
                  && (s.tableMode && '|' !in line ==> t == Flush(s).(doc := Flush(s).doc + Classify(line)))
                  && (!s.tableMode && '|' !in line ==> t == s.(doc := s.doc + Classify(line))))
  {
    CountPositive(Strip(raw), '|');
  }

  /** Feeding two pieces of input is feeding one after the other. */
  lemma {:induction false} FeedAppend(s: State, a: seq<string>, b: seq<string>)
    ensures Feed(s, a + b) == Feed(Feed(s, a), b)
    decreases |b|
  {
    if b == [] {
      assert a + b == a;
    } else {
      var front := b[..|b| - 1];
      assert (a + b)[..|a + b| - 1] == a + front;
      assert (a + b)[|a + b| - 1] == b[|b| - 1];
      FeedAppend(s, a, front);
    }
  }

  /** The table buffer is open exactly when it holds lines; its first line
      has two pipes or more and every line in it has one. */
  ghost predicate BufferInvariant(s: State) {
    && (s.tableMode <==> s.tableLines != [])
    && (s.tableLines != [] ==> Count(s.tableLines[0], '|') >= 2)
    && (forall k :: 0 <= k < |s.tableLines| ==> '|' in s.tableLines[k])
  }

  /** The buffer keeps its invariant from the start of the pass to its end. */
  lemma {:induction false} FeedKeepsBufferInvariant(lines: seq<string>)
    ensures BufferInvariant(Feed(Start, lines))
    decreases |lines|
  {
    if lines != [] {
      var front := lines[..|lines| - 1];
      FeedKeepsBufferInvariant(front);
      var s := Feed(Start, front);
      var line := Strip(lines[|lines| - 1]);
      CountPositive(line, '|');
    }
  }

  /** Inside a diagram, lines that are no fence become quotes, one per line,
      verbatim, and nothing else changes. */
  lemma {:induction false} DiagramBody(s: State, body: seq<string>)
    requires s.mermaidMode
    requires forall k :: 0 <= k < |body| ==> !StartsWith(Strip(body[k]), "```")
    ensures Feed(s, body) == s.(doc := s.doc + DiagramQuotes(body))
    decreases |body|
  {
    if body == [] {
      assert s.doc + DiagramQuotes(body) == s.doc;
    } else {
      var front := body[..|body| - 1];
      DiagramBody(s, front);
      assert DiagramQuotes(body) == DiagramQuotes(front) + [Quote(PlainText(Strip(body[|body| - 1])))];
    }
  }

  /** A fenced diagram adds one verbatim quote per inner line; the fences
      add nothing, and a table being buffered stays buffered (so it is
      emitted after the diagram). */
  lemma DiagramBlock(s: State, open: string, body: seq<string>, close: string)
    requires !s.mermaidMode
    requires StartsWith(Strip(open), "```mermaid")
    requires forall k :: 0 <= k < |body| ==> !StartsWith(Strip(body[k]), "```")
    requires StartsWith(Strip(close), "```")
    ensures Feed(s, [open] + body + [close]) == s.(doc := s.doc + DiagramQuotes(body))
  {
    var inDiagram := s.(mermaidMode := true);
    assert Feed(s, [open]) == inDiagram by {
      assert [open][..0] == [];
    }
    FeedAppend(s, [open], body);
    DiagramBody(inDiagram, body);
    FeedAppend(s, [open] + body, [close]);
    assert [close][..0] == [];
  }

  /** In table mode, every line with a pipe joins the buffer, stripped and
      in order, and nothing is added to the document. */
  lemma {:induction false} TableBody(s: State, rows: seq<string>)
    requires s.tableMode && !s.mermaidMode
    requires forall k :: 0 <= k < |rows| ==> '|' in Strip(rows[k]) && !StartsWith(Strip(rows[k]), "```mermaid")
    ensures Feed(s, rows) == s.(tableLines := s.tableLines + Stripped(rows))
    decreases |rows|
  {
    if rows == [] {
      assert s.tableLines + Stripped(rows) == s.tableLines;
    } else {
      var front := rows[..|rows| - 1];
      TableBody(s, front);
      assert Stripped(rows) == Stripped(front) + [Strip(rows[|rows| - 1])];
    }
  }

  /** Feeding one line is one step. */
  lemma FeedOne(s: State, raw: string)
    ensures Feed(s, [raw]) == Step(s, raw)
  {
    assert [raw][..0] == [];
  }

  /** Input made of table lines only leaves all of them, stripped and in
      order, in the open buffer, and adds nothing to the document. */
  lemma TableLinesBuffered(head: string, rest: seq<string>)
    requires Count(Strip(head), '|') >= 2 && !StartsWith(Strip(head), "```mermaid")
    requires forall k :: 0 <= k < |rest| ==> '|' in Strip(rest[k]) && !StartsWith(Strip(rest[k]), "```mermaid")
    ensures Feed(Start, [head] + rest) == State(true, [Strip(head)] + Stripped(rest), false, [])
  {
    var inTable := State(true, [Strip(head)], false, []);
    FeedOne(Start, head);
    StepRules(Start, head);
    FeedAppend(Start, [head], rest);
    TableBody(inTable, rest);
  }

  /** Input made of table lines only becomes exactly the table of all of
      them: the table still open at the end is flushed, and no buffered
      line is lost. */
  lemma TableAtEndIsFlushed(head: string, rest: seq<string>)
    requires Count(Strip(head), '|') >= 2 && !StartsWith(Strip(head), "```mermaid")
    requires forall k :: 0 <= k < |rest| ==> '|' in Strip(rest[k]) && !StartsWith(Strip(rest[k]), "```mermaid")
    ensures Convert([head] + rest) == TableBlocks([Strip(head)] + Stripped(rest))
  {
    TableLinesBuffered(head, rest);
  }

  /** A table closed by a line without a pipe: the buffered lines become
      one table (or none, if all are dividers), and then the closing line
      is classified as if no table had been open. */
  lemma TableThenLine(head: string, rest: seq<string>, after: string)
    requires Count(Strip(head), '|') >= 2 && !StartsWith(Strip(head), "```mermaid")
    requires forall k :: 0 <= k < |rest| ==> '|' in Strip(rest[k]) && !StartsWith(Strip(rest[k]), "```mermaid")
    requires '|' !in Strip(after) && !StartsWith(Strip(after), "```mermaid")
    ensures Feed(Start, [head] + rest + [after])
            == State(false, [], false, TableBlocks([Strip(head)] + Stripped(rest)) + Classify(Strip(after)))
  {
    TableLinesBuffered(head, rest);
    var full := State(true, [Strip(head)] + Stripped(rest), false, []);
    FeedAppend(Start, [head] + rest, [after]);
    FeedOne(full, after);
    StepRules(full, after);
    assert Flush(full).doc == TableBlocks(full.tableLines);
  }

  /** A line outside tables and diagrams adds at most one block, and adds
      none exactly when it is empty or a quote marker with nothing else. */
  lemma ClassifyAtMostOne(line: string)
    ensures |Classify(line)| <= 1
    ensures Classify(line) == [] <==>
              line == "" || (StartsWith(line, ">") && Strip(RemoveChar(line, '>')) == "")
  {
  }

  /** The blocks of lines stripped and classified one after the other. */
  function ClassifyAll(lines: seq<string>): seq<Block> {
    if lines == [] then [] else ClassifyAll(lines[..|lines| - 1]) + Classify(Strip(lines[|lines| - 1]))
  }

  /** Outside tables and diagrams, a line without a pipe or a fence is
      classified and nothing else changes. */
  lemma StepPlain(s: State, raw: string)
    requires !s.tableMode && !s.mermaidMode
    requires '|' !in Strip(raw) && !StartsWith(Strip(raw), "```mermaid")
    ensures Step(s, raw) == s.(doc := s.doc + Classify(Strip(raw)))
  {
  }

  /** A file without pipes and without diagram fences is converted line by
      line: each stripped line gives its own blocks, in order, and no state
      is carried between lines. */
  lemma {:induction false} PlainLines(lines: seq<string>)
    requires forall k :: 0 <= k < |lines| ==> '|' !in Strip(lines[k]) && !StartsWith(Strip(lines[k]), "```mermaid")
    ensures Feed(Start, lines) == State(false, [], false, ClassifyAll(lines))
    decreases |lines|
  {
    if lines != [] {
      var front := lines[..|lines| - 1];
      PlainLines(front);
      StepPlain(Feed(Start, front), lines[|lines| - 1]);
    }
  }

  /** The document of such a file is the blocks of its lines, in order. */
  lemma PlainDocument(lines: seq<string>)
    requires forall k :: 0 <= k < |lines| ==> '|' !in Strip(lines[k]) && !StartsWith(Strip(lines[k]), "```mermaid")
    ensures Convert(lines) == ClassifyAll(lines)
  {
    PlainLines(lines);
  }
}
