/**
  The output document: python-docx's `Document` seen as the sequence of
  blocks it has been given, in the order they were added.
 */
module Docs {
  import opened Inline

  /** One cell of a table: the runs of its first paragraph. */
  type Cell = seq<Run>

  /** One top-level element of the document. */
  datatype Block =
    | Heading(level: nat, runs: seq<Run>)
    | Paragraph(runs: seq<Run>)
    | Bullet(runs: seq<Run>)
    | Quote(runs: seq<Run>)
    | PageBreak
    | Table(rows: seq<seq<Cell>>)

  /** The runs python-docx's `add_paragraph(text)` and `add_heading(text)`
      give the new paragraph: one plain run, or none for the empty text. */
  function PlainText(text: string): (r: seq<Run>)
    ensures |r| == if text == "" then 0 else 1
    ensures RunsText(r) == text
    ensures forall k :: 0 <= k < |r| ==> !r[k].bold
  {
    if text == "" then [] else [Run(text, false)]
  }

  /** The document being built; blocks are only ever appended. */
  class Document {
    var blocks: seq<Block>

    constructor ()
      ensures blocks == []
    {
      blocks := [];
    }

    method Add(b: Block)
      modifies this
      ensures blocks == old(blocks) + [b]
    {
      blocks := blocks + [b];
    }
  }
}
