/**
 * The part of a python-docx `Document` the report engine writes to: a list
 * of body blocks, each a heading, a paragraph made of runs, or a table whose
 * first row holds the column headers. Fonts, alignment, bold flags, colours
 * and margins are not part of this model.
 */
module Documents {

  datatype Block =
    | Heading(text: string, level: nat)
    | Paragraph(runs: seq<string>)
    | Table(header: seq<string>, rows: seq<seq<string>>)

  class Document {
    var blocks: seq<Block>

    /** `Document()`: an empty body. */
    constructor()
      ensures blocks == []
    {
      blocks := [];
    }

    /** `doc.add_heading(text, level)` */
    method AddHeading(text: string, level: nat)
      modifies this
      ensures blocks == old(blocks) + [Heading(text, level)]
    {
      blocks := blocks + [Heading(text, level)];
    }

    /** `doc.add_paragraph(text)`: a paragraph with one run, or none when `text` is empty. */
    method AddParagraph(text: string)
      modifies this
      ensures blocks == old(blocks) + [Paragraph(if text == "" then [] else [text])]
    {
      blocks := blocks + [Paragraph(if text == "" then [] else [text])];
    }

    /** `p.add_run(text)` on the paragraph added last. */
    method AddRun(text: string)
      requires |blocks| > 0 && blocks[|blocks| - 1].Paragraph?
      modifies this
      ensures blocks == old(blocks[..|blocks| - 1]) + [Paragraph(old(blocks[|blocks| - 1].runs) + [text])]
    {
      var last := blocks[|blocks| - 1];
      blocks := blocks[..|blocks| - 1] + [Paragraph(last.runs + [text])];
    }

    /** `doc.add_table(rows=1, cols=|header|)` with the header cells filled in. */
    method AddTable(header: seq<string>)
      modifies this
      ensures blocks == old(blocks) + [Table(header, [])]
    {
      blocks := blocks + [Table(header, [])];
    }

    /** `table.add_row()` on the table added last, with its cells filled in. */
    method AddRow(cells: seq<string>)
      requires |blocks| > 0 && blocks[|blocks| - 1].Table?
      modifies this
      ensures blocks == old(blocks[..|blocks| - 1]) +
        [Table(old(blocks[|blocks| - 1].header), old(blocks[|blocks| - 1].rows) + [cells])]
    {
      var last := blocks[|blocks| - 1];
      blocks := blocks[..|blocks| - 1] + [Table(last.header, last.rows + [cells])];
    }
  }
}
