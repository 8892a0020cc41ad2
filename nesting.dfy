/**
 * Tables nested in table cells, worked through `get_all_paragraphs_in_order`
 * and the backward scan:
 * - the one paragraph inside an inner table is listed three times, at the same path;
 * - a drawing inside an inner table is removed although text follows it in the document.
 */
module Nesting {
  import opened Text
  import opened WordML
  import opened Scanner

  const ParagraphTag := WNamespace + "p"
  const TableTag := WNamespace + "tbl"
  const BodyTag := WNamespace + "body"

  /** body > tbl > tr > tc > tbl > tr > tc > p, every element the only child of its parent. */
  const Para := Element(ParagraphTag, None, [])
  const InnerCell := Element(CellTag, None, [Para])
  const InnerRow := Element(RowTag, None, [InnerCell])
  const InnerTable := Element(TableTag, None, [InnerRow])
  const OuterCell := Element(CellTag, None, [InnerTable])
  const OuterRow := Element(RowTag, None, [OuterCell])
  const OuterTable := Element(TableTag, None, [OuterRow])
  const Body := Element(BodyTag, None, [OuterTable])

  /** Which of the tests the walk makes each tag passes. */
  lemma TagFacts()
    ensures EndsWith(ParagraphTag, "p") && ParagraphTag != RowTag && ParagraphTag != CellTag
    ensures !EndsWith(TableTag, "p") && EndsWith(TableTag, "tbl") && TableTag != RowTag && TableTag != CellTag
    ensures !EndsWith(RowTag, "p") && !EndsWith(RowTag, "tbl") && RowTag != CellTag
    ensures !EndsWith(CellTag, "p") && !EndsWith(CellTag, "tbl")
    ensures !EndsWith(BodyTag, "p") && !EndsWith(BodyTag, "tbl")
  {
    var n := |WNamespace|;
    assert ParagraphTag[n] == 'p' && TableTag[n] == 't' && RowTag[n] == 't' && CellTag[n] == 't';
    assert RowTag[n + 1] == 'r' && CellTag[n + 1] == 'c';
    assert TableTag[n + 2] == 'l' && BodyTag[n + 3] == 'y';
  }

  lemma FindAllLeaf(e: Element, tag: string, at: Path)
    requires e.children == []
    ensures FindAll(e, tag, at) == []
  {
  }

  /** `findall` under an element with one child: the child if it matches, then what lies below it. */
  lemma FindAllOnly(e: Element, tag: string, at: Path)
    requires |e.children| == 1
    ensures FindAll(e, tag, at) ==
      (if e.children[0].tag == tag then [Node(at + [0], e.children[0])] else []) + FindAll(e.children[0], tag, at + [0])
  {
    FindAllFromUnfold(e, tag, at, 0);
    assert FindAllFrom(e, tag, at, 1) == [];
  }

  /** The paragraphs of an element with one child: that child's contribution. */
  lemma ParagraphsOnly(e: Element, at: Path)
    requires |e.children| == 1
    ensures Paragraphs(e, at) ==
      if EndsWith(e.children[0].tag, "p") then [Node(at + [0], e.children[0])]
      else if EndsWith(e.children[0].tag, "tbl") then TableParagraphs(e.children[0], at + [0])
      else []
  {
    assert ParagraphsFrom(e, at, 1) == [];
  }

  /** The paragraphs of an element whose only child is a table: the table's. */
  lemma ParagraphsOnlyTable(e: Element, at: Path)
    requires |e.children| == 1
    requires !EndsWith(e.children[0].tag, "p") && EndsWith(e.children[0].tag, "tbl")
    ensures Paragraphs(e, at) == TableParagraphs(e.children[0], at + [0])
  {
    ParagraphsOnly(e, at);
  }

  /** The part of `TagFacts` the walk needs at a table. */
  lemma TableTagFacts()
    ensures !EndsWith(TableTag, "p") && EndsWith(TableTag, "tbl")
  {
    TagFacts();
  }

  lemma InnerCellParagraphs(at: Path)
    ensures Paragraphs(InnerCell, at) == [Node(at + [0], Para)]
  {
    TagFacts();
    ParagraphsOnly(InnerCell, at);
  }

  lemma InnerTableParagraphs(at: Path)
    ensures TableParagraphs(InnerTable, at) == [Node(at + [0, 0, 0], Para)]
  {
    TagFacts();
    FindAllLeaf(Para, RowTag, at + [0, 0, 0]);
    FindAllOnly(InnerCell, RowTag, at + [0, 0]);
    FindAllOnly(InnerRow, RowTag, at + [0]);
    FindAllOnly(InnerTable, RowTag, at);
    assert at + [0] + [0] == at + [0, 0] && at + [0, 0] + [0] == at + [0, 0, 0];
    var rows := FindAll(InnerTable, RowTag, at);
    assert rows == [Node(at + [0], InnerRow)];
    FindAllLeaf(Para, CellTag, at + [0, 0, 0]);
    FindAllOnly(InnerCell, CellTag, at + [0, 0]);
    FindAllOnly(InnerRow, CellTag, at + [0]);
    var cells := FindAll(InnerRow, CellTag, at + [0]);
    assert cells == [Node(at + [0, 0], InnerCell)];
    InnerCellParagraphs(at + [0, 0]);
    assert CellsParagraphs(InnerRow, at + [0], cells) == [Node(at + [0, 0, 0], Para)];
    assert RowsParagraphs(InnerTable, at, rows) == [Node(at + [0, 0, 0], Para)];
  }

  lemma OuterCellParagraphs(at: Path)
    ensures Paragraphs(OuterCell, at) == [Node(at + [0, 0, 0, 0], Para)]
  {
    TableTagFacts();
    ParagraphsOnlyTable(OuterCell, at);
    InnerTableParagraphs(at + [0]);
    assert at + [0] + [0, 0, 0] == at + [0, 0, 0, 0];
  }

  /** One more step down the only-child chain below `at`. */
  lemma Down(at: Path)
    ensures at + [0] + [0] == at + [0, 0]
    ensures at + [0, 0] + [0] == at + [0, 0, 0]
    ensures at + [0, 0, 0] + [0] == at + [0, 0, 0, 0]
    ensures at + [0, 0, 0, 0] + [0] == at + [0, 0, 0, 0, 0]
    ensures at + [0, 0, 0, 0, 0] + [0] == at + [0, 0, 0, 0, 0, 0]
    ensures at + [0] + [0, 0, 0] == at + [0, 0, 0, 0]
    ensures at + [0, 0] + [0, 0, 0, 0] == at + [0, 0, 0, 0, 0, 0]
    ensures at + [0, 0, 0, 0] + [0, 0] == at + [0, 0, 0, 0, 0, 0]
    ensures at + [0] + [0, 0, 0, 0] == at + [0, 0, 0, 0, 0]
    ensures at + [0] + [0, 0, 0, 0, 0] == at + [0, 0, 0, 0, 0, 0]
  {
  }

  /** The rows `.//w:tr` finds in the outer table: the outer row, then the inner one. */
  lemma OuterRows(at: Path)
    ensures FindAll(OuterTable, RowTag, at) == [Node(at + [0], OuterRow), Node(at + [0, 0, 0, 0], InnerRow)]
  {
    TagFacts();
    Down(at);
    FindAllLeaf(Para, RowTag, at + [0, 0, 0, 0, 0, 0]);
    FindAllOnly(InnerCell, RowTag, at + [0, 0, 0, 0, 0]);
    FindAllOnly(InnerRow, RowTag, at + [0, 0, 0, 0]);
    FindAllOnly(InnerTable, RowTag, at + [0, 0, 0]);
    FindAllOnly(OuterCell, RowTag, at + [0, 0]);
    FindAllOnly(OuterRow, RowTag, at + [0]);
    FindAllOnly(OuterTable, RowTag, at);
  }

  /** The cells of the inner row: the inner cell alone. */
  lemma InnerCells(at: Path)
    ensures FindAll(InnerRow, CellTag, at) == [Node(at + [0], InnerCell)]
  {
    TagFacts();
    Down(at);
    FindAllLeaf(Para, CellTag, at + [0, 0]);
    FindAllOnly(InnerCell, CellTag, at + [0]);
    FindAllOnly(InnerRow, CellTag, at);
  }

  /** The cells `.//w:tc` finds in the outer row: the outer cell, then the inner one. */
  lemma OuterCells(at: Path)
    ensures FindAll(OuterRow, CellTag, at) == [Node(at + [0], OuterCell), Node(at + [0, 0, 0, 0], InnerCell)]
  {
    TagFacts();
    Down(at);
    InnerCells(at + [0, 0, 0]);
    FindAllOnly(InnerTable, CellTag, at + [0, 0]);
    FindAllOnly(OuterCell, CellTag, at + [0]);
    FindAllOnly(OuterRow, CellTag, at);
  }

  /** The paragraphs of two cells found in a row: the first cell's, then the second's. */
  lemma CellsTwo(row: Element, at: Path, c1: Node, c2: Node)
    requires forall n :: n in [c1, c2] ==> LocatedIn(row, at, n) && Size(n.elem) < Size(row)
    ensures CellsParagraphs(row, at, [c1, c2]) == Paragraphs(c1.elem, c1.path) + Paragraphs(c2.elem, c2.path)
  {
    var cells := [c1, c2];
    assert cells[1..] == [c2] && [c2][1..] == [];
    assert CellsParagraphs(row, at, [c2]) == Paragraphs(c2.elem, c2.path);
  }

  /** The paragraphs of two rows found in a table: the first row's cells', then the second's. */
  lemma RowsTwo(table: Element, at: Path, r1: Node, r2: Node)
    requires forall n :: n in [r1, r2] ==> LocatedIn(table, at, n) && Size(n.elem) < Size(table)
    ensures RowsParagraphs(table, at, [r1, r2]) ==
      CellsParagraphs(r1.elem, r1.path, FindAll(r1.elem, CellTag, r1.path))
      + CellsParagraphs(r2.elem, r2.path, FindAll(r2.elem, CellTag, r2.path))
  {
    var rows := [r1, r2];
    assert rows[1..] == [r2] && [r2][1..] == [];
    assert RowsParagraphs(table, at, [r2]) == CellsParagraphs(r2.elem, r2.path, FindAll(r2.elem, CellTag, r2.path));
  }

  /** The outer row yields the paragraph twice: once per cell found. */
  lemma OuterRowParagraphs(at: Path)
    ensures var n := Node(at + [0, 0, 0, 0, 0], Para);
      CellsParagraphs(OuterRow, at, FindAll(OuterRow, CellTag, at)) == [n, n]
  {
    Down(at);
    OuterCells(at);
    CellsTwo(OuterRow, at, Node(at + [0], OuterCell), Node(at + [0, 0, 0, 0], InnerCell));
    OuterCellParagraphs(at + [0]);
    InnerCellParagraphs(at + [0, 0, 0, 0]);
  }

  /** The inner row, found again from the outer table, yields it once more. */
  lemma InnerRowParagraphs(at: Path)
    ensures CellsParagraphs(InnerRow, at, FindAll(InnerRow, CellTag, at)) == [Node(at + [0, 0], Para)]
  {
    Down(at);
    InnerCells(at);
    InnerCellParagraphs(at + [0]);
  }

  /** The outer table lists its one paragraph three times. */
  lemma OuterTableParagraphs(at: Path)
    ensures var n := Node(at + [0, 0, 0, 0, 0, 0], Para);
      TableParagraphs(OuterTable, at) == [n, n, n]
  {
    Down(at);
    OuterRows(at);
    RowsTwo(OuterTable, at, Node(at + [0], OuterRow), Node(at + [0, 0, 0, 0], InnerRow));
    OuterRowParagraphs(at + [0]);
    InnerRowParagraphs(at + [0, 0, 0, 0]);
  }

  /**
   * The inner table's paragraph is listed three times, at the same path:
   * through the outer cell's own walk, through the inner cell that the outer
   * row's `.//w:tc` also finds, and through the inner row that the outer
   * table's `.//w:tr` also finds. From the body itself (`at` empty) the path
   * is [0, 0, 0, 0, 0, 0, 0].
   */
  lemma NestedTableRepeats(at: Path)
    ensures var n := Node(at + [0, 0, 0, 0, 0, 0, 0], Para);
      Paragraphs(Body, at) == [n, n, n]
  {
    TableTagFacts();
    ParagraphsOnlyTable(Body, at);
    OuterTableParagraphs(at + [0]);
    assert at + [0] + [0, 0, 0, 0, 0, 0] == at + [0, 0, 0, 0, 0, 0, 0];
  }

  /*
   * body > tbl > tr > tc, and that cell holds an inner table and then a
   * paragraph with text: tbl > tr > tc > p > r > drawing, then p > r > t "Hello".
   */

  const RunTag := WNamespace + "r"
  const DrawingTag := WNamespace + "drawing"
  const TextTag := WNamespace + "t"

  const Drawing := Element(DrawingTag, None, [])
  const Hello := Element(TextTag, Some("Hello"), [])
  const DrawingRun := Element(RunTag, None, [Drawing])
  const TextRun := Element(RunTag, None, [Hello])
  const DrawingPara := Element(ParagraphTag, None, [DrawingRun])
  const TextPara := Element(ParagraphTag, None, [TextRun])
  const PictureCell := Element(CellTag, None, [DrawingPara])
  const PictureRow := Element(RowTag, None, [PictureCell])
  const PictureTable := Element(TableTag, None, [PictureRow])
  const MixedCell := Element(CellTag, None, [PictureTable, TextPara])
  const MixedRow := Element(RowTag, None, [MixedCell])
  const MixedTable := Element(TableTag, None, [MixedRow])
  const MixedBody := Element(BodyTag, None, [MixedTable])

  /** Which of the tests the walk and the scan make the run, drawing and text tags pass. */
  lemma RunTagFacts()
    ensures EndsWith(RunTag, "r") && RunTag != RowTag && RunTag != CellTag
    ensures EndsWith(DrawingTag, "drawing") && !EndsWith(DrawingTag, "t") && DrawingTag != RowTag && DrawingTag != CellTag
    ensures EndsWith(TextTag, "t") && TextTag != RowTag && TextTag != CellTag
  {
    var n := |WNamespace|;
    assert RowTag[n] == 't' && CellTag[n] == 't' && RunTag[n] == 'r' && DrawingTag[n] == 'd';
    assert RowTag[n + 1] == 'r' && CellTag[n + 1] == 'c' && |TextTag| == n + 1;
  }

  /** The part of `TagFacts` the walk needs at a paragraph. */
  lemma ParagraphTagFacts()
    ensures EndsWith(ParagraphTag, "p") && ParagraphTag != RowTag && ParagraphTag != CellTag
  {
    TagFacts();
  }

  /** A paragraph holding one run with one leaf holds no rows and no cells. */
  lemma OneRunParagraph(leaf: Element, tag: string, at: Path)
    requires leaf.children == [] && leaf.tag != tag && RunTag != tag && ParagraphTag != tag
    ensures FindAll(Element(ParagraphTag, None, [Element(RunTag, None, [leaf])]), tag, at) == []
  {
    FindAllLeaf(leaf, tag, at + [0, 0]);
    FindAllOnly(Element(RunTag, None, [leaf]), tag, at + [0]);
    FindAllOnly(Element(ParagraphTag, None, [Element(RunTag, None, [leaf])]), tag, at);
  }

  lemma LeafParagraphs(at: Path)
    ensures FindAll(DrawingPara, RowTag, at) == [] && FindAll(DrawingPara, CellTag, at) == []
    ensures FindAll(TextPara, RowTag, at) == [] && FindAll(TextPara, CellTag, at) == []
  {
    RunTagFacts();
    ParagraphTagFacts();
    OneRunParagraph(Drawing, RowTag, at);
    OneRunParagraph(Drawing, CellTag, at);
    OneRunParagraph(Hello, RowTag, at);
    OneRunParagraph(Hello, CellTag, at);
  }

  /** `findall` under an element with two children. */
  lemma FindAllTwo(e: Element, tag: string, at: Path)
    requires |e.children| == 2
    ensures FindAll(e, tag, at) ==
      (if e.children[0].tag == tag then [Node(at + [0], e.children[0])] else []) + FindAll(e.children[0], tag, at + [0])
      + (if e.children[1].tag == tag then [Node(at + [1], e.children[1])] else []) + FindAll(e.children[1], tag, at + [1])
  {
    FindAllFromUnfold(e, tag, at, 0);
    FindAllFromUnfold(e, tag, at, 1);
    assert FindAllFrom(e, tag, at, 2) == [];
  }

  /** The paragraphs of an element whose children are a table and then a paragraph. */
  lemma ParagraphsTableThenParagraph(e: Element, at: Path)
    requires |e.children| == 2
    requires !EndsWith(e.children[0].tag, "p") && EndsWith(e.children[0].tag, "tbl")
    requires EndsWith(e.children[1].tag, "p")
    ensures Paragraphs(e, at) == TableParagraphs(e.children[0], at + [0]) + [Node(at + [1], e.children[1])]
  {
    assert ParagraphsFrom(e, at, 2) == [];
    assert ParagraphsFrom(e, at, 1) == [Node(at + [1], e.children[1])];
  }

  /** The path steps the mixed example needs beyond `Down`. */
  lemma Beside(at: Path)
    ensures at + [0] + [0, 0] == at + [0, 0, 0]
    ensures at + [0, 0] + [0, 0] == at + [0, 0, 0, 0]
    ensures at + [0] + [1] == at + [0, 1]
    ensures at + [0] + [0, 1] == at + [0, 0, 1]
  {
  }

  /** The paragraphs of one cell found in a row. */
  lemma CellsOne(row: Element, at: Path, c: Node)
    requires LocatedIn(row, at, c) && Size(c.elem) < Size(row)
    ensures CellsParagraphs(row, at, [c]) == Paragraphs(c.elem, c.path)
  {
    assert [c][1..] == [];
  }

  /** The paragraphs of one row found in a table. */
  lemma RowsOne(table: Element, at: Path, r: Node)
    requires LocatedIn(table, at, r) && Size(r.elem) < Size(table)
    ensures RowsParagraphs(table, at, [r]) == CellsParagraphs(r.elem, r.path, FindAll(r.elem, CellTag, r.path))
  {
    assert [r][1..] == [];
  }

  /** The structural tags differ from each other: the part of `TagFacts` the `findall` steps need. */
  lemma DistinctTags()
    ensures TableTag != RowTag && TableTag != CellTag && ParagraphTag != RowTag && ParagraphTag != CellTag
    ensures RowTag != CellTag
  {
    TagFacts();
  }

  lemma PictureCellParagraphs(at: Path)
    ensures Paragraphs(PictureCell, at) == [Node(at + [0], DrawingPara)]
  {
    ParagraphTagFacts();
    ParagraphsOnly(PictureCell, at);
  }

  lemma PictureCells(at: Path)
    ensures FindAll(PictureRow, CellTag, at) == [Node(at + [0], PictureCell)]
  {
    Down(at);
    DistinctTags();
    LeafParagraphs(at + [0, 0]);
    FindAllOnly(PictureCell, CellTag, at + [0]);
    FindAllOnly(PictureRow, CellTag, at);
  }

  lemma PictureTableCells(at: Path)
    ensures FindAll(PictureTable, CellTag, at) == [Node(at + [0, 0], PictureCell)]
  {
    Down(at);
    DistinctTags();
    PictureCells(at + [0]);
    FindAllOnly(PictureTable, CellTag, at);
  }

  lemma PictureRows(at: Path)
    ensures FindAll(PictureTable, RowTag, at) == [Node(at + [0], PictureRow)]
  {
    DistinctTags();
    Down(at);
    LeafParagraphs(at + [0, 0, 0]);
    FindAllOnly(PictureCell, RowTag, at + [0, 0]);
    FindAllOnly(PictureRow, RowTag, at + [0]);
    FindAllOnly(PictureTable, RowTag, at);
  }

  lemma PictureRowParagraphs(at: Path)
    ensures CellsParagraphs(PictureRow, at, FindAll(PictureRow, CellTag, at)) == [Node(at + [0, 0], DrawingPara)]
  {
    Down(at);
    PictureCells(at);
    CellsOne(PictureRow, at, Node(at + [0], PictureCell));
    PictureCellParagraphs(at + [0]);
  }

  lemma PictureTableParagraphs(at: Path)
    ensures TableParagraphs(PictureTable, at) == [Node(at + [0, 0, 0], DrawingPara)]
  {
    Beside(at);
    Down(at);
    PictureRows(at);
    RowsOne(PictureTable, at, Node(at + [0], PictureRow));
    PictureRowParagraphs(at + [0]);
  }

  /** The mixed cell: the inner table's paragraph, then its own. */
  lemma MixedCellParagraphs(at: Path)
    ensures Paragraphs(MixedCell, at) == [Node(at + [0, 0, 0, 0], DrawingPara), Node(at + [1], TextPara)]
  {
    TableTagFacts();
    ParagraphTagFacts();
    ParagraphsTableThenParagraph(MixedCell, at);
    PictureTableParagraphs(at + [0]);
    Down(at);
  }

  /** The cells below the mixed cell: the picture cell alone. */
  lemma MixedCellCells(at: Path)
    ensures FindAll(MixedCell, CellTag, at) == [Node(at + [0, 0, 0], PictureCell)]
  {
    Beside(at);
    DistinctTags();
    Down(at);
    PictureTableCells(at + [0]);
    LeafParagraphs(at + [1]);
    FindAllTwo(MixedCell, CellTag, at);
  }

  /** The rows below the mixed cell: the picture row alone. */
  lemma MixedCellRows(at: Path)
    ensures FindAll(MixedCell, RowTag, at) == [Node(at + [0, 0], PictureRow)]
  {
    Beside(at);
    DistinctTags();
    Down(at);
    PictureRows(at + [0]);
    LeafParagraphs(at + [1]);
    FindAllTwo(MixedCell, RowTag, at);
  }

  /** The cells `.//w:tc` finds in the mixed row: the mixed cell, then the picture cell. */
  lemma MixedCells(at: Path)
    ensures FindAll(MixedRow, CellTag, at) == [Node(at + [0], MixedCell), Node(at + [0, 0, 0, 0], PictureCell)]
  {
    Down(at);
    MixedCellCells(at + [0]);
    FindAllOnly(MixedRow, CellTag, at);
  }

  /** The rows `.//w:tr` finds in the mixed table: the mixed row, then the picture row. */
  lemma MixedRows(at: Path)
    ensures FindAll(MixedTable, RowTag, at) == [Node(at + [0], MixedRow), Node(at + [0, 0, 0, 0], PictureRow)]
  {
    Beside(at);
    DistinctTags();
    Down(at);
    MixedCellRows(at + [0, 0]);
    FindAllOnly(MixedRow, RowTag, at + [0]);
    FindAllOnly(MixedTable, RowTag, at);
  }

  lemma MixedRowParagraphs(at: Path)
    ensures var d := Node(at + [0, 0, 0, 0, 0], DrawingPara);
      CellsParagraphs(MixedRow, at, FindAll(MixedRow, CellTag, at)) == [d, Node(at + [0, 1], TextPara), d]
  {
    Beside(at);
    Down(at);
    MixedCells(at);
    CellsTwo(MixedRow, at, Node(at + [0], MixedCell), Node(at + [0, 0, 0, 0], PictureCell));
    MixedCellParagraphs(at + [0]);
    PictureCellParagraphs(at + [0, 0, 0, 0]);
  }

  lemma MixedTableParagraphs(at: Path)
    ensures var d := Node(at + [0, 0, 0, 0, 0, 0], DrawingPara);
      TableParagraphs(MixedTable, at) == [d, Node(at + [0, 0, 1], TextPara), d, d]
  {
    Beside(at);
    Down(at);
    MixedRows(at);
    RowsTwo(MixedTable, at, Node(at + [0], MixedRow), Node(at + [0, 0, 0, 0], PictureRow));
    MixedRowParagraphs(at + [0]);
    PictureRowParagraphs(at + [0, 0, 0, 0]);
  }

  /** The paragraphs of the body: the drawing's paragraph, the text's, then the drawing's twice more. */
  lemma MixedBodyParagraphs()
    ensures var d := Node([0, 0, 0, 0, 0, 0, 0], DrawingPara);
      Paragraphs(MixedBody, []) == [d, Node([0, 0, 0, 1], TextPara), d, d]
  {
    TableTagFacts();
    ParagraphsOnlyTable(MixedBody, []);
    MixedTableParagraphs([0]);
    assert [] + [0] == [0];
    assert [0] + [0, 0, 0, 0, 0, 0] == [0, 0, 0, 0, 0, 0, 0] && [0] + [0, 0, 1] == [0, 0, 0, 1];
  }

  /** What the scan visits in the drawing's paragraph: the drawing alone. */
  lemma DrawingParaItems(p: Node)
    requires p.elem == DrawingPara
    ensures RunItems(RunsOf(p)) == [Node(p.path + [0, 0], Drawing)]
  {
    RunTagFacts();
    var run := Node(p.path + [0], DrawingRun);
    assert ChildNodes(p) == [run];
    assert KeepRuns([run]) == [run] + KeepRuns([]);
    Down(p.path);
    assert ChildNodes(run) == [Node(p.path + [0, 0], Drawing)];
    assert [run][..0] == [];
  }

  /** The scan's items end with the drawing when the last paragraph is the drawing's. */
  lemma DocItemsEndInDrawing(ps: seq<Node>)
    requires ps != [] && ps[|ps| - 1].elem == DrawingPara
    ensures DocItems(ps) == DocItems(ps[..|ps| - 1]) + [Node(ps[|ps| - 1].path + [0, 0], Drawing)]
  {
    DrawingParaItems(ps[|ps| - 1]);
  }

  /** A backward walk over items ending in a drawing removes that drawing. */
  lemma DecideLastDrawing(front: seq<Node>, x: Node)
    requires x.elem == Drawing
    ensures Decide(front + [x]) == Removed(x.path)
  {
    RunTagFacts();
    LastSignalSnoc(front, x);
    assert (front + [x])[|front|] == x;
  }

  lemma DrawingLocated()
    ensures Located(MixedBody, Node([0, 0, 0, 0, 0, 0, 0, 0, 0], Drawing))
  {
  }

  lemma HelloLocated()
    ensures Located(MixedBody, Node([0, 0, 0, 1, 0, 0], Hello))
  {
  }

  lemma HelloIsText()
    ensures IsTextSignal(Hello)
  {
    RunTagFacts();
    StripSpec("Hello");
    assert !IsSpace("Hello"[0]);
  }

  /**
   * A drawing inside a table nested in a cell is removed although the cell's
   * next paragraph, after it in the document, holds visible text: the scan
   * lists the drawing's paragraph once more after the text's, so the
   * backward walk meets the drawing first.
   */
  lemma NestedDrawingBeforeText()
    ensures Located(MixedBody, Node([0, 0, 0, 0, 0, 0, 0, 0, 0], Drawing))
    ensures Located(MixedBody, Node([0, 0, 0, 1, 0, 0], Hello)) && IsTextSignal(Hello)
    ensures Scan(MixedBody) == Removed([0, 0, 0, 0, 0, 0, 0, 0, 0])
  {
    DrawingLocated();
    HelloLocated();
    HelloIsText();
    MixedScan();
  }

  /** The scan's items of the mixed body end with the nested drawing. */
  lemma MixedItems()
    ensures Items(MixedBody) != [] && Items(MixedBody)[|Items(MixedBody)| - 1] == Node([0, 0, 0, 0, 0, 0, 0, 0, 0], Drawing)
  {
    MixedBodyParagraphs();
    var ps := Paragraphs(MixedBody, []);
    DocItemsEndInDrawing(ps);
    assert [0, 0, 0, 0, 0, 0, 0] + [0, 0] == [0, 0, 0, 0, 0, 0, 0, 0, 0];
  }

  /** The scan of the mixed body removes the nested drawing. */
  lemma MixedScan()
    ensures Scan(MixedBody) == Removed([0, 0, 0, 0, 0, 0, 0, 0, 0])
  {
    MixedItems();
    var items := Items(MixedBody);
    var last := items[|items| - 1];
    assert items == items[..|items| - 1] + [last];
    DecideLastDrawing(items[..|items| - 1], last);
  }
}
