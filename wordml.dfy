/**
 * A WordprocessingML document body as an element tree, the searches the
 * image remover runs over it, and the one edit it makes.
 *
 * Elements are identified by their path: the child indices leading to them
 * from the body. The paragraph list carries these paths, so a paragraph met
 * twice (through nested tables) is met twice at the same path.
 */
module WordML {
  import opened Text

  /** The namespace the document's `w` prefix stands for, as lxml writes it in a tag. */
  const WNamespace := "{http://schemas.openxmlformats.org/wordprocessingml/2006/main}"
  /** `w:tr`, a table row */
  const RowTag := WNamespace + "tr"
  /** `w:tc`, a table cell */
  const CellTag := WNamespace + "tc"

  datatype Element = Element(tag: string, text: Option<string>, children: seq<Element>)

  type Path = seq<nat>

  /** An element together with its path from the body. */
  datatype Node = Node(path: Path, elem: Element)

  predicate ValidPath(e: Element, p: Path)
    decreases |p|
  {
    p == [] || (p[0] < |e.children| && ValidPath(e.children[p[0]], p[1..]))
  }

  function At(e: Element, p: Path): Element
    requires ValidPath(e, p)
    decreases |p|
  {
    if p == [] then e else At(e.children[p[0]], p[1..])
  }

  /** `n` is the element found in `e` at `n.path`. */
  predicate Located(e: Element, n: Node) {
    ValidPath(e, n.path) && At(e, n.path) == n.elem
  }

  /** `n` lies in the subtree of `e`, where `e` itself is at path `at`. */
  predicate LocatedIn(e: Element, at: Path, n: Node) {
    at <= n.path && Located(e, Node(n.path[|at|..], n.elem))
  }

  function Size(e: Element): nat {
    1 + SizeOf(e.children)
  }

  function SizeOf(cs: seq<Element>): nat {
    if cs == [] then 0 else Size(cs[0]) + SizeOf(cs[1..])
  }

  lemma {:induction false} ChildSmaller(cs: seq<Element>, i: nat)
    requires i < |cs|
    ensures Size(cs[i]) <= SizeOf(cs)
  {
    if i > 0 {
      ChildSmaller(cs[1..], i - 1);
    }
  }

  /** Following a path and then another is following their concatenation. */
  lemma {:induction false} AtAppend(e: Element, p: Path, q: Path)
    requires ValidPath(e, p)
    ensures ValidPath(e, p + q) <==> ValidPath(At(e, p), q)
    ensures ValidPath(e, p + q) ==> At(e, p + q) == At(At(e, p), q)
    decreases |p|
  {
    if p != [] {
      assert (p + q)[0] == p[0] && (p + q)[1..] == p[1..] + q;
      AtAppend(e.children[p[0]], p[1..], q);
    } else {
      assert p + q == q;
    }
  }

  /** Whatever lies in a descendant's subtree lies in the ancestor's. */
  lemma LocatedTrans(e: Element, at: Path, m: Node, n: Node)
    requires LocatedIn(e, at, m) && LocatedIn(m.elem, m.path, n)
    ensures LocatedIn(e, at, n)
  {
    var p := m.path[|at|..];
    var q := n.path[|m.path|..];
    assert n.path == at + p + q by {
      assert n.path == m.path + q;
      assert m.path == at + p;
    }
    assert n.path[|at|..] == p + q;
    AtAppend(e, p, q);
  }

  /** The `i`th child of an element lies in its subtree. */
  lemma ChildLocated(e: Element, at: Path, i: nat)
    requires i < |e.children|
    ensures LocatedIn(e, at, Node(at + [i], e.children[i]))
  {
    assert (at + [i])[|at|..] == [i];
    assert [i][1..] == [];
  }

  /**
   * `e.findall('.//' + tag)`: every descendant of `e` (not `e` itself) whose
   * tag is exactly `tag`, in document order; `e` is at path `at`.
   */
  function FindAll(e: Element, tag: string, at: Path): (r: seq<Node>)
    ensures forall n :: n in r ==> n.elem.tag == tag && LocatedIn(e, at, n) && Size(n.elem) < Size(e)
    decreases e, 1
  {
    FindAllFrom(e, tag, at, 0)
  }

  /** The matches of `FindAll` under the children of `e` from the `i`th on. */
  function FindAllFrom(e: Element, tag: string, at: Path, i: nat): (r: seq<Node>)
    requires i <= |e.children|
    ensures forall n :: n in r ==> n.elem.tag == tag && LocatedIn(e, at, n) && Size(n.elem) < Size(e)
    decreases e, 0, |e.children| - i
  {
    if i == |e.children| then [] else
    var c := e.children[i];
    var self := if c.tag == tag then [Node(at + [i], c)] else [];
    var below := FindAll(c, tag, at + [i]);
    ChildLocated(e, at, i);
    ChildSmaller(e.children, i);
    assert forall n :: n in below ==> LocatedIn(e, at, n) by {
      forall n | n in below ensures LocatedIn(e, at, n) {
        LocatedTrans(e, at, Node(at + [i], c), n);
      }
    }
    self + below + FindAllFrom(e, tag, at, i + 1)
  }

  /** One step of `FindAllFrom`: the `j`th child itself, its matches, then the later children's. */
  lemma FindAllFromUnfold(e: Element, tag: string, at: Path, j: nat)
    requires j < |e.children|
    ensures FindAllFrom(e, tag, at, j) ==
      (if e.children[j].tag == tag then [Node(at + [j], e.children[j])] else [])
      + FindAll(e.children[j], tag, at + [j]) + FindAllFrom(e, tag, at, j + 1)
  {
  }

  /** What the later children yield, the earlier start yields too. */
  lemma FindAllFromNext(e: Element, tag: string, at: Path, j: nat, n: Node)
    requires j < |e.children| && n in FindAllFrom(e, tag, at, j + 1)
    ensures n in FindAllFrom(e, tag, at, j)
  {
    FindAllFromUnfold(e, tag, at, j);
  }

  lemma {:induction false} FindAllFromSuffix(e: Element, tag: string, at: Path, j: nat, i: nat, n: Node)
    requires j <= i <= |e.children|
    requires n in FindAllFrom(e, tag, at, i)
    ensures n in FindAllFrom(e, tag, at, j)
    decreases i - j
  {
    if j < i {
      FindAllFromSuffix(e, tag, at, j + 1, i, n);
      FindAllFromNext(e, tag, at, j, n);
    }
  }


  /**
   * `findall('.//' + tag)` misses no descendant with the tag, however deep:
   * the rows of a table nested in a cell are rows of the outer table too.
   */
  lemma {:induction false} FindAllComplete(e: Element, tag: string, at: Path, q: Path)
    requires 1 <= |q| && ValidPath(e, q) && At(e, q).tag == tag
    ensures Node(at + q, At(e, q)) in FindAll(e, tag, at)
    decreases |q|
  {
    var i := q[0];
    var c := e.children[i];
    var self := if c.tag == tag then [Node(at + [i], c)] else [];
    var n := Node(at + q, At(e, q));
    FindAllFromUnfold(e, tag, at, i);
    PathSplit(at, q);
    if |q| == 1 {
      assert n in self;
    } else {
      FindAllComplete(c, tag, at + [i], q[1..]);
    }
    FindAllFromSuffix(e, tag, at, 0, i, n);
  }

  /** A path below `at` is its first step below `at`, then the rest of the path. */
  lemma PathSplit(at: Path, q: Path)
    requires 1 <= |q|
    ensures at + q == at + [q[0]] + q[1..]
    ensures |q| == 1 ==> q == [q[0]] && at + q == at + [q[0]]
  {
    assert q == [q[0]] + q[1..];
  }

  /**
   * `get_all_paragraphs_in_order(parent)`, where `parent` is at path `at`:
   * each child whose tag ends in "p" is a paragraph; each child whose tag ends
   * in "tbl" contributes, for every `w:tr` below it and every `w:tc` below
   * that row, the paragraphs of that cell. Every node it yields has a tag
   * ending in "p" and lies in the subtree of `parent`.
   */
  function Paragraphs(parent: Element, at: Path): (r: seq<Node>)
    ensures forall n :: n in r ==> EndsWith(n.elem.tag, "p") && LocatedIn(parent, at, n)
    decreases Size(parent), 3
  {
    ParagraphsFrom(parent, at, 0)
  }

  /** The paragraphs `Paragraphs` yields for the children of `parent` from the `i`th on. */
  function ParagraphsFrom(parent: Element, at: Path, i: nat): (r: seq<Node>)
    requires i <= |parent.children|
    ensures forall n :: n in r ==> EndsWith(n.elem.tag, "p") && LocatedIn(parent, at, n)
    decreases Size(parent), 2, |parent.children| - i
  {
    if i == |parent.children| then [] else
    var child := parent.children[i];
    ChildLocated(parent, at, i);
    ChildSmaller(parent.children, i);
    var here :=
      if EndsWith(child.tag, "p") then [Node(at + [i], child)]
      else if EndsWith(child.tag, "tbl") then TableParagraphs(child, at + [i])
      else [];
    assert forall n :: n in here ==> LocatedIn(parent, at, n) by {
      forall n | n in here ensures LocatedIn(parent, at, n) {
        if !EndsWith(child.tag, "p") {
          LocatedTrans(parent, at, Node(at + [i], child), n);
        }
      }
    }
    here + ParagraphsFrom(parent, at, i + 1)
  }

  /** The paragraphs of a table at path `at`: row by row as `findall('.//w:tr')` lists them. */
  function TableParagraphs(table: Element, at: Path): (r: seq<Node>)
    ensures forall n :: n in r ==> EndsWith(n.elem.tag, "p") && LocatedIn(table, at, n)
    decreases Size(table), 1, 0
  {
    RowsParagraphs(table, at, FindAll(table, RowTag, at))
  }

  function RowsParagraphs(table: Element, at: Path, rows: seq<Node>): (r: seq<Node>)
    requires forall n :: n in rows ==> LocatedIn(table, at, n) && Size(n.elem) < Size(table)
    ensures forall n :: n in r ==> EndsWith(n.elem.tag, "p") && LocatedIn(table, at, n)
    decreases Size(table), 0, |rows|
  {
    if rows == [] then [] else
    var row := rows[0];
    var cells := FindAll(row.elem, CellTag, row.path);
    var here := CellsParagraphs(row.elem, row.path, cells);
    assert forall n :: n in here ==> LocatedIn(table, at, n) by {
      forall n | n in here ensures LocatedIn(table, at, n) {
        LocatedTrans(table, at, row, n);
      }
    }
    here + RowsParagraphs(table, at, rows[1..])
  }

  /** The paragraphs of each cell in `cells`, in order, as `findall('.//w:tc')` lists the cells of a row. */
  function CellsParagraphs(row: Element, at: Path, cells: seq<Node>): (r: seq<Node>)
    requires forall n :: n in cells ==> LocatedIn(row, at, n) && Size(n.elem) < Size(row)
    ensures forall n :: n in r ==> EndsWith(n.elem.tag, "p") && LocatedIn(row, at, n)
    decreases Size(row), 0, |cells|
  {
    if cells == [] then [] else
    var cell := cells[0];
    var here := Paragraphs(cell.elem, cell.path);
    assert forall n :: n in here ==> LocatedIn(row, at, n) by {
      forall n | n in here ensures LocatedIn(row, at, n) {
        LocatedTrans(row, at, cell, n);
      }
    }
    here + CellsParagraphs(row, at, cells[1..])
  }

  /** The children of `e` (at path `at`) whose tag is exactly `tag`, in order. */
  function ChildrenTagged(e: Element, tag: string, at: Path): seq<Node> {
    ChildrenTaggedFrom(e, tag, at, 0)
  }

  function ChildrenTaggedFrom(e: Element, tag: string, at: Path, i: nat): (r: seq<Node>)
    requires i <= |e.children|
    ensures forall n :: n in r ==> n.elem in e.children && n.elem.tag == tag
    decreases |e.children| - i
  {
    if i == |e.children| then [] else
    var here := if e.children[i].tag == tag then [Node(at + [i], e.children[i])] else [];
    here + ChildrenTaggedFrom(e, tag, at, i + 1)
  }

  /** The children of `e` (at path `at`) whose tag ends in "p", in order. */
  function ChildParagraphs(e: Element, at: Path): seq<Node> {
    ChildParagraphsFrom(e, at, 0)
  }

  function ChildParagraphsFrom(e: Element, at: Path, i: nat): seq<Node>
    requires i <= |e.children|
    decreases |e.children| - i
  {
    if i == |e.children| then [] else
    var here := if EndsWith(e.children[i].tag, "p") then [Node(at + [i], e.children[i])] else [];
    here + ChildParagraphsFrom(e, at, i + 1)
  }

  /** No element of the subtree of `e`, `e` included, has this tag. */
  predicate Free(e: Element, tag: string) {
    e.tag != tag && forall c :: c in e.children ==> Free(c, tag)
  }

  /** The tag occurs in the subtree of `e` among its children at most. */
  predicate Shallow(e: Element, tag: string) {
    forall i, j :: 0 <= i < |e.children| && 0 <= j < |e.children[i].children| ==> Free(e.children[i].children[j], tag)
  }

  lemma {:induction false} FindAllFreeFrom(e: Element, tag: string, at: Path, i: nat)
    requires i <= |e.children|
    requires forall c :: c in e.children ==> Free(c, tag)
    ensures FindAllFrom(e, tag, at, i) == []
    decreases e, |e.children| - i
  {
    if i < |e.children| {
      var c := e.children[i];
      assert Free(c, tag);
      FindAllFreeFrom(c, tag, at + [i], 0);
      FindAllFreeFrom(e, tag, at, i + 1);
    }
  }

  /** When the tag occurs only among the children, `findall('.//' + tag)` finds exactly those children. */
  lemma {:induction false} FindAllShallow(e: Element, tag: string, at: Path, i: nat)
    requires i <= |e.children|
    requires Shallow(e, tag)
    ensures FindAllFrom(e, tag, at, i) == ChildrenTaggedFrom(e, tag, at, i)
    decreases |e.children| - i
  {
    if i < |e.children| {
      var c := e.children[i];
      assert forall d :: d in c.children ==> Free(d, tag) by {
        forall d | d in c.children ensures Free(d, tag) {
          var j :| 0 <= j < |c.children| && c.children[j] == d;
        }
      }
      FindAllFreeFrom(c, tag, at + [i], 0);
      FindAllShallow(e, tag, at, i + 1);
    }
  }

  /** On a body with no table among its children the paragraph list is exactly its "p" children, in body order. */
  lemma {:induction false} ParagraphsWithoutTables(body: Element, at: Path, i: nat)
    requires i <= |body.children|
    requires forall c :: c in body.children ==> !EndsWith(c.tag, "tbl")
    ensures ParagraphsFrom(body, at, i) == ChildParagraphsFrom(body, at, i)
    decreases |body.children| - i
  {
    if i < |body.children| {
      assert body.children[i] in body.children;
      ParagraphsWithoutTables(body, at, i + 1);
    }
  }

  /** A row whose cells are among its children only, none of which holds a table among its children. */
  predicate SimpleRow(row: Element) {
    && Shallow(row, CellTag)
    && forall cell :: cell in row.children && cell.tag == CellTag ==>
         forall c :: c in cell.children ==> !EndsWith(c.tag, "tbl")
  }

  /** A table without nested tables: its rows are among its children only, and every row is simple. */
  predicate SimpleTable(table: Element) {
    Shallow(table, RowTag) && forall row :: row in table.children && row.tag == RowTag ==> SimpleRow(row)
  }

  /** Row-major order: for each row, for each of its cells, the cell's "p" children. */
  function RowMajor(rows: seq<Node>): seq<Node> {
    if rows == [] then [] else
    CellMajor(ChildrenTagged(rows[0].elem, CellTag, rows[0].path)) + RowMajor(rows[1..])
  }

  function CellMajor(cells: seq<Node>): seq<Node> {
    if cells == [] then [] else ChildParagraphs(cells[0].elem, cells[0].path) + CellMajor(cells[1..])
  }

  lemma {:induction false} CellsMajor(row: Element, at: Path, cells: seq<Node>)
    requires forall n :: n in cells ==> LocatedIn(row, at, n) && Size(n.elem) < Size(row)
    requires forall n :: n in cells ==> forall c :: c in n.elem.children ==> !EndsWith(c.tag, "tbl")
    ensures CellsParagraphs(row, at, cells) == CellMajor(cells)
    decreases |cells|
  {
    if cells != [] {
      ParagraphsWithoutTables(cells[0].elem, cells[0].path, 0);
      CellsMajor(row, at, cells[1..]);
    }
  }

  lemma {:induction false} RowsMajor(table: Element, at: Path, rows: seq<Node>)
    requires forall n :: n in rows ==> LocatedIn(table, at, n) && Size(n.elem) < Size(table)
    requires forall n :: n in rows ==> SimpleRow(n.elem)
    ensures RowsParagraphs(table, at, rows) == RowMajor(rows)
    decreases |rows|
  {
    if rows != [] {
      var row := rows[0];
      FindAllShallow(row.elem, CellTag, row.path, 0);
      var cells := ChildrenTagged(row.elem, CellTag, row.path);
      assert forall n :: n in cells ==> forall c :: c in n.elem.children ==> !EndsWith(c.tag, "tbl") by {
        assert SimpleRow(row.elem);
      }
      CellsMajor(row.elem, row.path, cells);
      RowsMajor(table, at, rows[1..]);
    }
  }

  /** A table without nested tables yields its cell paragraphs row by row, then cell by cell. */
  lemma TableRowMajor(table: Element, at: Path)
    requires SimpleTable(table)
    ensures TableParagraphs(table, at) == RowMajor(ChildrenTagged(table, RowTag, at))
  {
    FindAllShallow(table, RowTag, at, 0);
    RowsMajor(table, at, FindAll(table, RowTag, at));
  }

  /** The parent of the element at a non-empty path. */
  function Parent(p: Path): Path
    requires |p| >= 1
  {
    p[..|p| - 1]
  }

  lemma {:induction false} ValidPrefix(e: Element, p: Path, q: Path)
    requires ValidPath(e, p) && q <= p
    ensures ValidPath(e, q)
    decreases |q|
  {
    if q != [] {
      ValidPrefix(e.children[p[0]], p[1..], q[1..]);
    }
  }

  /** `parent.remove(child)`: the element at `Parent(p)` loses its child number `p[|p| - 1]`. */
  function RemoveAt(e: Element, p: Path): Element
    requires |p| >= 1 && ValidPath(e, p)
    decreases |p|
  {
    var i := p[0];
    if |p| == 1 then e.(children := e.children[..i] + e.children[i + 1..])
    else e.(children := e.children[i := RemoveAt(e.children[i], p[1..])])
  }

  /** The element that loses the child keeps its tag and text and every other child, in order. */
  lemma {:induction false} RemoveAtParent(e: Element, p: Path)
    requires |p| >= 1 && ValidPath(e, p)
    ensures ValidPath(e, Parent(p)) && ValidPath(RemoveAt(e, p), Parent(p))
    ensures p[|p| - 1] < |At(e, Parent(p)).children|
    ensures var before, k := At(e, Parent(p)), p[|p| - 1];
      At(RemoveAt(e, p), Parent(p)) == before.(children := before.children[..k] + before.children[k + 1..])
    decreases |p|
  {
    ValidPrefix(e, p, Parent(p));
    assert p == Parent(p) + [p[|p| - 1]];
    AtAppend(e, Parent(p), [p[|p| - 1]]);
    if |p| > 1 {
      var i := p[0];
      RemoveAtParent(e.children[i], p[1..]);
      assert Parent(p) == [i] + Parent(p[1..]);
      assert p[1..][|p| - 2] == p[|p| - 1];
    }
  }

  /** Every element outside the parent's subtree and off the path to it is unchanged, at the same path. */
  lemma {:induction false} RemoveAtElsewhere(e: Element, p: Path, q: Path)
    requires |p| >= 1 && ValidPath(e, p) && ValidPath(e, q)
    requires !(q <= Parent(p)) && !(Parent(p) <= q)
    ensures ValidPath(RemoveAt(e, p), q) && At(RemoveAt(e, p), q) == At(e, q)
    decreases |p|
  {
    var i := p[0];
    assert |p| > 1 && q != [];
    if q[0] == i {
      assert Parent(p[1..]) == Parent(p)[1..];
      assert q == [i] + q[1..] && Parent(p) == [i] + Parent(p)[1..];
      RemoveAtElsewhere(e.children[i], p[1..], q[1..]);
    }
  }

  /** The ancestors of the parent keep their tag, their text and their number of children. */
  lemma {:induction false} RemoveAtAncestors(e: Element, p: Path, q: Path)
    requires |p| >= 1 && ValidPath(e, p)
    requires q <= Parent(p) && q != Parent(p)
    ensures ValidPath(e, q) && ValidPath(RemoveAt(e, p), q)
    ensures At(RemoveAt(e, p), q).tag == At(e, q).tag && At(RemoveAt(e, p), q).text == At(e, q).text
    ensures |At(RemoveAt(e, p), q).children| == |At(e, q).children|
    decreases |p|
  {
    ValidPrefix(e, p, q);
    if q != [] {
      var i := p[0];
      assert Parent(p[1..]) == Parent(p)[1..];
      RemoveAtAncestors(e.children[i], p[1..], q[1..]);
    }
  }
}
