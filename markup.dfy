// The markup the interpreter emits, as fragments rather than text: a box
// (a rectangle with its text laid out as a table), or a line path with an
// optional arrow head and label. The exact number formatting of the SVG
// text is not part of the model.

module Markup {
  import opened Wrappers
  import opened Geometry

  /** One table cell: its text and which of the cell's edges are styled. */
  datatype Cell = Cell(text: string, rightBorder: bool, padded: bool, bottomBorder: bool)

  /** The text of a box: the cell class (`boxTextSmall` for `SmallBox`),
      the width of each column and the cells row by row. */
  datatype BoxText = BoxText(small: bool, columnWidth: real, rows: seq<seq<Cell>>)

  /** The arrow head of a line: none, `marker-end` (`arrow_l2r`) or
      `marker-start` (`arrow_r2l`). */
  datatype Marker = NoMarker | EndArrow | StartArrow

  datatype Fragment =
    | Empty
    | Rect(left: real, top: real, width: real, height: real, fill: Option<string>, text: BoxText)
    | Path(id: int, from: Vec2d, to: Vec2d, stroke: Option<string>, marker: Marker,
           caption: Option<string>, upsideDown: bool)

  /** The horizontal nudge (`dx`) of a line's caption, which keeps it clear
      of the arrow head. */
  function LabelShift(marker: Marker): (r: Option<int>)
    ensures r.None? <==> marker == NoMarker
  {
    match marker
    case NoMarker => None
    case EndArrow => Some(-5)
    case StartArrow => Some(5)
  }

  /** The end of the path the arrow head sits on. */
  function ArrowTip(p: Fragment): Option<Vec2d>
    requires p.Path?
  {
    match p.marker
    case NoMarker => None
    case EndArrow => Some(p.to)
    case StartArrow => Some(p.from)
  }

  /** Cell `j` of a row: a right border unless it is the last column, padding
      when there are several columns, a bottom border in the first row of a
      multi-column table; none of them when the text has fewer than two cells. */
  function CellAt(text: string, cols: int, j: nat, firstRow: bool, textLen: nat): (c: Cell)
    ensures c.text == text
    ensures c.rightBorder <==> textLen >= 2 && j < cols - 1
    ensures c.padded <==> textLen >= 2 && cols > 1
    ensures c.bottomBorder <==> textLen >= 2 && firstRow
  {
    if textLen < 2 then Cell(text, false, false, false)
    else Cell(text, cols - 1 - j > 0, cols > 1, firstRow)
  }

  function Row(texts: seq<string>, cols: int, firstRow: bool, textLen: nat): (r: seq<Cell>)
  {
    seq(|texts|, j requires 0 <= j < |texts| => CellAt(texts[j], cols, j, firstRow, textLen))
  }

  /** The rows the layout loop of `DrawBox` writes: at most `cols` cells to
      a row, a new row when a row is full. */
  function Layout(texts: seq<string>, cols: int, firstRow: bool, textLen: nat): (rows: seq<seq<Cell>>)
    requires cols >= 1
    ensures forall i :: 0 <= i < |rows| ==> 1 <= |rows[i]| <= cols
    ensures forall i :: 0 <= i < |rows| - 1 ==> |rows[i]| == cols
    ensures forall i, j :: 0 <= i < |rows| && 0 <= j < |rows[i]| ==>
              rows[i][j].rightBorder == (textLen >= 2 && j < cols - 1) &&
              rows[i][j].padded == (textLen >= 2 && cols > 1) &&
              rows[i][j].bottomBorder == (textLen >= 2 && firstRow && i == 0)
    decreases |texts|
  {
    if texts == [] then []
    else
      var n := if |texts| < cols then |texts| else cols;
      [Row(texts[..n], cols, firstRow, textLen)] + Layout(texts[n..], cols, false, textLen)
  }

  /** The table of a box's text pieces, laid out as `Layout` describes:
      read row by row it holds every piece once, in order. */
  function Table(texts: seq<string>, cols: int): (rows: seq<seq<Cell>>)
    requires cols >= 1
    ensures Texts(Flatten(rows)) == texts
  {
    LayoutKeepsText(texts, cols, cols > 1, |texts|);
    Layout(texts, cols, cols > 1, |texts|)
  }

  function Flatten(rows: seq<seq<Cell>>): seq<Cell> {
    if rows == [] then [] else rows[0] + Flatten(rows[1..])
  }

  function Texts(cells: seq<Cell>): (r: seq<string>)
    ensures |r| == |cells|
  {
    seq(|cells|, k requires 0 <= k < |cells| => cells[k].text)
  }

  /** Read row by row, the table holds every piece of text once, in order. */
  lemma {:induction false} LayoutKeepsText(texts: seq<string>, cols: int, firstRow: bool, textLen: nat)
    requires cols >= 1
    ensures Texts(Flatten(Layout(texts, cols, firstRow, textLen))) == texts
    decreases |texts|
  {
    if texts != [] {
      var n := if |texts| < cols then |texts| else cols;
      var row := Row(texts[..n], cols, firstRow, textLen);
      var rest := Layout(texts[n..], cols, false, textLen);
      LayoutKeepsText(texts[n..], cols, false, textLen);
      assert Layout(texts, cols, firstRow, textLen) == [row] + rest;
      assert ([row] + rest)[1..] == rest;
      TextsAppend(row, Flatten(rest));
      assert Texts(row) == texts[..n];
      assert texts[..n] + texts[n..] == texts;
    }
  }

  lemma TextsAppend(a: seq<Cell>, b: seq<Cell>)
    ensures Texts(a + b) == Texts(a) + Texts(b)
  {
  }

  /** A single piece of text makes one unstyled cell, whatever the column count. */
  lemma SingleCellTable(text: string, cols: int)
    requires cols >= 1
    ensures Table([text], cols) == [[Cell(text, false, false, false)]]
  {
    var texts := [text];
    assert texts[..1] == texts && texts[1..] == [];
    assert Row(texts, cols, cols > 1, 1) == [Cell(text, false, false, false)];
    assert Table(texts, cols) == [Row(texts, cols, cols > 1, 1)] + Layout([], cols, false, 1);
  }

  /** The rectangle of a box between two pins: the smaller coordinates give
      its top left corner, the differences its size. */
  function BoxBetween(p1: Vec2d, p2: Vec2d, fill: Option<string>, text: BoxText): (r: Fragment)
    ensures r.Rect? && r.width >= 0.0 && r.height >= 0.0
    ensures (r.left == p1.x && r.left + r.width == p2.x) || (r.left == p2.x && r.left + r.width == p1.x)
    ensures (r.top == p1.y && r.top + r.height == p2.y) || (r.top == p2.y && r.top + r.height == p1.y)
  {
    var top := if p1.y < p2.y then p1.y else p2.y;
    var left := if p1.x < p2.x then p1.x else p2.x;
    var right := if p1.x > p2.x then p1.x else p2.x;
    var bottom := if p1.y > p2.y then p1.y else p2.y;
    Rect(left, top, right - left, bottom - top, fill, text)
  }

  /** Which pin is named first does not change the box. */
  lemma BoxIgnoresPinOrder(p1: Vec2d, p2: Vec2d, fill: Option<string>, text: BoxText)
    ensures BoxBetween(p1, p2, fill, text) == BoxBetween(p2, p1, fill, text)
  {
    var a := BoxBetween(p1, p2, fill, text);
    var b := BoxBetween(p2, p1, fill, text);
    assert a.left == b.left && a.width == b.width;
    assert a.top == b.top && a.height == b.height;
  }
}
