/** The drawio pages that pack boxes on shelves: cells with their rectangles, and where the boxes go. */
module Drawio {
  const NODE_W := 230.0
  const NODE_H := 46.0
  const GAP_X := 26.0
  const GAP_Y := 30.0
  const PAD_X := 18.0
  const PAD_TOP := 34.0
  const PAD_BOT := 18.0
  const SHELF_MAX_W := 3900.0
  const SHELF_GAP := 40.0
  const MARGIN := 40.0

  datatype Rect = Rect(x: real, y: real, w: real, h: real)

  datatype Role = Heading | Box | UnitNode | Swatch | Label

  /** A vertex of the page. Parent 0 is the page itself, any other the cell with that number, counted from 1, to
      which the rectangle is then relative. */
  datatype Cell = Cell(name: string, role: Role, rect: Rect, parent: nat)

  predicate Disjoint(r: Rect, s: Rect) {
    r.x + r.w <= s.x || s.x + s.w <= r.x || r.y + r.h <= s.y || s.y + s.h <= r.y
  }

  predicate Inside(r: Rect, w: real, h: real) {
    0.0 <= r.x && 0.0 <= r.y && r.x + r.w <= w && r.y + r.h <= h
  }

  /** The cell is at top level, or inside an earlier cell that is. */
  predicate Nested(cells: seq<Cell>, i: nat)
    requires i < |cells|
  {
    var p := cells[i].parent;
    p == 0 || (p <= i && cells[p - 1].parent == 0 && Inside(cells[i].rect, cells[p - 1].rect.w, cells[p - 1].rect.h))
  }

  /** Cells lie inside their parents, and siblings do not overlap. */
  ghost predicate Valid(cells: seq<Cell>) {
    && (forall i :: 0 <= i < |cells| ==> Nested(cells, i))
    && (forall i, j :: 0 <= i < j < |cells| && cells[i].parent == cells[j].parent ==>
          Disjoint(cells[i].rect, cells[j].rect))
  }

  /** The rectangle in the coordinates of the page. */
  function Abs(cells: seq<Cell>, i: nat): Rect
    requires i < |cells| && Nested(cells, i)
  {
    var r := cells[i].rect;
    if cells[i].parent == 0 then r
    else
      var p := cells[cells[i].parent - 1].rect;
      Rect(p.x + r.x, p.y + r.y, r.w, r.h)
  }

  /** Two cells of which neither contains the other do not overlap on the page. */
  lemma Apart(cells: seq<Cell>, i: nat, j: nat)
    requires Valid(cells) && i < j < |cells| && cells[j].parent != i + 1
    ensures Disjoint(Abs(cells, i), Abs(cells, j))
  {
    assert Nested(cells, i) && Nested(cells, j);
    var p, q := cells[i].parent, cells[j].parent;
    var top, top' := if p == 0 then i else p - 1, if q == 0 then j else q - 1;
    if p != q {
      assert top != top';
      assert Disjoint(cells[top].rect, cells[top'].rect);
    }
  }

  lemma AddCell(cells: seq<Cell>, c: Cell)
    requires Valid(cells) && Nested(cells + [c], |cells|)
    requires forall i :: 0 <= i < |cells| && cells[i].parent == c.parent ==> Disjoint(cells[i].rect, c.rect)
    ensures Valid(cells + [c])
  {
    hide Inside, Disjoint;
    forall i | 0 <= i < |cells| ensures Nested(cells + [c], i) {
      assert Nested(cells, i);
    }
  }

  function NamesOf(cells: seq<Cell>, role: Role): seq<string> {
    if cells == [] then []
    else NamesOf(cells[..|cells| - 1], role)
         + if cells[|cells| - 1].role == role then [cells[|cells| - 1].name] else []
  }

  lemma NamesPlus(cells: seq<Cell>, c: Cell, role: Role)
    ensures NamesOf(cells + [c], role) == NamesOf(cells, role) + if c.role == role then [c.name] else []
  {
    assert (cells + [c])[..|cells|] == cells;
  }

  // ---------- shelves

  /** Where the next box goes, and the height of the current shelf. */
  datatype Cursor = Cursor(x: real, y: real, shelfH: real)

  /** Every box is above the shelf of the cursor, or on it and to the left of the cursor. */
  ghost predicate Room(cells: seq<Cell>, c: Cursor) {
    && 0.0 <= c.x && 0.0 <= c.y && 0.0 <= c.shelfH
    && forall i :: 0 <= i < |cells| && cells[i].parent == 0 ==>
         var r := cells[i].rect;
         r.y + r.h <= c.y || (r.y == c.y && r.x + r.w <= c.x && r.h <= c.shelfH)
  }

  /** A box of width w that would run over the edge starts a new shelf. */
  function Wrap(c: Cursor, w: real): Cursor {
    if c.x + w > 3900.0 then Cursor(40.0, c.y + c.shelfH + 40.0, 0.0) else c
  }

  function After(c: Cursor, w: real, h: real): Cursor {
    Cursor(c.x + w + 40.0, c.y, if h > c.shelfH then h else c.shelfH)
  }

  lemma WrapRoom(cells: seq<Cell>, c: Cursor, w: real)
    requires Room(cells, c)
    ensures Room(cells, Wrap(c, w))
  {
  }

  lemma AddBox(cells: seq<Cell>, c: Cursor, box: Cell)
    requires Valid(cells) && Room(cells, c) && box.parent == 0
    requires box.rect.x == c.x && box.rect.y == c.y && 0.0 <= box.rect.w && 0.0 <= box.rect.h
    ensures Valid(cells + [box]) && Room(cells + [box], After(c, box.rect.w, box.rect.h))
    ensures forall i :: 0 <= i <= |cells| ==> (cells + [box])[i].parent != |cells| + 1
  {
    AddCell(cells, box);
    forall i | 0 <= i <= |cells| ensures (cells + [box])[i].parent != |cells| + 1 {
      assert Nested(cells + [box], i);
    }
  }

  lemma AddInner(cells: seq<Cell>, c: Cursor, inner: Cell)
    requires Room(cells, c) && inner.parent > 0
    ensures Room(cells + [inner], c)
  {
  }

  // ---------- a stack box

  function BoxW(cols: nat): real {
    PAD_X * 2.0 + cols as real * NODE_W + (cols as real - 1.0) * GAP_X
  }

  function BoxH(rows: nat): real {
    PAD_TOP + PAD_BOT + rows as real * NODE_H + (rows as real - 1.0) * GAP_Y
  }

  function Slot(ci: nat, ri: nat): Rect {
    Rect(PAD_X + ci as real * (NODE_W + GAP_X), PAD_TOP + ri as real * (NODE_H + GAP_Y), NODE_W, NODE_H)
  }

  /** A box and the slots in it, in the units of the page. */
  lemma Geometry(cols: nat, rows: nat, ci: nat, ri: nat)
    ensures BoxW(cols) == 10.0 + 256.0 * cols as real && BoxH(rows) == 22.0 + 76.0 * rows as real
    ensures Slot(ci, ri) == Rect(18.0 + 256.0 * ci as real, 34.0 + 76.0 * ri as real, 230.0, 46.0)
  {
  }

  function Rows(cols: seq<seq<string>>): (n: nat)
    ensures forall col :: col in cols ==> |col| <= n
  {
    if cols == [] then 0
    else
      var n := Rows(cols[..|cols| - 1]);
      assert cols == cols[..|cols| - 1] + [cols[|cols| - 1]];
      if |cols[|cols| - 1]| > n then |cols[|cols| - 1]| else n
  }

  /** The first n units of column ci. */
  function ColumnCells(box: nat, ci: nat, col: seq<string>, n: nat): seq<Cell>
    requires n <= |col|
  {
    seq(n, ri requires 0 <= ri < n => Cell(col[ri], UnitNode, Slot(ci, ri), box))
  }

  function StackCells(box: nat, cols: seq<seq<string>>, n: nat): seq<Cell>
    requires n <= |cols|
  {
    if n == 0 then [] else StackCells(box, cols, n - 1) + ColumnCells(box, n - 1, cols[n - 1], |cols[n - 1]|)
  }

  function Flat(cols: seq<seq<string>>): seq<string> {
    if cols == [] then [] else Flat(cols[..|cols| - 1]) + cols[|cols| - 1]
  }

  /** The units in the box are in columns before ci, or in it and above row ri. */
  ghost predicate Filled(cells: seq<Cell>, box: nat, ci: nat, ri: nat) {
    forall k :: 0 <= k < |cells| && cells[k].parent == box ==>
      var r, s := cells[k].rect, Slot(ci, ri);
      r.x + r.w <= s.x || (r.x == s.x && r.w == NODE_W && r.y + r.h <= s.y)
  }

  lemma NextColumn(cells: seq<Cell>, box: nat, ci: nat, ri: nat)
    requires Filled(cells, box, ci, ri)
    ensures Filled(cells, box, ci + 1, 0)
  {
    assert Slot(ci + 1, 0).x == Slot(ci, ri).x + NODE_W + GAP_X;
  }

  lemma AddToColumn(cells: seq<Cell>, box: nat, cols: nat, rows: nat, ci: nat, ri: nat, name: string)
    requires Valid(cells) && 0 < box <= |cells| && cells[box - 1].parent == 0 && Filled(cells, box, ci, ri)
    requires cells[box - 1].rect.w == BoxW(cols) && cells[box - 1].rect.h == BoxH(rows) && ci < cols && ri < rows
    ensures Valid(cells + [Cell(name, UnitNode, Slot(ci, ri), box)])
    ensures Filled(cells + [Cell(name, UnitNode, Slot(ci, ri), box)], box, ci, ri + 1)
  {
    var c := Cell(name, UnitNode, Slot(ci, ri), box);
    assert Slot(ci, ri + 1).y == Slot(ci, ri).y + NODE_H + GAP_Y && Slot(ci, ri + 1).x == Slot(ci, ri).x;
    assert Inside(Slot(ci, ri), BoxW(cols), BoxH(rows));
    assert Nested(cells + [c], |cells|);
    AddCell(cells, c);
  }

  // ---------- the legend

  const LEGEND_W := 14.0 * 2.0 + 96.0 + 10.0 + 190.0
  const LEGEND_KINDS := ["container", "pod", "kube", "build", "image", "artifact", "network", "volume", "external",
      "stack"]
  const LEGEND_EDGES := ["network", "volume", "pod", "image", "cross", "deps"]

  function LegendH(rows: nat): real {
    34.0 + rows as real * 36.0 + 10.0
  }

  function RowY(row: nat): real {
    34.0 + row as real * 36.0
  }

  /** The names of order that are used. */
  function Used(order: seq<string>, used: set<string>): seq<string> {
    if order == [] then []
    else Used(order[..|order| - 1], used)
         + if order[|order| - 1] in used then [order[|order| - 1]] else []
  }

  /** The legend and its rows, in the units of the page. */
  lemma LegendGeometry(rows: nat)
    ensures LEGEND_W == 324.0 && LegendH(rows) == 44.0 + 36.0 * rows as real && RowY(rows) == 34.0 + 36.0 * rows as real
  {
  }

  ghost predicate Above(cells: seq<Cell>, box: nat, y: real) {
    forall k :: 0 <= k < |cells| && cells[k].parent == box ==> cells[k].rect.y + cells[k].rect.h <= y
  }

  lemma AddSwatch(cells: seq<Cell>, box: nat, rows: nat, row: nat, name: string)
    requires Valid(cells) && 0 < box <= |cells| && cells[box - 1].parent == 0 && Above(cells, box, RowY(row))
    requires cells[box - 1].rect.w == LEGEND_W && cells[box - 1].rect.h == LegendH(rows) && row < rows
    ensures Valid(cells + [Cell("", Swatch, Rect(14.0, RowY(row) + 5.0, 96.0, 26.0), box)]
                        + [Cell(name, Label, Rect(120.0, RowY(row), 190.0, 36.0), box)])
    ensures Above(cells + [Cell("", Swatch, Rect(14.0, RowY(row) + 5.0, 96.0, 26.0), box)]
                        + [Cell(name, Label, Rect(120.0, RowY(row), 190.0, 36.0), box)], box, RowY(row + 1))
  {
    var swatch := Cell("", Swatch, Rect(14.0, RowY(row) + 5.0, 96.0, 26.0), box);
    assert Nested(cells + [swatch], |cells|);
    AddCell(cells, swatch);
    AddLabel(cells + [swatch], box, rows, row, name);
  }

  lemma AddLabel(cells: seq<Cell>, box: nat, rows: nat, row: nat, name: string)
    requires Valid(cells) && 0 < box <= |cells| && cells[box - 1].parent == 0
    requires cells[box - 1].rect.w == LEGEND_W && cells[box - 1].rect.h == LegendH(rows) && row < rows
    requires forall k :: 0 <= k < |cells| && cells[k].parent == box ==>
               var r := cells[k].rect; r.y + r.h <= RowY(row) || (r.x + r.w <= 120.0 && r.y + r.h <= RowY(row + 1))
    ensures Valid(cells + [Cell(name, Label, Rect(120.0, RowY(row), 190.0, 36.0), box)])
    ensures Above(cells + [Cell(name, Label, Rect(120.0, RowY(row), 190.0, 36.0), box)], box, RowY(row + 1))
  {
    var text := Cell(name, Label, Rect(120.0, RowY(row), 190.0, 36.0), box);
    assert Nested(cells + [text], |cells|);
    AddCell(cells, text);
  }
}
