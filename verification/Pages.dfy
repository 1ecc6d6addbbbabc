/** drawioPage and the pages laid out on shelves: networks, storage and full detail. */
module Pages {
  import opened Drawio

  /** All of it is inside (0, 0, maxX, maxY). */
  ghost predicate Within(cells: seq<Cell>, maxX: real, maxY: real) {
    0.0 <= maxX && 0.0 <= maxY && forall i :: 0 <= i < |cells| && cells[i].parent == 0 ==>
        Inside(cells[i].rect, maxX, maxY)
  }

  /** The emitted page, which is 60 more than the integer part of the extent, contains every cell. */
  lemma OnPage(cells: seq<Cell>, maxX: real, maxY: real, i: nat)
    requires Valid(cells) && Within(cells, maxX, maxY) && i < |cells|
    ensures Nested(cells, i)
    ensures Inside(Abs(cells, i), (maxX.Floor + 60) as real, (maxY.Floor + 60) as real)
  {
    assert Nested(cells, i);
  }

  /** after extends before by cells that are not units. */
  ghost predicate NoUnits(before: seq<Cell>, after: seq<Cell>) {
    before <= after && forall i :: |before| <= i < |after| ==> after[i].role != UnitNode
  }

  function Max(a: real, b: real): real {
    if a > b then a else b
  }

  class DrawioPage {
    var cells: seq<Cell>
    var maxX: real
    var maxY: real
    var usedKinds: set<string>
    var usedEdges: set<string>

    ghost predicate Fits()
      reads `cells, `maxX, `maxY
    {
      Valid(cells) && Within(cells, maxX, maxY)
    }

    constructor ()
      ensures cells == [] && maxX == 0.0 && maxY == 0.0 && usedKinds == {} && usedEdges == {}
    {
      cells, maxX, maxY, usedKinds, usedEdges := [], 0.0, 0.0, {}, {};
    }

    /** vertex */
    method Vertex(c: Cell) returns (id: nat)
      modifies `cells, `maxX, `maxY
      ensures cells == old(cells) + [c] && id == |cells|
      ensures maxX == (if c.parent == 0 then Max(c.rect.x + c.rect.w, old(maxX)) else old(maxX))
      ensures maxY == (if c.parent == 0 then Max(c.rect.y + c.rect.h, old(maxY)) else old(maxY))
    {
      cells := cells + [c];
      if c.parent == 0 {
        if c.rect.x + c.rect.w > maxX {
          maxX := c.rect.x + c.rect.w;
        }
        if c.rect.y + c.rect.h > maxY {
          maxY := c.rect.y + c.rect.h;
        }
      }
      id := |cells|;
    }

    /** heading, on the empty page. Below it starts the first shelf. */
    method Heading(title: string, sub: string)
      requires cells == [] && maxX == 0.0 && maxY == 0.0
      modifies `cells, `maxX, `maxY
      ensures Fits() && Room(cells, Cursor(MARGIN, 120.0, 0.0))
      ensures cells == [Cell(title, Role.Heading, Rect(MARGIN, 24.0, 900.0, 34.0), 0),
                        Cell(sub, Role.Heading, Rect(MARGIN, 62.0, 1500.0, 40.0), 0)]
    {
      var _ := Vertex(Cell(title, Role.Heading, Rect(MARGIN, 24.0, 900.0, 34.0), 0));
      var _ := Vertex(Cell(sub, Role.Heading, Rect(MARGIN, 62.0, 1500.0, 40.0), 0));
    }

    /** A box at the cursor, or on a new shelf when it would run over the edge. */
    method PlaceBox(name: string, w: real, h: real, c: Cursor) returns (box: nat, next: Cursor)
      requires Fits() && Room(cells, c) && 0.0 <= w && 0.0 <= h
      modifies `cells, `maxX, `maxY
      ensures Fits() && Room(cells, next) && next == After(Wrap(c, w), w, h)
      ensures cells == old(cells) + [Cell(name, Box, Rect(Wrap(c, w).x, Wrap(c, w).y, w, h), 0)] && box == |cells|
      ensures forall i :: 0 <= i < |cells| ==> cells[i].parent != box
    {
      WrapRoom(cells, c, w);
      var at := c;
      if at.x + w > SHELF_MAX_W {
        at := Cursor(MARGIN, at.y + at.shelfH + SHELF_GAP, 0.0);
      }
      AddBox(cells, at, Cell(name, Box, Rect(at.x, at.y, w, h), 0));
      box := Vertex(Cell(name, Box, Rect(at.x, at.y, w, h), 0));
      next := Cursor(at.x + w + SHELF_GAP, at.y, at.shelfH);
      if h > next.shelfH {
        next := next.(shelfH := h);
      }
    }

    /** A box with its columns of units, as shelfLayout draws a stack and pageDetail, with a single column, a
        trailing box and the box of orphans. */
    method PlaceStack(name: string, cols: seq<seq<string>>, c: Cursor) returns (next: Cursor)
      requires Fits() && Room(cells, c)
      modifies `cells, `maxX, `maxY
      ensures Fits() && Room(cells, next)
      ensures next == After(Wrap(c, BoxW(|cols|)), BoxW(|cols|), BoxH(Rows(cols)))
      ensures var at := Wrap(c, BoxW(|cols|));
              cells == old(cells) + [Cell(name, Box, Rect(at.x, at.y, BoxW(|cols|), BoxH(Rows(cols))), 0)]
                       + StackCells(|old(cells)| + 1, cols, |cols|)
    {
      hide *;
      var rows := Tallest(cols);
      BoxIsPositive(|cols|, rows);
      var box;
      box, next := PlaceBox(name, BoxW(|cols|), BoxH(rows), c);
      ghost var base := cells;
      NothingFilled(cells, box);
      StackCellsStart(box, cols);
      for ci := 0 to |cols|
        invariant cells == base + StackCells(box, cols, ci)
        invariant Fits() && Room(cells, next) && Filled(cells, box, ci, 0)
      {
        AddColumn(box, cols, ci, rows, next, base);
        StackCellsNext(box, cols, ci);
        NextColumn(cells, box, ci, |cols[ci]|);
      }
    }

    method AddColumn(box: nat, cols: seq<seq<string>>, ci: nat, rows: nat, ghost c: Cursor, ghost base: seq<Cell>)
      requires ci < |cols| && |cols[ci]| <= rows
      requires 0 < box <= |cells| && cells[box - 1].parent == 0 && Filled(cells, box, ci, 0)
      requires cells[box - 1].rect.w == BoxW(|cols|) && cells[box - 1].rect.h == BoxH(rows)
      requires Fits() && Room(cells, c)
      modifies `cells, `maxX, `maxY
      ensures Fits() && Room(cells, c) && Filled(cells, box, ci, |cols[ci]|)
      ensures cells == old(cells) + ColumnCells(box, ci, cols[ci], |cols[ci]|)
    {
      hide Valid, Room, Filled, Slot, BoxW, BoxH, Inside, Disjoint;
      for ri := 0 to |cols[ci]|
        invariant cells == old(cells) + ColumnCells(box, ci, cols[ci], ri)
        invariant Fits() && Room(cells, c) && Filled(cells, box, ci, ri)
      {
        var unit := Cell(cols[ci][ri], UnitNode, Slot(ci, ri), box);
        AddToColumn(cells, box, |cols|, rows, ci, ri, cols[ci][ri]);
        AddInner(cells, c, unit);
        var _ := Vertex(unit);
      }
    }

    /** shelfLegend and drawLegend: a row for each kind and each edge style that is used, in the order of the
        legend, and no legend on a page without any. */
    method ShelfLegend(c: Cursor)
      requires Fits() && Room(cells, c)
      modifies `cells, `maxX, `maxY
      ensures Fits()
      ensures NamesOf(cells, Label) ==
              old(NamesOf(cells, Label)) + Used(LEGEND_KINDS, usedKinds) + Used(LEGEND_EDGES, usedEdges)
      ensures NamesOf(cells, UnitNode) == old(NamesOf(cells, UnitNode)) && NoUnits(old(cells), cells)
    {
      hide Valid, Room, Above, Inside, Disjoint, Used, NamesOf, Within;
      var kinds, styles := Used(LEGEND_KINDS, usedKinds), Used(LEGEND_EDGES, usedEdges);
      if |kinds| + |styles| == 0 {
        return;
      }
      ghost var before := cells;
      var box, next := PlaceBox("Legend", LEGEND_W, LegendH(|kinds| + |styles|), c);
      NamesPlus(before, cells[|before|], Label);
      NamesPlus(before, cells[|before|], UnitNode);
      NothingAbove(cells, box);
      LegendRows(box, kinds, 0, |kinds| + |styles|, true);
      LegendRows(box, styles, |kinds|, |kinds| + |styles|, false);
    }

    /** The rows of the legend from row first on. A row for a kind has a swatch, one for an edge a line instead. */
    method LegendRows(box: nat, names: seq<string>, first: nat, ghost rows: nat, swatches: bool)
      requires Fits() && first + |names| <= rows
      requires 0 < box <= |cells| && cells[box - 1].parent == 0 && Above(cells, box, RowY(first))
      requires cells[box - 1].rect.w == LEGEND_W && cells[box - 1].rect.h == LegendH(rows)
      modifies `cells, `maxX, `maxY
      ensures Fits() && NoUnits(old(cells), cells) && Above(cells, box, RowY(first + |names|))
      ensures NamesOf(cells, Label) == old(NamesOf(cells, Label)) + names
      ensures NamesOf(cells, UnitNode) == old(NamesOf(cells, UnitNode))
    {
      hide Valid, Above, Inside, Disjoint, NamesOf, RowY;
      for i := 0 to |names|
        invariant Fits() && NoUnits(old(cells), cells) && Above(cells, box, RowY(first + i))
        invariant NamesOf(cells, Label) == old(NamesOf(cells, Label)) + names[..i]
        invariant NamesOf(cells, UnitNode) == old(NamesOf(cells, UnitNode))
      {
        var ry := RowY(first + i);
        var swatch := Cell("", Swatch, Rect(14.0, ry + 5.0, 96.0, 26.0), box);
        var text := Cell(names[i], Label, Rect(120.0, ry, 190.0, 36.0), box);
        if swatches {
          AddSwatch(cells, box, rows, first + i, names[i]);
          NamesPlus(cells, swatch, Label);
          NamesPlus(cells, swatch, UnitNode);
          var _ := Vertex(swatch);
        } else {
          LabelFits(cells, box, first + i);
          AddLabel(cells, box, rows, first + i, names[i]);
        }
        NamesPlus(cells, text, Label);
        NamesPlus(cells, text, UnitNode);
        var _ := Vertex(text);
      }
    }
  }

  method Tallest(cols: seq<seq<string>>) returns (rows: nat)
    ensures rows == Rows(cols) && forall col :: col in cols ==> |col| <= rows
  {
    rows := 0;
    for ci := 0 to |cols|
      invariant rows == Rows(cols[..ci])
    {
      assert cols[..ci + 1][..ci] == cols[..ci];
      if |cols[ci]| > rows {
        rows := |cols[ci]|;
      }
    }
    assert cols[..|cols|] == cols;
  }

  lemma BoxIsPositive(cols: nat, rows: nat)
    ensures 0.0 <= BoxW(cols) && 0.0 <= BoxH(rows)
  {
    assert BoxW(cols) == 10.0 + cols as real * (NODE_W + GAP_X);
    assert BoxH(rows) == 22.0 + rows as real * (NODE_H + GAP_Y);
  }

  lemma NothingFilled(cells: seq<Cell>, box: nat)
    requires forall i :: 0 <= i < |cells| ==> cells[i].parent != box
    ensures Filled(cells, box, 0, 0)
  {
  }

  lemma StackCellsStart(box: nat, cols: seq<seq<string>>)
    ensures StackCells(box, cols, 0) == []
  {
  }

  lemma StackCellsNext(box: nat, cols: seq<seq<string>>, ci: nat)
    requires ci < |cols|
    ensures StackCells(box, cols, ci + 1) == StackCells(box, cols, ci) + ColumnCells(box, ci, cols[ci], |cols[ci]|)
  {
  }

  lemma NothingAbove(cells: seq<Cell>, box: nat)
    requires forall i :: 0 <= i < |cells| ==> cells[i].parent != box
    ensures Above(cells, box, RowY(0))
  {
  }

  lemma LabelFits(cells: seq<Cell>, box: nat, row: nat)
    requires Above(cells, box, RowY(row))
    ensures forall k :: 0 <= k < |cells| && cells[k].parent == box ==>
              var r := cells[k].rect; r.y + r.h <= RowY(row) || (r.x + r.w <= 120.0 && r.y + r.h <= RowY(row + 1))
  {
  }
}
