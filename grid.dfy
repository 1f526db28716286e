/**
 * The integer layout of the "life in weeks" picture (`create_weeks_image`,
 * bot.py lines 74-136): a grid of 52 columns (weeks) by 90 rows (years) of
 * 12-pixel cells, the first `min(lived_weeks, 4680)` of them marked as
 * lived, and a labelled line every five years.
 */
module Grid {

  const CellSize: int := 12
  const GridWidth: int := 52
  const LifespanYears: int := 90
  const GridHeight: int := LifespanYears
  const Margin: int := 20
  const TopPad: int := 60
  const BottomPad: int := 60

  /** `W` and `H`: the canvas is 664 by 1200 pixels. */
  const CanvasWidth: int := GridWidth * CellSize + 2 * Margin
  const CanvasHeight: int := GridHeight * CellSize + TopPad + BottomPad
  /** `total`: one cell per week of a 90-year life. */
  const TotalCells: int := GridWidth * GridHeight

  lemma CanvasSize()
    ensures CanvasWidth == 664 && CanvasHeight == 1200 && TotalCells == 4680
  {
  }

  /** A PIL rectangle `[x0, y0, x1, y1]`, both corners included. */
  datatype Rect = Rect(x0: int, y0: int, x1: int, y1: int)

  /** One `draw.rectangle` call of the cell loop: where, and whether it is filled as lived. */
  datatype CellDraw = CellDraw(rect: Rect, lived: bool)

  /** `row = i // GRID_WIDTH`, `col = i % GRID_WIDTH`: every cell has a row below 90 and a column below 52, and they give back its index. */
  function CellRow(i: int): (row: int)
    requires 0 <= i < TotalCells
    ensures 0 <= row < GridHeight
  {
    i / GridWidth
  }

  function CellCol(i: int): (col: int)
    requires 0 <= i < TotalCells
    ensures 0 <= col < GridWidth
    ensures CellRow(i) * GridWidth + col == i
  {
    i % GridWidth
  }

  /**
   * The rectangle of cell `i`, inside the canvas: its corners are 10 pixels
   * apart, and PIL draws both corners, so the square is 11 pixels wide and
   * cells 12 pixels apart leave a 1-pixel gap.
   */
  function CellRect(i: int): (r: Rect)
    requires 0 <= i < TotalCells
    ensures 0 <= r.x0 <= r.x1 < CanvasWidth && 0 <= r.y0 <= r.y1 < CanvasHeight
    ensures r.x1 - r.x0 == CellSize - 2 && r.y1 - r.y0 == CellSize - 2
    ensures Margin <= r.x0 && r.x1 < Margin + GridWidth * CellSize
    ensures TopPad <= r.y0 && r.y1 < TopPad + GridHeight * CellSize
  {
    var x0 := Margin + CellCol(i) * CellSize;
    var y0 := TopPad + CellRow(i) * CellSize;
    Rect(x0, y0, x0 + CellSize - 2, y0 + CellSize - 2)
  }

  predicate Disjoint(a: Rect, b: Rect) {
    a.x1 < b.x0 || b.x1 < a.x0 || a.y1 < b.y0 || b.y1 < a.y0
  }

  /** Different cells never overlap. */
  lemma CellsDisjoint(i: int, j: int)
    requires 0 <= i < TotalCells && 0 <= j < TotalCells && i != j
    ensures Disjoint(CellRect(i), CellRect(j))
  {
    var ri, ci, rj, cj := CellRow(i), CellCol(i), CellRow(j), CellCol(j);
    assert ri != rj || ci != cj;
  }

  /** `lived = min(lived_weeks, total)`: how many of the first cells are drawn as lived. */
  function LivedCells(livedWeeks: int): (n: int)
    ensures n <= TotalCells && n <= livedWeeks
    ensures n == livedWeeks || n == TotalCells
  {
    if livedWeeks < TotalCells then livedWeeks else TotalCells
  }

  /** The cell loop: every cell in row-major order, green exactly when `i < lived`. */
  method LayoutCells(livedWeeks: int) returns (cells: seq<CellDraw>)
    ensures |cells| == TotalCells
    ensures forall i :: 0 <= i < TotalCells ==> cells[i] == CellDraw(CellRect(i), i < LivedCells(livedWeeks))
  {
    var lived := LivedCells(livedWeeks);
    cells := [];
    var i := 0;
    while i < TotalCells
      invariant 0 <= i <= TotalCells && |cells| == i
      invariant forall k :: 0 <= k < i ==> cells[k] == CellDraw(CellRect(k), k < lived)
    {
      var row := i / GridWidth;
      var col := i % GridWidth;
      var x0 := Margin + col * CellSize;
      var y0 := TopPad + row * CellSize;
      var x1 := x0 + CellSize - 2;
      var y1 := y0 + CellSize - 2;
      cells := cells + [CellDraw(Rect(x0, y0, x1, y1), i < lived)];
      i := i + 1;
    }
  }

  function CountLived(cells: seq<CellDraw>): nat {
    if cells == [] then 0 else CountLived(cells[..|cells| - 1]) + (if cells[|cells| - 1].lived then 1 else 0)
  }

  /** Cells marked lived exactly below a bound give that many lived cells. */
  lemma {:induction false} CountLivedPrefix(cells: seq<CellDraw>, n: int)
    requires forall i :: 0 <= i < |cells| ==> (cells[i].lived <==> i < n)
    ensures CountLived(cells) == if n <= 0 then 0 else if n < |cells| then n else |cells|
    decreases |cells|
  {
    if cells != [] {
      CountLivedPrefix(cells[..|cells| - 1], n);
    }
  }

  /**
   * Exactly `min(lived_weeks, 4680)` cells are lived (none for a negative
   * count), and they are the first ones in row-major order.
   */
  lemma LivedCellsArePrefix(livedWeeks: int, cells: seq<CellDraw>)
    requires |cells| == TotalCells
    requires forall i :: 0 <= i < TotalCells ==> cells[i] == CellDraw(CellRect(i), i < LivedCells(livedWeeks))
    ensures CountLived(cells) == if livedWeeks <= 0 then 0 else if livedWeeks < TotalCells then livedWeeks else TotalCells
    ensures forall i, j :: 0 <= i < j < TotalCells && cells[j].lived ==> cells[i].lived
  {
    CountLivedPrefix(cells, LivedCells(livedWeeks));
  }

  // ---------------------------------------------------------------------
  // The five-year marks

  /** One pass of the year loop: the label `str(year)` at a point, and a horizontal line. */
  datatype YearMark = YearMark(year: int, textX: int, textY: int, lineX0: int, lineX1: int, lineY: int)

  function MarkFor(year: int): YearMark {
    var xCenter := Margin + (GridWidth * CellSize) / 2;
    YearMark(year, xCenter - 8, TopPad + year * CellSize + 2, Margin, Margin + GridWidth * CellSize, TopPad + year * CellSize)
  }

  /** `for year in range(5, LIFESPAN_YEARS + 1, 5)`. */
  method YearMarks() returns (marks: seq<YearMark>)
    ensures |marks| == LifespanYears / 5
    ensures forall k :: 0 <= k < |marks| ==> marks[k] == MarkFor(5 * (k + 1))
  {
    marks := [];
    var year := 5;
    while year < LifespanYears + 1
      invariant 5 <= year <= LifespanYears + 5 && year % 5 == 0
      invariant |marks| == year / 5 - 1
      invariant forall k :: 0 <= k < |marks| ==> marks[k] == MarkFor(5 * (k + 1))
    {
      var xCenter := Margin + (GridWidth * CellSize) / 2;
      var yText := TopPad + (year * CellSize) + 2;
      var yLine := TopPad + (year * CellSize);
      marks := marks + [YearMark(year, xCenter - 8, yText, Margin, Margin + GridWidth * CellSize, yLine)];
      year := year + 5;
    }
  }

  /**
   * The mark for year `y` runs across the whole grid along the top edge of
   * row `y` (the bottom edge of the grid for the 90th year), inside the canvas.
   */
  lemma MarkOnRowBoundary(year: int)
    requires 5 <= year <= LifespanYears
    ensures var m := MarkFor(year);
      && m.lineX0 == Margin && m.lineX1 == Margin + GridWidth * CellSize
      && 0 <= m.lineY < CanvasHeight && m.textY == m.lineY + 2
      && (year < GridHeight ==> m.lineY == CellRect(year * GridWidth).y0)
      && (year == GridHeight ==> m.lineY == CellRect(TotalCells - 1).y1 + 2)
  {
  }
}
