/**
 The layout grid: the screen less its padding, divided into equal cells separated
 by gaps, and the rectangle a widget covers from its cell and span.
 */
module GridLayout {
  import opened Machine
  import Configuration
  import Display

  /** A grid with the cell size its constructor computes. */
  datatype Layout = Layout(columns: int, rows: int, paddingX: int, paddingY: int,
                           gapX: int, gapY: int, cellWidth: int, cellHeight: int)

  /** C's `/` for any non-zero divisor: the quotient truncated toward zero. */
  function Quot(a: int, b: int): (q: int)
    requires b != 0
    ensures b > 0 ==> q == CDiv(a, b)
    ensures a >= 0 && b > 0 ==> q * b <= a < (q + 1) * b
  {
    if b > 0 then CDiv(a, b) else -CDiv(a, -b)
  }

  /** The space the cells of one dimension share: the extent less both paddings and the gaps between cells. */
  function Available(extent: int, count: int, padding: int, gap: int): int {
    extent - 2 * padding - (count - 1) * gap
  }

  /**
   The grid's constructor: the available width and height divided evenly among
   the columns and rows, rounded toward zero. A grid with no columns or no rows
   divides by zero.
   */
  function NewLayout(width: int, height: int, config: Configuration.Grid): (g: Layout)
    requires config.columns != 0 && config.rows != 0
    ensures g.columns == config.columns && g.rows == config.rows
    ensures g.paddingX == config.paddingX && g.paddingY == config.paddingY
    ensures g.gapX == config.gapX && g.gapY == config.gapY
    ensures var avail := Available(width, config.columns, config.paddingX, config.gapX);
            avail >= 0 && config.columns > 0 ==> g.cellWidth * config.columns <= avail < (g.cellWidth + 1) * config.columns
    ensures var avail := Available(height, config.rows, config.paddingY, config.gapY);
            avail >= 0 && config.rows > 0 ==> g.cellHeight * config.rows <= avail < (g.cellHeight + 1) * config.rows
  {
    Layout(config.columns, config.rows, config.paddingX, config.paddingY, config.gapX, config.gapY,
           Quot(Available(width, config.columns, config.paddingX, config.gapX), config.columns),
           Quot(Available(height, config.rows, config.paddingY, config.gapY), config.rows))
  }

  /** The left edge of column gx, and the width of a span of cells with the gaps inside it. */
  function Offset(padding: int, cell: int, gap: int, index: int): int {
    padding + index * (cell + gap)
  }

  function Extent(cell: int, gap: int, span: int): int {
    span * cell + (span - 1) * gap
  }

  /** GetCellRect: the rectangle of the cell at (gridX, gridY) spanning spanX columns and spanY rows. */
  function GetCellRect(g: Layout, gridX: int, gridY: int, spanX: int, spanY: int): (r: Display.Rect)
    ensures r == Display.Rect(Offset(g.paddingX, g.cellWidth, g.gapX, gridX), Offset(g.paddingY, g.cellHeight, g.gapY, gridY),
                              Extent(g.cellWidth, g.gapX, spanX), Extent(g.cellHeight, g.gapY, spanY))
  {
    Display.Rect(g.paddingX + gridX * (g.cellWidth + g.gapX), g.paddingY + gridY * (g.cellHeight + g.gapY),
                 spanX * g.cellWidth + (spanX - 1) * g.gapX, spanY * g.cellHeight + (spanY - 1) * g.gapY)
  }

  /** Neighbouring cells are exactly one gap apart. */
  lemma {:induction false} NeighboursOneGapApart(g: Layout, gridX: int, gridY: int)
    ensures var a := GetCellRect(g, gridX, gridY, 1, 1);
            var b := GetCellRect(g, gridX + 1, gridY, 1, 1);
            b.x == a.x + a.width + g.gapX && b.y == a.y && b.width == a.width
  {
    assert (gridX + 1) * (g.cellWidth + g.gapX) == gridX * (g.cellWidth + g.gapX) + g.cellWidth + g.gapX;
  }

  /** A span of a + b columns covers a span of a, one gap, and the span of b that follows. */
  lemma {:induction false} SpansAdd(g: Layout, gridX: int, gridY: int, a: int, b: int, spanY: int)
    ensures var whole := GetCellRect(g, gridX, gridY, a + b, spanY);
            var left := GetCellRect(g, gridX, gridY, a, spanY);
            var right := GetCellRect(g, gridX + a, gridY, b, spanY);
            whole.x == left.x && right.x == left.x + left.width + g.gapX
            && whole.width == left.width + g.gapX + right.width
  {
    assert (a + b) * g.cellWidth == a * g.cellWidth + b * g.cellWidth;
    assert (a + b - 1) * g.gapX == (a - 1) * g.gapX + g.gapX + (b - 1) * g.gapX + g.gapX - g.gapX;
    assert (gridX + a) * (g.cellWidth + g.gapX) == gridX * (g.cellWidth + g.gapX) + a * g.cellWidth + a * g.gapX;
  }

  /**
   When the padding and gaps fit the screen, a span ending at the last column
   ends within the right padding, and one more pixel per cell would not fit.
   */
  lemma {:induction false} LastColumnFits(width: int, height: int, config: Configuration.Grid, gridX: int, spanX: int)
    requires config.columns > 0 && config.rows != 0
    requires Available(width, config.columns, config.paddingX, config.gapX) >= 0
    requires 0 <= gridX && 1 <= spanX && gridX + spanX == config.columns
    ensures var g := NewLayout(width, height, config);
            var r := GetCellRect(g, gridX, 0, spanX, 1);
            r.x + r.width <= width - config.paddingX
            && config.paddingX + config.columns * (g.cellWidth + 1) + (config.columns - 1) * config.gapX > width - config.paddingX
  {
    var g := NewLayout(width, height, config);
    var c, gap, n := g.cellWidth, config.gapX, config.columns;
    assert gridX * (c + gap) + spanX * c + (spanX - 1) * gap == n * c + (n - 1) * gap by {
      assert gridX * (c + gap) + spanX * c + (spanX - 1) * gap == (gridX + spanX) * c + (gridX + spanX - 1) * gap;
    }
    assert n * (c + 1) == c * n + n;
  }

  /** The 1920 x 1080 screen with the default grid of 12 columns and 8 rows gives cells of 141 x 114 pixels. */
  lemma {:induction false} DefaultLayoutCells()
    ensures var g := NewLayout(1920, 1080, Configuration.Grid(12, 8, 30, 30, 15, 15));
            g.cellWidth == 141 && g.cellHeight == 114
  {
  }

  /** The cells DrawDebugGrid outlines before it reaches (row, col). */
  predicate DrawnBefore(g: Layout, row: int, col: int, r: int, c: int) {
    0 <= r && 0 <= c < g.columns && (r < row || (r == row && c < col))
  }

  /** On the border of a cell drawn before (row, col). */
  ghost predicate OnDrawnBorder(g: Layout, row: int, col: int, x: int, y: int) {
    exists r, c | DrawnBefore(g, row, col, r, c) :: Display.OnBorder(GetCellRect(g, c, r, 1, 1), x, y)
  }

  /**
   DrawDebugGrid: the outline of every cell, row by row. Only pixels on a cell
   outline can change.
   */
  method DrawDebugGrid(g: Layout, s: Display.Screen, color: Display.Color) returns (t: Display.Screen)
    requires Display.Ready(s)
    ensures Display.Ready(t) && t.width == s.width && t.height == s.height
    ensures forall y, x | Display.OnScreen(s, x, y) && !OnDrawnBorder(g, g.rows, 0, x, y) ::
              t.frame.value[y][x] == s.frame.value[y][x]
    ensures color.a == 0 ==> t == s
  {
    t := s;
    var row := 0;
    while row < g.rows
      invariant 0 <= row && (row <= g.rows || row == 0)
      invariant Display.Ready(t) && t.width == s.width && t.height == s.height
      invariant color.a == 0 ==> t == s
      invariant forall y, x | Display.OnScreen(s, x, y) && !OnDrawnBorder(g, row, 0, x, y) ::
                  t.frame.value[y][x] == s.frame.value[y][x]
    {
      var col := 0;
      while col < g.columns
        invariant 0 <= col && (col <= g.columns || col == 0)
        invariant Display.Ready(t) && t.width == s.width && t.height == s.height
        invariant color.a == 0 ==> t == s
        invariant forall y, x | Display.OnScreen(s, x, y) && !OnDrawnBorder(g, row, col, x, y) ::
                    t.frame.value[y][x] == s.frame.value[y][x]
      {
        var before := t;
        t := Display.DrawRect(t, GetCellRect(g, col, row, 1, 1), color);
        forall y, x | Display.OnScreen(s, x, y) && !OnDrawnBorder(g, row, col + 1, x, y)
          ensures t.frame.value[y][x] == s.frame.value[y][x]
        {
          assert DrawnBefore(g, row, col + 1, row, col);
          assert !OnDrawnBorder(g, row, col, x, y);
        }
        col := col + 1;
      }
      forall y, x | Display.OnScreen(s, x, y) && !OnDrawnBorder(g, row + 1, 0, x, y)
        ensures t.frame.value[y][x] == s.frame.value[y][x]
      {
        assert !OnDrawnBorder(g, row, col, x, y);
      }
      row := row + 1;
    }
  }
}
