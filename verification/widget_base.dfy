/**
 The base every widget shares: its grid position, the screen size its bounds are
 computed for, its pixel bounds, its visibility, and the LVGL container the
 bounds are applied to. The container is a record of the settings the widget
 gives it; None when LVGL did not create one.
 */
module WidgetBase {
  import opened Wrappers
  import opened Machine
  import Configuration
  import Display
  import GridLayout

  const GRID_COLS: int := 12
  const GRID_ROWS: int := 16
  const GRID_PADDING: int := 20
  const GRID_GAP: int := 5

  const DEFAULT_SCREEN_WIDTH: int := 1920
  const DEFAULT_SCREEN_HEIGHT: int := 1080

  datatype GridPos = GridPos(col: int, row: int, colSpan: int, rowSpan: int)

  /** A container dimension: pixels, a percentage of the parent, or sized to the content. */
  datatype Length = Px(px: int) | Pct(pct: int) | SizeContent

  /** The settings the widget gives its LVGL container. */
  datatype Container = Container(x: int, y: int, width: Length, height: Length, hidden: bool, flexGrow: int)

  datatype Widget = Widget(
    gridPos: GridPos,
    screenWidth: int,
    screenHeight: int,
    x: int,
    y: int,
    width: int,
    height: int,
    visible: bool,
    container: Option<Container>)

  /** The container's position and size match the widget's bounds. */
  predicate Placed(w: Widget) {
    w.container.Some? ==> (w.container.value.x == w.x && w.container.value.y == w.y
                           && w.container.value.width == Px(w.width) && w.container.value.height == Px(w.height))
  }

  /**
   The constructor: one cell at the origin of a 1920 x 1080 screen, zero bounds
   until a position is set, visible, with the container LVGL created.
   */
  function NewWidget(created: Option<Container>): (w: Widget)
    ensures w.gridPos == GridPos(0, 0, 1, 1) && w.visible
    ensures w.screenWidth == DEFAULT_SCREEN_WIDTH && w.screenHeight == DEFAULT_SCREEN_HEIGHT
    ensures w.x == w.y == w.width == w.height == 0 && w.container == created
  {
    Widget(GridPos(0, 0, 1, 1), DEFAULT_SCREEN_WIDTH, DEFAULT_SCREEN_HEIGHT, 0, 0, 0, 0, true, created)
  }

  /** The bounds applied to the container, when there is one. */
  function Place(c: Option<Container>, x: int, y: int, width: int, height: int): (r: Option<Container>)
    ensures r.Some? <==> c.Some?
    ensures r.Some? ==> r.value == c.value.(x := x, y := y, width := Px(width), height := Px(height))
  {
    if c.None? then None else Some(c.value.(x := x, y := y, width := Px(width), height := Px(height)))
  }

  /** The grid the widget positions itself on. */
  const WIDGET_GRID: Configuration.Grid := Configuration.Grid(GRID_COLS, GRID_ROWS, GRID_PADDING, GRID_PADDING, GRID_GAP, GRID_GAP)

  /**
   UpdateBounds: the cell size of the widget's grid on the current screen, and the
   rectangle of its grid position, applied to the container.
   */
  function UpdateBounds(w: Widget): (v: Widget)
    ensures Placed(v)
    ensures v.gridPos == w.gridPos && v.screenWidth == w.screenWidth && v.screenHeight == w.screenHeight
    ensures v.visible == w.visible && (v.container.Some? <==> w.container.Some?)
  {
    var usableWidth := w.screenWidth - 2 * GRID_PADDING - (GRID_COLS - 1) * GRID_GAP;
    var usableHeight := w.screenHeight - 2 * GRID_PADDING - (GRID_ROWS - 1) * GRID_GAP;
    var cellWidth := CDiv(usableWidth, GRID_COLS);
    var cellHeight := CDiv(usableHeight, GRID_ROWS);
    var x := GRID_PADDING + w.gridPos.col * (cellWidth + GRID_GAP);
    var y := GRID_PADDING + w.gridPos.row * (cellHeight + GRID_GAP);
    var width := w.gridPos.colSpan * cellWidth + (w.gridPos.colSpan - 1) * GRID_GAP;
    var height := w.gridPos.rowSpan * cellHeight + (w.gridPos.rowSpan - 1) * GRID_GAP;
    w.(x := x, y := y, width := width, height := height, container := Place(w.container, x, y, width, height))
  }

  /** The widget's bounds are the rectangle the layout grid gives its cell and span. */
  lemma {:induction false} BoundsAreGridCell(w: Widget)
    ensures var v := UpdateBounds(w);
            var g := GridLayout.NewLayout(w.screenWidth, w.screenHeight, WIDGET_GRID);
            Display.Rect(v.x, v.y, v.width, v.height)
            == GridLayout.GetCellRect(g, w.gridPos.col, w.gridPos.row, w.gridPos.colSpan, w.gridPos.rowSpan)
  {
  }

  /** On the default screen a cell is 152 x 60 pixels. */
  lemma {:induction false} DefaultScreenCells()
    ensures var g := GridLayout.NewLayout(DEFAULT_SCREEN_WIDTH, DEFAULT_SCREEN_HEIGHT, WIDGET_GRID);
            g.cellWidth == 152 && g.cellHeight == 60
  {
  }

  /** SetGridPosition: records the position and recomputes the bounds. */
  function SetGridPosition(w: Widget, col: int, row: int, colSpan: int, rowSpan: int): (v: Widget)
    ensures v.gridPos == GridPos(col, row, colSpan, rowSpan) && Placed(v)
    ensures v.screenWidth == w.screenWidth && v.screenHeight == w.screenHeight && v.visible == w.visible
  {
    UpdateBounds(w.(gridPos := GridPos(col, row, colSpan, rowSpan)))
  }

  /** SetScreenSize: records the screen size and recomputes the bounds. */
  function SetScreenSize(w: Widget, width: int, height: int): (v: Widget)
    ensures v.screenWidth == width && v.screenHeight == height && Placed(v)
    ensures v.gridPos == w.gridPos && v.visible == w.visible
  {
    UpdateBounds(w.(screenWidth := width, screenHeight := height))
  }

  /** Setting the grid position and the screen size in either order places the widget alike. */
  lemma {:induction false} PositionAndSizeCommute(w: Widget, col: int, row: int, colSpan: int, rowSpan: int,
                                                  width: int, height: int)
    ensures SetScreenSize(SetGridPosition(w, col, row, colSpan, rowSpan), width, height)
            == SetGridPosition(SetScreenSize(w, width, height), col, row, colSpan, rowSpan)
  {
  }

  /** SetAbsolutePosition: the bounds are stored exactly as given and applied to the container. */
  function SetAbsolutePosition(w: Widget, x: int, y: int, width: int, height: int): (v: Widget)
    ensures v.x == x && v.y == y && v.width == width && v.height == height && Placed(v)
    ensures v.gridPos == w.gridPos && v.screenWidth == w.screenWidth && v.screenHeight == w.screenHeight
    ensures v.visible == w.visible
  {
    w.(x := x, y := y, width := width, height := height, container := Place(w.container, x, y, width, height))
  }

  /** An absolute position lasts until the grid position or screen size is set again, which overrides it. */
  lemma {:induction false} GridOverridesAbsolute(w: Widget, x: int, y: int, width: int, height: int, sw: int, sh: int)
    ensures SetScreenSize(SetAbsolutePosition(w, x, y, width, height), sw, sh) == SetScreenSize(w, sw, sh)
  {
  }

  /** SetContentSize: the container takes the full width of its parent and the height of its content. */
  function SetContentSize(w: Widget): (v: Widget)
    ensures v.container.Some? <==> w.container.Some?
    ensures v.container.Some? ==> v.container.value.width == Pct(100) && v.container.value.height == SizeContent
    ensures v.(container := w.container) == w
  {
    if w.container.None? then w
    else w.(container := Some(w.container.value.(width := Pct(100), height := SizeContent)))
  }

  /** SetFillHeight: the container takes the full width and grows to fill the column it sits in. */
  function SetFillHeight(w: Widget): (v: Widget)
    ensures v.container.Some? <==> w.container.Some?
    ensures v.container.Some? ==> v.container.value.width == Pct(100) && v.container.value.flexGrow == 1
    ensures v.container.Some? ==> v.container.value.height == w.container.value.height
    ensures v.(container := w.container) == w
  {
    if w.container.None? then w
    else w.(container := Some(w.container.value.(width := Pct(100), flexGrow := 1)))
  }

  /** SetVisible: records the flag and hides or shows the container; nothing else changes. */
  function SetVisible(w: Widget, visible: bool): (v: Widget)
    ensures v.visible == visible
    ensures v.container.Some? <==> w.container.Some?
    ensures v.container.Some? ==> v.container.value == w.container.value.(hidden := !visible)
    ensures v.(visible := w.visible, container := w.container) == w
  {
    var c := if w.container.None? then None else Some(w.container.value.(hidden := !visible));
    w.(visible := visible, container := c)
  }

  /** Visibility changes are idempotent, and the last one wins. */
  lemma {:induction false} SetVisibleLastWins(w: Widget, a: bool, b: bool)
    ensures SetVisible(SetVisible(w, a), b) == SetVisible(w, b)
  {
  }
}
