/** A workspace: a strip of columns with a focus, and a list of floating windows.
    Scrolling, minimizing and placement are not part of this model. */
module Workspaces {
  import opened Prelude
  import opened Columns

  datatype Rect = Rect(x: int, y: int, width: int, height: int)

  datatype Floating = Floating(id: WindowId, rect: Rect, pinned: bool)

  datatype Workspace = Workspace(
    columns: seq<ColumnState>, focusedColumn: nat, focusedWindow: nat,
    floating: seq<Floating>, defaultWidth: int)

  datatype LayoutError = ColumnOutOfBounds | WindowNotFound | DuplicateWindow

  // ----------------------------------------------------------------- queries

  function FindColumn(cols: seq<ColumnState>, w: WindowId): (r: Option<nat>)
    ensures match r
            case Some(c) => c < |cols| && w in cols[c].windows && forall k :: 0 <= k < c ==> w !in cols[k].windows
            case None => forall k :: 0 <= k < |cols| ==> w !in cols[k].windows
  {
    if cols == [] then None
    else if w in cols[0].windows then Some(0)
    else
      match FindColumn(cols[1..], w)
      case None => None
      case Some(c) => Some(c + 1)
  }

  function FindFloating(floats: seq<Floating>, w: WindowId): (r: Option<nat>)
    ensures match r
            case Some(i) => i < |floats| && floats[i].id == w
            case None => forall k :: 0 <= k < |floats| ==> floats[k].id != w
  {
    if floats == [] then None
    else if floats[0].id == w then Some(0)
    else
      match FindFloating(floats[1..], w)
      case None => None
      case Some(i) => Some(i + 1)
  }

  predicate IsFloating(ws: Workspace, w: WindowId) { FindFloating(ws.floating, w).Some? }

  predicate Contains(ws: Workspace, w: WindowId) { FindColumn(ws.columns, w).Some? || IsFloating(ws, w) }

  // -------------------------------------------------------------- operations

  function Clamped(ws: Workspace): Workspace {
    if ws.columns == [] then ws.(focusedColumn := 0, focusedWindow := 0)
    else
      var fc := Min(ws.focusedColumn, |ws.columns| - 1);
      var n := |ws.columns[fc].windows|;
      ws.(focusedColumn := fc, focusedWindow := if n == 0 then 0 else Min(ws.focusedWindow, n - 1))
  }

  /** The focused column's active tab follows the focus. */
  function Synced(ws: Workspace): Workspace {
    if ws.focusedColumn < |ws.columns| then
      var tab := SetActiveTab(ws.focusedWindow);
      ws.(columns := ws.columns[ws.focusedColumn := Apply(ws.columns[ws.focusedColumn], tab)])
    else ws
  }

  function Inserted<T>(s: seq<T>, i: nat, x: T): seq<T> {
    if i <= |s| then s[..i] + [x] + s[i..] else s + [x]
  }

  function WidthOr(ws: Workspace, width: Option<int>): int {
    Max(if width.Some? then width.value else ws.defaultWidth, MIN_COLUMN_WIDTH)
  }

  /** A new column right of the focused one, focused. */
  function InsertWindow(ws: Workspace, w: WindowId, width: Option<int>): Result<Workspace, LayoutError> {
    if Contains(ws, w) then Err(DuplicateWindow)
    else
      var col := NewColumn(w, WidthOr(ws, width));
      var at := if ws.columns == [] then 0 else ws.focusedColumn + 1;
      Ok(ws.(columns := Inserted(ws.columns, at, col), focusedColumn := at, focusedWindow := 0))
  }

  /** A new column at `index`, clamped, focused. */
  function InsertAtColumn(ws: Workspace, w: WindowId, width: Option<int>, index: nat): Result<Workspace, LayoutError> {
    if Contains(ws, w) then Err(DuplicateWindow)
    else
      var at := Min(index, |ws.columns|);
      var cols := Inserted(ws.columns, at, NewColumn(w, WidthOr(ws, width)));
      Ok(ws.(columns := cols, focusedColumn := at, focusedWindow := 0))
  }

  /** Stacks at the bottom of column `c`; the focus does not move. */
  function InsertInColumn(ws: Workspace, w: WindowId, c: nat): Result<Workspace, LayoutError> {
    if Contains(ws, w) then Err(DuplicateWindow)
    else if c >= |ws.columns| then Err(ColumnOutOfBounds)
    else Ok(ws.(columns := ws.columns[c := Apply(ws.columns[c], Add(w))]))
  }

  /** The focused column once column `c` is gone and `left` columns remain. */
  function FocusAfter(fc: nat, c: nat, left: nat): nat {
    if left == 0 then 0
    else if fc >= left then left - 1
    else if fc > c then fc - 1
    else fc
  }

  /** The focused row once the window at `row` is gone from the focused column and `left` remain. */
  function RowAfter(fw: nat, row: nat, left: nat): nat {
    if row < fw then fw - 1 else if row == fw && left > 0 then Min(fw, left - 1) else fw
  }

  function RemoveWindow(ws: Workspace, w: WindowId): Result<Workspace, LayoutError> {
    match FindColumn(ws.columns, w)
    case None => Err(WindowNotFound)
    case Some(c) =>
      var row := Position(ws.columns[c].windows, w).value;
      var col := Apply(ws.columns[c], Remove(w));
      if col.windows == [] then
        var cols := Without(ws.columns, c);
        Ok(Synced(Clamped(ws.(columns := cols, focusedColumn := FocusAfter(ws.focusedColumn, c, |cols|),
                              focusedWindow := if cols == [] then 0 else ws.focusedWindow))))
      else
        var fw := if c != ws.focusedColumn then ws.focusedWindow else RowAfter(ws.focusedWindow, row, |col.windows|);
        Ok(Synced(Clamped(ws.(columns := ws.columns[c := col], focusedWindow := fw))))
  }

  function FocusWindow(ws: Workspace, w: WindowId): Workspace {
    match FindColumn(ws.columns, w)
    case None => ws
    case Some(c) => Synced(ws.(focusedColumn := c, focusedWindow := Position(ws.columns[c].windows, w).value))
  }

  function AddFloating(ws: Workspace, w: WindowId, rect: Rect): Result<Workspace, LayoutError> {
    if Contains(ws, w) then Err(DuplicateWindow)
    else Ok(ws.(floating := ws.floating + [Floating(w, rect, false)]))
  }

  function RemoveFloating(ws: Workspace, w: WindowId): Workspace {
    match FindFloating(ws.floating, w)
    case None => ws
    case Some(i) => ws.(floating := Without(ws.floating, i))
  }

  // --------------------------------------------------------------- soundness

  ghost predicate SoundColumn(col: ColumnState) {
    col.windows != [] && WellFormed(col) && col.width >= MIN_COLUMN_WIDTH
  }

  predicate Absent(cols: seq<ColumnState>, w: WindowId) { forall c :: 0 <= c < |cols| ==> w !in cols[c].windows }

  ghost predicate SoundColumns(cols: seq<ColumnState>) {
    && (forall c :: 0 <= c < |cols| ==> SoundColumn(cols[c]))
    && (forall c, d, w :: (0 <= c < |cols| && 0 <= d < |cols| && c != d
                             && w in cols[c].windows) ==> w !in cols[d].windows)
  }

  ghost predicate SoundFloats(floats: seq<Floating>, cols: seq<ColumnState>) {
    && (forall i, j :: 0 <= i < j < |floats| ==> floats[i].id != floats[j].id)
    && (forall i, c :: 0 <= i < |floats| && 0 <= c < |cols| ==> floats[i].id !in cols[c].windows)
  }

  /** The focus is on a window of the strip, if the strip has one. */
  predicate Focused(ws: Workspace) {
    ws.columns != [] ==> ws.focusedColumn < |ws.columns| && ws.focusedWindow < |ws.columns[ws.focusedColumn].windows|
  }

  /** Columns are non-empty and wide enough, ids are unique, and the focus is on a window. */
  ghost predicate Sound(ws: Workspace) {
    SoundColumns(ws.columns) && SoundFloats(ws.floating, ws.columns) && Focused(ws)
  }

  // -------------------------------------------------------------- what counts

  /** A column's place in the layout: its width and its windows from top to bottom. */
  datatype Shape = Shape(width: int, windows: seq<WindowId>)

  function ShapeOf(c: ColumnState): Shape { Shape(c.width, c.windows) }

  function Shapes(ws: Workspace): seq<Shape> { ShapesOf(ws.columns) }

  function ShapesOf(cols: seq<ColumnState>): seq<Shape> {
    seq(|cols|, i requires 0 <= i < |cols| => ShapeOf(cols[i]))
  }

  lemma SyncedShapes(ws: Workspace)
    ensures Shapes(Synced(ws)) == Shapes(ws) && Synced(ws).floating == ws.floating
  {}

  lemma ClampedShapes(ws: Workspace)
    ensures Shapes(Clamped(ws)) == Shapes(ws) && Clamped(ws).floating == ws.floating
  {}

  lemma FocusShapes(ws: Workspace, w: WindowId)
    ensures Shapes(FocusWindow(ws, w)) == Shapes(ws) && FocusWindow(ws, w).floating == ws.floating
  {
    var f := FindColumn(ws.columns, w);
    if f.Some? {
      SyncedShapes(ws.(focusedColumn := f.value, focusedWindow := Position(ws.columns[f.value].windows, w).value));
    }
  }

  /** Removing a window drops its lone column or takes it out of its stack; nothing else in the
      layout changes. */
  lemma RemoveShapes(ws: Workspace, w: WindowId)
    ensures
      match FindColumn(ws.columns, w)
      case None => RemoveWindow(ws, w).Err?
      case Some(c) =>
        var col := ws.columns[c];
        var row := Position(col.windows, w).value;
        && RemoveWindow(ws, w).Ok?
        && RemoveWindow(ws, w).value.floating == ws.floating
        && RemoveWindow(ws, w).value.defaultWidth == ws.defaultWidth
        && Shapes(RemoveWindow(ws, w).value) ==
             if |col.windows| == 1 then Without(Shapes(ws), c)
             else Shapes(ws)[c := Shape(col.width, Without(col.windows, row))]
  {
    var f := FindColumn(ws.columns, w);
    if f.Some? {
      var c := f.value;
      var col := Apply(ws.columns[c], Remove(w));
      ColumnRemoved(ws.columns[c], w);
      ColumnsRemoved(ws.columns, c, col);
      hide Apply;
      RemovedThroughFocus(ws, w, if col.windows == [] then Without(ws.columns, c) else ws.columns[c := col]);
    }
  }

  lemma ColumnRemoved(col: ColumnState, w: WindowId)
    requires w in col.windows
    ensures ShapeOf(Apply(col, Remove(w))) == Shape(col.width, Without(col.windows, Position(col.windows, w).value))
  {}

  lemma ColumnsRemoved(cols: seq<ColumnState>, c: nat, col: ColumnState)
    requires c < |cols|
    ensures ShapesOf(Without(cols, c)) == Without(ShapesOf(cols), c)
    ensures ShapesOf(cols[c := col]) == ShapesOf(cols)[c := ShapeOf(col)]
  {}

  /** The focus work after a removal leaves the layout alone. */
  lemma RemovedThroughFocus(ws: Workspace, w: WindowId, cols: seq<ColumnState>)
    requires FindColumn(ws.columns, w).Some?
    requires
      var c := FindColumn(ws.columns, w).value;
      var col := Apply(ws.columns[c], Remove(w));
      cols == if col.windows == [] then Without(ws.columns, c) else ws.columns[c := col]
    ensures RemoveWindow(ws, w).Ok?
    ensures Shapes(RemoveWindow(ws, w).value) == ShapesOf(cols)
    ensures RemoveWindow(ws, w).value.floating == ws.floating
    ensures RemoveWindow(ws, w).value.defaultWidth == ws.defaultWidth
  {
    var r := RemoveWindow(ws, w).value;
    forall fc: nat, fw: nat
      ensures Shapes(Synced(Clamped(ws.(columns := cols, focusedColumn := fc, focusedWindow := fw)))) == ShapesOf(cols)
    {
      ClampedShapes(ws.(columns := cols, focusedColumn := fc, focusedWindow := fw));
      SyncedShapes(Clamped(ws.(columns := cols, focusedColumn := fc, focusedWindow := fw)));
    }
  }
}
