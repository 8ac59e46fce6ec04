/** The round trip down to height weights and active tabs: which columns come back exactly. */
module MoveExact {
  import opened Prelude
  import opened Columns
  import opened Workspaces
  import opened WorkspaceSoundness
  import opened MoveWindow
  import opened MoveRoundTrip
  import opened MoveRollback

  // ----------------------------------------------------------------- the visit

  /** A column with `w` stacked at its bottom and focused. */
  function Hosting(col: ColumnState, w: WindowId): ColumnState {
    Apply(Apply(col, Add(w)), SetActiveTab(|col.windows|))
  }

  /** The focused row of a window that has just arrived. */
  function ArrivalRow(b: Workspace, landing: Landing): nat
    requires CanLand(b, landing)
  {
    if landing.Stack? then |b.columns[landing.column].windows| else 0
  }

  /** The columns of a workspace with `w` arrived and focused. */
  function ColumnsWith(b: Workspace, w: WindowId, width: int, landing: Landing): seq<ColumnState>
    requires CanLand(b, landing)
  {
    if landing.Stack? then b.columns[landing.column := Hosting(b.columns[landing.column], w)]
    else Inserted(b.columns, LandingColumn(b, landing), NewColumn(w, Max(width, MIN_COLUMN_WIDTH)))
  }

  lemma ArrivedAt(b: Workspace, w: WindowId, width: int, landing: Landing)
    requires Sound(b) && !Contains(b, w) && CanLand(b, landing)
    ensures Arrive(b, w, Some(width), landing).Ok?
    ensures
      var arrived := Arrive(b, w, Some(width), landing).value;
      var k := LandingColumn(b, landing);
      && FindColumn(arrived.columns, w) == Some(k)
      && Position(arrived.columns[k].windows, w) == Some(ArrivalRow(b, landing))
  {
    var k := LandingColumn(b, landing);
    var arrived := Arrive(b, w, Some(width), landing).value;
    ArriveShapes(b, w, Some(width), landing);
    assert Shapes(arrived) == Grown(Shapes(b), k, landing.Stack?, w, LandedWidth(b, width, landing));
    ShapesHold(b, w);
    hide Arrive, Sound;
    GrownSitsLast(Shapes(b), k, landing.Stack?, w, LandedWidth(b, width, landing), arrived);
    LeavesLast(arrived, Shapes(arrived), k, w);
    assert ShapeOf(arrived.columns[k]) == Shapes(arrived)[k];
    if landing.Stack? {
      assert w !in Shapes(b)[k].windows;
      LastPosition(b.columns[k].windows, w);
    } else {
      assert arrived.columns[k].windows == [w];
    }
  }

  lemma LoneTabStays(w: WindowId, width: int)
    ensures Apply(NewColumn(w, width), SetActiveTab(0)) == NewColumn(w, width)
  {}

  /** The whole strip, and the focus, of the workspace a window has just been moved to. */
  lemma VisitedColumns(b: Workspace, w: WindowId, width: int, landing: Landing)
    requires Sound(b) && !Contains(b, w) && CanLand(b, landing)
    ensures
      var there := Visited(b, w, width, landing);
      && there.columns == ColumnsWith(b, w, width, landing)
      && there.focusedColumn == LandingColumn(b, landing) && there.focusedWindow == ArrivalRow(b, landing)
  {
    ArrivedAt(b, w, width, landing);
    hide Sound, Apply, FindColumn, Position, NewColumn;
    LoneTabStays(w, Max(width, MIN_COLUMN_WIDTH));
    LoneTabStays(w, width);
    WiderNew(w, width);
  }

  lemma WiderNew(w: WindowId, width: int)
    ensures NewColumn(w, Max(width, MIN_COLUMN_WIDTH)) == NewColumn(w, width)
  {}

  /** A column that hosted a window: what adding, focusing, removing and focusing leave of it. */
  function Hosted(col: ColumnState, w: WindowId): ColumnState {
    var n := |col.windows|;
    Apply(Apply(Hosting(col, w), Remove(w)), SetActiveTab(if n == 0 then 0 else n - 1))
  }

  /** The columns of a workspace that `w` visited. */
  function ColumnsAfterVisit(b: Workspace, w: WindowId, landing: Landing): seq<ColumnState>
    requires CanLand(b, landing)
  {
    var k := LandingColumn(b, landing);
    if landing.Stack? then b.columns[k := Hosted(b.columns[k], w)]
    else Resynced(b.columns, FocusAfter(k, k, |b.columns|), 0)
  }

  lemma HostingWindows(col: ColumnState, w: WindowId)
    ensures Hosting(col, w).windows == col.windows + [w]
  {}

  lemma LoneVisit(b: Workspace, there: Workspace, w: WindowId, width: int, k: nat)
    requires k <= |b.columns| && (forall c :: 0 <= c < |b.columns| ==> b.columns[c].windows != [])
    requires there.columns == Inserted(b.columns, k, NewColumn(w, width))
    requires there.focusedColumn == k && there.focusedWindow == 0 && FindColumn(there.columns, w) == Some(k)
    ensures RemoveWindow(there, w).Ok?
    ensures RemoveWindow(there, w).value.columns == Resynced(b.columns, FocusAfter(k, k, |b.columns|), 0)
  {
    WithoutInserted(b.columns, k, NewColumn(w, width));
    assert there.columns[k].windows == [w];
    LoneUnfolds(there, w);
    hide RemoveWindow, Synced, Clamped, Inserted, Without, NewColumn;
    SettledColumns(there.(columns := b.columns, focusedColumn := FocusAfter(k, k, |b.columns|), focusedWindow := 0));
  }

  lemma StackedVisit(b: Workspace, there: Workspace, w: WindowId, k: nat)
    requires k < |b.columns| && b.columns[k].windows != [] && w !in b.columns[k].windows
    requires there.columns == b.columns[k := Hosting(b.columns[k], w)]
    requires there.focusedColumn == k && there.focusedWindow == |b.columns[k].windows|
    requires FindColumn(there.columns, w) == Some(k)
    ensures RemoveWindow(there, w).Ok?
    ensures RemoveWindow(there, w).value.columns == b.columns[k := Hosted(b.columns[k], w)]
  {
    var col, n := b.columns[k], |b.columns[k].windows|;
    HostingWindows(col, w);
    LastPosition(col.windows, w);
    StackedUnfolds(there, w);
    StackedRemoval(Hosting(col, w), w);
    hide RemoveWindow, Synced, Clamped, Apply, Hosting, Without;
    var cols := there.columns[k := Apply(there.columns[k], Remove(w))];
    assert cols == b.columns[k := Apply(Hosting(col, w), Remove(w))];
    SettledColumns(there.(columns := cols, focusedWindow := n - 1));
    assert Resynced(cols, k, n - 1) == b.columns[k := Hosted(col, w)];
  }

  /** The whole strip of a workspace that a window visited and left. */
  lemma VisitColumns(b: Workspace, w: WindowId, width: int, landing: Landing)
    requires Sound(b) && !Contains(b, w) && CanLand(b, landing)
    ensures
      var there := Visited(b, w, width, landing);
      RemoveWindow(there, w).Ok? && RemoveWindow(there, w).value.columns == ColumnsAfterVisit(b, w, landing)
  {
    hide Visited, RemoveWindow, Hosting, Hosted;
    var there := Visited(b, w, width, landing);
    VisitedColumns(b, w, width, landing);
    VisitLeavesNoTrace(b, w, width, landing);
    forall c | 0 <= c < |b.columns| ensures b.columns[c].windows != [] { assert SoundColumn(b.columns[c]); }
    var k := LandingColumn(b, landing);
    if landing.Stack? {
      StackedVisit(b, there, w, k);
    } else {
      InRange(b);
      LoneVisit(b, there, w, Max(width, MIN_COLUMN_WIDTH), k);
    }
  }

  lemma InRange(b: Workspace)
    requires Sound(b)
    ensures b.columns != [] ==> b.focusedColumn < |b.columns|
  {}

  // ------------------------------------------------------------ when it is exact

  /** Equal shares of one window more, with the last taken away again. */
  function Levelled(n: nat): seq<real> { Normalized(Without(Equal(n + 1), n)) }

  /** A column hosts a window without a trace exactly if its heights are levelled and its tabs, if it
      has any, are on its last window. */
  predicate HostsExactly(col: ColumnState) {
    var n := |col.windows|;
    col.weights == Levelled(n) && (col.mode.Tabbed? ==> n > 1 && col.mode.active == n - 1)
  }

  lemma HostedParts(col: ColumnState, w: WindowId)
    requires WellFormed(col) && col.windows != [] && w !in col.windows
    ensures
      var n := |col.windows|;
      var r := Hosted(col, w);
      && r.width == col.width && r.windows == col.windows && r.weights == Levelled(n)
      && r.mode == if col.mode.Tabbed? && n > 1 then Tabbed(n - 1) else Vertical
  {
    var n := |col.windows|;
    LastPosition(col.windows, w);
    assert Without(col.windows + [w], n) == col.windows;
    hide Normalized, Equal;
  }

  lemma HostedExact(col: ColumnState, w: WindowId)
    requires WellFormed(col) && col.windows != [] && w !in col.windows
    ensures Hosted(col, w) == col <==> HostsExactly(col)
  {
    hide Hosted, Levelled;
    HostedParts(col, w);
  }

  /** Whether a visit leaves every column of the visited workspace as it was. */
  predicate VisitIsExact(b: Workspace, landing: Landing)
    requires CanLand(b, landing)
  {
    var k := LandingColumn(b, landing);
    if landing.Stack? then HostsExactly(b.columns[k])
    else
      var f := FocusAfter(k, k, |b.columns|);
      f < |b.columns| ==> TabFollows(b.columns[f], 0)
  }

  lemma VisitExact(b: Workspace, w: WindowId, landing: Landing)
    requires Sound(b) && !Contains(b, w) && CanLand(b, landing)
    ensures ColumnsAfterVisit(b, w, landing) == b.columns <==> VisitIsExact(b, landing)
  {
    var k := LandingColumn(b, landing);
    hide Hosted, HostsExactly, TabFollows, Resynced;
    if landing.Stack? {
      assert SoundColumn(b.columns[k]);
      ShapesHold(b, w);
      assert w !in Shapes(b)[k].windows;
      HostedExact(b.columns[k], w);
    } else {
      ResyncExact(b.columns, FocusAfter(k, k, |b.columns|), 0);
    }
  }

  // ---------------------------------------------------------------- the return

  lemma HostedAgainParts(col: ColumnState, less: ColumnState, w: WindowId, row: nat, sync: Option<nat>)
    requires |less.windows| == |col.windows| - 1 > 0 && row < |col.windows|
    requires less.mode == RejoinedMode(col.mode, |col.windows|, row, None)
    requires col.mode.Tabbed? ==> col.mode.active < |col.windows|
    ensures
      var n := |col.windows|;
      var back := Hosting(TabSet(less, sync), w);
      && back.width == less.width && back.windows == less.windows + [w] && back.weights == Equal(n)
      && back.mode == if col.mode.Tabbed? && n > 2 then Tabbed(n - 1) else Vertical
  {
    RejoinedParts(col, less, w, row, sync);
    hide Equal;
  }

  /** A stacked window that comes back restores its column exactly if it was last, heights were equal,
      and the tabs, if any, were on it and outlive its absence. */
  predicate RejoinsExactly(col: ColumnState, w: WindowId) {
    var n := |col.windows|;
    && n > 0 && col.windows[n - 1] == w && col.weights == Equal(n)
    && (col.mode.Tabbed? ==> n > 2 && col.mode.active == n - 1)
  }

  lemma HostedAgainExact(col: ColumnState, w: WindowId, sync: Option<nat>)
    requires WellFormed(col) && w in col.windows && |col.windows| > 1
    ensures Hosting(TabSet(Apply(col, Remove(w)), sync), w) == col <==> RejoinsExactly(col, w)
  {
    var row := Position(col.windows, w).value;
    RemovedParts(col, w);
    HostedAgainParts(col, Apply(col, Remove(w)), w, row, sync);
    Bottomed(col.windows, row);
    LastRow(col.windows, w);
    hide Apply, Without, Equal, Hosting, TabSet, RejoinedMode;
  }

  lemma HostBackExact(cols: seq<ColumnState>, c: nat, less: ColumnState, fc: nat, fw: nat, w: WindowId)
    requires c < |cols|
    ensures
      var left := Resynced(cols[c := less], fc, fw);
      c < |left| &&
      (left[c := Hosting(left[c], w)] == cols <==>
         && Hosting(if fc == c then Apply(less, SetActiveTab(fw)) else less, w) == cols[c]
         && (fc != c && fc < |cols| ==> Apply(cols[fc], SetActiveTab(fw)) == cols[fc]))
  {
    hide Apply, Hosting;
    var left := Resynced(cols[c := less], fc, fw);
    var back := left[c := Hosting(left[c], w)];
    assert forall k :: 0 <= k < |cols| ==>
      back[k] == if k == c then Hosting(if fc == c then Apply(less, SetActiveTab(fw)) else less, w)
                 else if k == fc then Apply(cols[fc], SetActiveTab(fw)) else cols[k];
  }

  /** Whether `w`, back with a column `width` wide, restores every column of the workspace it left. */
  predicate ReturnIsExact(a: Workspace, w: WindowId, width: int)
    requires FindColumn(a.columns, w).Some?
  {
    var c := FindColumn(a.columns, w).value;
    var fc, fw := a.focusedColumn, a.focusedWindow;
    if |a.columns[c].windows| == 1 then
      var others, next := Without(a.columns, c), FocusAfter(fc, c, |a.columns| - 1);
      a.columns[c] == NewColumn(w, width) && (next < |others| ==> TabFollows(others[next], fw))
    else
      RejoinsExactly(a.columns[c], w) && (c != fc && fc < |a.columns| ==> TabFollows(a.columns[fc], fw))
  }

  /** The workspace `w` left, with `w` back at the home landing. */
  function Returned(a: Workspace, w: WindowId, width: int): Workspace
    requires FindColumn(a.columns, w).Some? && RemoveWindow(a, w).Ok?
  {
    var c := FindColumn(a.columns, w).value;
    var left := RemoveWindow(a, w).value;
    Visited(left, w, width, HomeLanding(left, c, FirstOther(a.columns[c].windows, w)))
  }

  lemma ReturnedColumns(a: Workspace, w: WindowId, width: int)
    requires Sound(a) && FindColumn(a.columns, w).Some?
    ensures RemoveWindow(a, w).Ok?
    ensures
      var c := FindColumn(a.columns, w).value;
      var left := RemoveWindow(a, w).value.columns;
      if |a.columns[c].windows| == 1
      then c <= |left| && Returned(a, w, width).columns == Inserted(left, c, NewColumn(w, Max(width, MIN_COLUMN_WIDTH)))
      else c < |left| && Returned(a, w, width).columns == left[c := Hosting(left[c], w)]
  {
    hide RemoveWindow, Visited, Sound, Hosting;
    var c := FindColumn(a.columns, w).value;
    RemoveShapes(a, w);
    var left := RemoveWindow(a, w).value;
    assert |Shapes(left)| == |left.columns| && |Shapes(a)| == |a.columns|;
    RemovedGone(a, w);
    RemoveSound(a, w);
    SiblingStays(a, w);
    VisitedColumns(left, w, width, HomeLanding(left, c, FirstOther(a.columns[c].windows, w)));
  }

  lemma LoneReturn(a: Workspace, w: WindowId, width: int, c: nat)
    requires Sound(a) && FindColumn(a.columns, w) == Some(c) && |a.columns[c].windows| == 1
    ensures RemoveWindow(a, w).Ok?
    ensures Inserted(RemoveWindow(a, w).value.columns, c, NewColumn(w, width)) == a.columns <==>
            ReturnIsExact(a, w, width)
  {
    var cols, next := Without(a.columns, c), FocusAfter(a.focusedColumn, c, |a.columns| - 1);
    LoneLeft(a, w);
    hide RemoveWindow, Sound, Resynced, TabFollows, Inserted;
    ResyncedLength(cols, next, a.focusedWindow);
    ReinsertExact(a.columns, Resynced(cols, next, a.focusedWindow), c, NewColumn(w, width));
    ResyncExact(cols, next, a.focusedWindow);
  }

  lemma StackedReturn(a: Workspace, w: WindowId, width: int, c: nat)
    requires Sound(a) && FindColumn(a.columns, w) == Some(c) && |a.columns[c].windows| > 1
    ensures RemoveWindow(a, w).Ok? && c < |RemoveWindow(a, w).value.columns|
    ensures
      var left := RemoveWindow(a, w).value.columns;
      left[c := Hosting(left[c], w)] == a.columns <==> ReturnIsExact(a, w, width)
  {
    var col, fc, fw := a.columns[c], a.focusedColumn, a.focusedWindow;
    assert SoundColumn(col);
    FocusedRows(a);
    hide RemoveWindow, Sound, Resynced, TabFollows, RejoinsExactly, Apply, Hosting, Without, RowAfter, WellFormed;
    hide FindColumn, Position, TabSet;
    StackedLeft(a, w);
    var fw' := if c == fc then RowAfter(fw, Position(col.windows, w).value, |col.windows| - 1) else fw;
    HostBackExact(a.columns, c, Apply(col, Remove(w)), fc, fw', w);
    HostedAgainExact(col, w, if c == fc then Some(fw') else None);
    FollowingTabStays(a.columns[fc], fw);
  }

  lemma ReturnExact(a: Workspace, w: WindowId, width: int)
    requires Sound(a) && FindColumn(a.columns, w).Some?
    ensures RemoveWindow(a, w).Ok?
    ensures Returned(a, w, width).columns == a.columns <==> ReturnIsExact(a, w, width)
  {
    hide RemoveWindow, Returned, ReturnIsExact, Sound, Hosting, NewColumn;
    var c := FindColumn(a.columns, w).value;
    ReturnedColumns(a, w, width);
    WiderNew(w, width);
    if |a.columns[c].windows| == 1 {
      LoneReturn(a, w, width, c);
    } else {
      assert a.columns[c].windows != [];
      StackedReturn(a, w, width, c);
    }
  }

  // ------------------------------------------------------------------ the theorem

  /** Moving a tiled window away and straight back restores every column of both workspaces, windows,
      widths, heights and tabs, exactly under conditions read off the desk before the moves. */
  lemma RoundTripExact(d: Desk, monitor: Monitor, a: nat, b: nat, w: WindowId, blank: Workspace, ok1: bool, ok2: bool)
    requires AllSound(d, blank) && Movable(d, monitor, a, b, w, blank)
    ensures
      var v := Grid(d, monitor, b, blank);
      var landing := ChooseLanding(d.origins, monitor, b, v[b], w);
      var c := FindColumn(v[a].columns, w);
      var back := ThereAndBack(d, monitor, a, b, w, blank, ok1, ok2);
      && c.Some? && CanLand(v[b], landing) && |back| == |v|
      && (back[b].columns == v[b].columns <==> VisitIsExact(v[b], landing))
      && (back[a].columns == v[a].columns <==>
            ReturnIsExact(v[a], w, LandedWidth(v[b], v[a].columns[c.value].width, landing)))
  {
    hide RemoveWindow, Visited, ThereAndBack, ChooseLanding, VisitIsExact, ReturnIsExact, ColumnsAfterVisit, Sound;
    var v := Grid(d, monitor, b, blank);
    var landing := ChooseLanding(d.origins, monitor, b, v[b], w);
    RoundTripIs(d, monitor, a, b, w, blank, ok1, ok2);
    var c := FindColumn(v[a].columns, w).value;
    SoundBoth(d, monitor, a, b, blank);
    VisitColumns(v[b], w, v[a].columns[c].width, landing);
    VisitExact(v[b], w, landing);
    ReturnExact(v[a], w, LandedWidth(v[b], v[a].columns[c].width, landing));
  }

  lemma SoundBoth(d: Desk, monitor: Monitor, a: nat, b: nat, blank: Workspace)
    requires AllSound(d, blank) && monitor in d.spaces && a < |d.spaces[monitor]|
    ensures var v := Grid(d, monitor, b, blank); Sound(v[a]) && Sound(v[b])
  {
    hide Sound;
  }
}
