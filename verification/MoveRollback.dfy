/** What a refused move leaves behind, down to height weights and active tabs. */
module MoveRollback {
  import opened Prelude
  import opened Columns
  import opened Workspaces
  import opened MoveWindow
  import opened MoveRoundTrip

  // -------------------------------------------------------- the columns it leaves

  /** Syncing the active tab of column `fc` to the window at `fw`. */
  function Resynced(cols: seq<ColumnState>, fc: nat, fw: nat): seq<ColumnState> {
    if fc < |cols| then cols[fc := Apply(cols[fc], SetActiveTab(fw))] else cols
  }

  /** Clamping and syncing a focus that is in range. */
  lemma SettledColumns(ws: Workspace)
    requires ws.columns != [] ==>
               ws.focusedColumn < |ws.columns| && ws.columns[ws.focusedColumn].windows != []
    ensures Synced(Clamped(ws)).columns == Resynced(ws.columns, ws.focusedColumn, ws.focusedWindow)
  {
    if ws.columns != [] {
      ClampedTab(ws.columns[ws.focusedColumn], ws.focusedWindow);
      hide Apply;
    }
  }

  lemma LoneUnfolds(src: Workspace, w: WindowId)
    requires FindColumn(src.columns, w).Some?
    requires |src.columns[FindColumn(src.columns, w).value].windows| == 1
    requires src.focusedColumn < |src.columns|
    ensures
      var c := FindColumn(src.columns, w).value;
      var cols := Without(src.columns, c);
      RemoveWindow(src, w) == Ok(Synced(Clamped(src.(
        columns := cols, focusedColumn := FocusAfter(src.focusedColumn, c, |src.columns| - 1),
        focusedWindow := if cols == [] then 0 else src.focusedWindow))))
  {
    var c := FindColumn(src.columns, w).value;
    hide Apply, Synced, Clamped, Without, FocusAfter;
    LoneRemoval(src.columns[c], w);
    WithoutLength(src.columns, c);
  }

  lemma WithoutLength(cols: seq<ColumnState>, c: nat)
    requires c < |cols|
    ensures |Without(cols, c)| == |cols| - 1
  {}

  lemma LoneLeft(src: Workspace, w: WindowId)
    requires Sound(src) && FindColumn(src.columns, w).Some?
    requires |src.columns[FindColumn(src.columns, w).value].windows| == 1
    ensures RemoveWindow(src, w).Ok?
    ensures
      var c := FindColumn(src.columns, w).value;
      RemoveWindow(src, w).value.columns ==
        Resynced(Without(src.columns, c), FocusAfter(src.focusedColumn, c, |src.columns| - 1), src.focusedWindow)
  {
    var c := FindColumn(src.columns, w).value;
    var cols, fc := Without(src.columns, c), FocusAfter(src.focusedColumn, c, |src.columns| - 1);
    FocusedRows(src);
    hide RemoveWindow, Synced, Clamped, Apply;
    LoneUnfolds(src, w);
    if cols != [] { SoundWithout(src, c, fc); }
    hide Sound, Without;
    SettledColumns(src.(
      columns := cols, focusedColumn := fc, focusedWindow := if cols == [] then 0 else src.focusedWindow));
  }

  lemma LoneRemoval(col: ColumnState, w: WindowId)
    requires w in col.windows && |col.windows| == 1
    ensures Apply(col, Remove(w)).windows == []
  {}

  lemma SoundWithout(src: Workspace, c: nat, k: nat)
    requires Sound(src) && c < |src.columns| && k < |src.columns| - 1
    ensures |Without(src.columns, c)| == |src.columns| - 1 && Without(src.columns, c)[k].windows != []
  {
    assert Without(src.columns, c)[k] == src.columns[if k < c then k else k + 1];
    assert SoundColumn(src.columns[if k < c then k else k + 1]);
  }

  /** Clamping the focus first makes no difference to the tab it selects. */
  lemma ClampedTab(col: ColumnState, fw: nat)
    requires col.windows != []
    ensures Apply(col, SetActiveTab(Min(fw, |col.windows| - 1))) == Apply(col, SetActiveTab(fw))
  {}

  lemma StackedUnfolds(src: Workspace, w: WindowId)
    requires FindColumn(src.columns, w).Some?
    requires |src.columns[FindColumn(src.columns, w).value].windows| > 1
    ensures
      var c := FindColumn(src.columns, w).value;
      var ws := src.columns[c].windows;
      RemoveWindow(src, w) == Ok(Synced(Clamped(src.(
        columns := src.columns[c := Apply(src.columns[c], Remove(w))],
        focusedWindow := if c == src.focusedColumn then RowAfter(src.focusedWindow, Position(ws, w).value, |ws| - 1)
                         else src.focusedWindow))))
  {
    hide Apply, Synced, Clamped, Without, RowAfter;
    StackedRemoval(src.columns[FindColumn(src.columns, w).value], w);
  }

  lemma StackedLeft(src: Workspace, w: WindowId)
    requires Sound(src) && FindColumn(src.columns, w).Some?
    requires |src.columns[FindColumn(src.columns, w).value].windows| > 1
    ensures RemoveWindow(src, w).Ok?
    ensures
      var c := FindColumn(src.columns, w).value;
      var ws := src.columns[c].windows;
      var fw := if c == src.focusedColumn then RowAfter(src.focusedWindow, Position(ws, w).value, |ws| - 1)
                else src.focusedWindow;
      RemoveWindow(src, w).value.columns ==
        Resynced(src.columns[c := Apply(src.columns[c], Remove(w))], src.focusedColumn, fw)
  {
    var c := FindColumn(src.columns, w).value;
    var ws := src.columns[c].windows;
    FocusedRows(src);
    StackedRemoval(src.columns[c], w);
    hide RemoveWindow, Synced, Clamped, Apply, Sound, Without;
    StackedUnfolds(src, w);
    SettledColumns(src.(
      columns := src.columns[c := Apply(src.columns[c], Remove(w))],
      focusedWindow := if c == src.focusedColumn then RowAfter(src.focusedWindow, Position(ws, w).value, |ws| - 1)
                       else src.focusedWindow));
  }

  lemma FocusedRows(src: Workspace)
    requires Sound(src) && src.columns != []
    ensures src.focusedColumn < |src.columns| && src.focusedWindow < |src.columns[src.focusedColumn].windows|
    ensures WellFormed(src.columns[src.focusedColumn])
  {
    assert SoundColumn(src.columns[src.focusedColumn]);
  }

  lemma StackedRemoval(col: ColumnState, w: WindowId)
    requires w in col.windows && |col.windows| > 1
    ensures Apply(col, Remove(w)).windows == Without(col.windows, Position(col.windows, w).value)
    ensures |Apply(col, Remove(w)).windows| == |col.windows| - 1
  {}

  /** The columns after a refused move, the window back where its sibling or its index says. */
  lemma RolledBackColumns(src: Workspace, dst: Workspace, w: WindowId, landing: Landing)
    requires Sound(src) && FindColumn(src.columns, w).Some?
    requires Contains(dst, w) && CanLand(dst, landing)
    ensures RemoveWindow(src, w).Ok? && TransferTiled(src, dst, w, landing).Refused?
    ensures
      var c := FindColumn(src.columns, w).value;
      var left := RemoveWindow(src, w).value.columns;
      var back := TransferTiled(src, dst, w, landing).src.columns;
      if |src.columns[c].windows| == 1
      then c <= |left| && back == Inserted(left, c, NewColumn(w, src.columns[c].width))
      else c < |left| && back == left[c := Apply(left[c], Add(w))]
  {
    hide RemoveWindow, Rollback, Apply;
    var c := FindColumn(src.columns, w).value;
    var col := src.columns[c];
    TiledRefused(src, dst, w, landing);
    var left := RemoveWindow(src, w).value;
    RemovedGone(src, w);
    RemoveShapes(src, w);
    RollbackArrives(left, w, Some(col.width), TiledOrigin(src, w));
    SiblingStays(src, w);
    assert SoundColumn(src.columns[c]);
    assert |Shapes(left)| == |left.columns|;
  }

  // ------------------------------------------------------------ when it is exact

  /** The active tab is already the one the focus selects. */
  predicate TabFollows(col: ColumnState, fw: nat) {
    col.mode.Tabbed? && col.windows != [] ==> col.mode.active == Min(fw, |col.windows| - 1)
  }

  lemma FollowingTabStays(col: ColumnState, fw: nat)
    ensures Apply(col, SetActiveTab(fw)) == col <==> TabFollows(col, fw)
  {}

  /** Losing the last window and getting it back leaves the tabs alone: there are none, or they
      outlive the removal, are not on that window, and the focus, if it is here, selects them. */
  predicate TabSurvives(col: ColumnState, focus: Option<nat>) {
    var n := |col.windows|;
    col.mode.Tabbed? ==>
      && n > 2 && col.mode.active < n - 1
      && (focus.Some? ==> col.mode.active == Min(focus.value, n - 2))
  }

  /** A column whose tab is set to the focus, if the focus is there. */
  function TabSet(col: ColumnState, focus: Option<nat>): ColumnState {
    if focus.Some? then Apply(col, SetActiveTab(focus.value)) else col
  }

  /** The mode of a column of `n` after losing the window at `row`, a sync, and an addition. */
  function RejoinedMode(mode: Mode, n: nat, row: nat, sync: Option<nat>): Mode {
    if mode.Vertical? || n <= 2 then Vertical
    else if sync.Some? then Tabbed(Min(sync.value, n - 2))
    else if mode.active > row then Tabbed(mode.active - 1)
    else Tabbed(Min(mode.active, n - 2))
  }

  lemma RemovedParts(col: ColumnState, w: WindowId)
    requires WellFormed(col) && w in col.windows && |col.windows| > 1
    ensures
      var n := |col.windows|;
      var row := Position(col.windows, w).value;
      var less := Apply(col, Remove(w));
      && less.width == col.width && less.windows == Without(col.windows, row) && |less.windows| == n - 1
      && less.mode == RejoinedMode(col.mode, n, row, None)
  {
    hide Normalized;
  }

  lemma RejoinedParts(col: ColumnState, less: ColumnState, w: WindowId, row: nat, sync: Option<nat>)
    requires |less.windows| == |col.windows| - 1 > 0 && row < |col.windows|
    requires less.mode == RejoinedMode(col.mode, |col.windows|, row, None)
    requires col.mode.Tabbed? ==> col.mode.active < |col.windows|
    ensures
      var back := Apply(TabSet(less, sync), Add(w));
      && back.width == less.width && back.windows == less.windows + [w] && back.weights == Equal(|col.windows|)
      && back.mode == RejoinedMode(col.mode, |col.windows|, row, sync)
  {
    hide Equal;
  }

  lemma ModeExact(col: ColumnState, focus: Option<nat>)
    requires |col.windows| > 1 && (col.mode.Tabbed? ==> col.mode.active < |col.windows|)
    requires focus.Some? ==> focus.value < |col.windows|
    ensures
      var n := |col.windows|;
      var sync := if focus.Some? then Some(RowAfter(focus.value, n - 1, n - 1)) else None;
      RejoinedMode(col.mode, n, n - 1, sync) == col.mode <==> TabSurvives(col, focus)
  {}

  /** A column gets its window back unchanged exactly when that was last, heights were equal, and
      the tabs survive. */
  lemma RejoinExact(col: ColumnState, w: WindowId, focus: Option<nat>)
    requires WellFormed(col) && w in col.windows && |col.windows| > 1
    requires focus.Some? ==> focus.value < |col.windows|
    ensures
      var n := |col.windows|;
      var row := Position(col.windows, w).value;
      var sync := if focus.Some? then Some(RowAfter(focus.value, row, n - 1)) else None;
      Apply(TabSet(Apply(col, Remove(w)), sync), Add(w)) == col <==>
        col.windows[n - 1] == w && col.weights == Equal(n) && TabSurvives(col, focus)
  {
    var n := |col.windows|;
    var row := Position(col.windows, w).value;
    var sync := if focus.Some? then Some(RowAfter(focus.value, row, n - 1)) else None;
    RemovedParts(col, w);
    RejoinedParts(col, Apply(col, Remove(w)), w, row, sync);
    Bottomed(col.windows, row);
    LastRow(col.windows, w);
    hide Apply, Without, Equal, TabSurvives, RejoinedMode, RowAfter;
    if row == n - 1 { ModeExact(col, focus); }
  }

  lemma LastRow(ws: seq<WindowId>, w: WindowId)
    requires Distinct(ws) && w in ws
    ensures ws[|ws| - 1] == w <==> Position(ws, w) == Some(|ws| - 1)
  {}

  // ------------------------------------------------------------------ the theorem

  /** Whether a refused move of `w` restores every column, told from the workspace before it. */
  predicate RestoredWhenRefused(src: Workspace, w: WindowId)
    requires FindColumn(src.columns, w).Some?
  {
    var c := FindColumn(src.columns, w).value;
    var col := src.columns[c];
    var n := |col.windows|;
    var fc, fw := src.focusedColumn, src.focusedWindow;
    if n == 1 then
      var others := Without(src.columns, c);
      var next := FocusAfter(fc, c, |src.columns| - 1);
      col == NewColumn(w, col.width) && (next < |others| ==> TabFollows(others[next], fw))
    else
      && n > 0 && col.windows[n - 1] == w && col.weights == Equal(n)
      && TabSurvives(col, if c == fc then Some(fw) else None)
      && (c != fc && fc < |src.columns| ==> TabFollows(src.columns[fc], fw))
  }

  lemma WithoutInserted(left: seq<ColumnState>, c: nat, col: ColumnState)
    requires c <= |left|
    ensures |Inserted(left, c, col)| == |left| + 1
    ensures Inserted(left, c, col)[c] == col && Without(Inserted(left, c, col), c) == left
  {}

  lemma InsertedWithout(cols: seq<ColumnState>, c: nat)
    requires c < |cols|
    ensures Inserted(Without(cols, c), c, cols[c]) == cols
  {}

  lemma ReinsertExact(cols: seq<ColumnState>, left: seq<ColumnState>, c: nat, col: ColumnState)
    requires c < |cols| && |left| == |cols| - 1
    ensures Inserted(left, c, col) == cols <==> left == Without(cols, c) && col == cols[c]
  {
    hide Inserted, Without;
    WithoutInserted(left, c, col);
    InsertedWithout(cols, c);
  }

  lemma ResyncExact(cols: seq<ColumnState>, fc: nat, fw: nat)
    ensures Resynced(cols, fc, fw) == cols <==> (fc < |cols| ==> TabFollows(cols[fc], fw))
  {
    if fc < |cols| {
      FollowingTabStays(cols[fc], fw);
      assert Resynced(cols, fc, fw)[fc] == Apply(cols[fc], SetActiveTab(fw));
    }
  }

  /** A column taken out and put back, with the focused column resynced in between. */
  lemma StackExact(cols: seq<ColumnState>, c: nat, less: ColumnState, fc: nat, fw: nat, w: WindowId)
    requires c < |cols|
    ensures
      var left := Resynced(cols[c := less], fc, fw);
      c < |left| &&
      (left[c := Apply(left[c], Add(w))] == cols <==>
         && Apply(if fc == c then Apply(less, SetActiveTab(fw)) else less, Add(w)) == cols[c]
         && (fc != c && fc < |cols| ==> Apply(cols[fc], SetActiveTab(fw)) == cols[fc]))
  {
    hide Apply;
    var left := Resynced(cols[c := less], fc, fw);
    var back := left[c := Apply(left[c], Add(w))];
    assert forall k :: 0 <= k < |cols| ==>
      back[k] == if k == c then Apply(if fc == c then Apply(less, SetActiveTab(fw)) else less, Add(w))
                 else if k == fc then Apply(cols[fc], SetActiveTab(fw)) else cols[k];
  }

  /** A refused move leaves every column as it was, windows, heights and tabs, exactly under a
      condition that can be read off the workspace before the move. */
  lemma RefusalExact(src: Workspace, dst: Workspace, w: WindowId, landing: Landing)
    requires Sound(src) && FindColumn(src.columns, w).Some?
    requires Contains(dst, w) && CanLand(dst, landing)
    ensures
      var t := TransferTiled(src, dst, w, landing);
      && t.Refused? && t.src.floating == src.floating
      && (t.src.columns == src.columns <==> RestoredWhenRefused(src, w))
  {
    var c := FindColumn(src.columns, w).value;
    var col, fc, fw := src.columns[c], src.focusedColumn, src.focusedWindow;
    RollbackRestores(src, dst, w, landing);
    RolledBackColumns(src, dst, w, landing);
    FocusedRows(src);
    assert SoundColumn(col);
    hide TransferTiled, RemoveWindow, Homecoming, Shapes, Contains, Apply, RestoredWhenRefused;
    if |col.windows| == 1 {
      LoneRefusal(src, w, c);
    } else {
      StackedRefusal(src, w, c);
    }
  }

  lemma LoneRefusal(src: Workspace, w: WindowId, c: nat)
    requires Sound(src) && FindColumn(src.columns, w) == Some(c) && |src.columns[c].windows| == 1
    ensures RemoveWindow(src, w).Ok?
    ensures Inserted(RemoveWindow(src, w).value.columns, c, NewColumn(w, src.columns[c].width)) == src.columns <==>
            RestoredWhenRefused(src, w)
  {
    var cols, next := Without(src.columns, c), FocusAfter(src.focusedColumn, c, |src.columns| - 1);
    LoneLeft(src, w);
    hide RemoveWindow, Sound, Resynced, TabFollows, Inserted;
    ResyncedLength(cols, next, src.focusedWindow);
    ReinsertExact(src.columns, Resynced(cols, next, src.focusedWindow), c, NewColumn(w, src.columns[c].width));
    ResyncExact(cols, next, src.focusedWindow);
  }

  lemma StackedRefusal(src: Workspace, w: WindowId, c: nat)
    requires Sound(src) && FindColumn(src.columns, w) == Some(c) && |src.columns[c].windows| > 1
    ensures RemoveWindow(src, w).Ok? && c < |RemoveWindow(src, w).value.columns|
    ensures
      var left := RemoveWindow(src, w).value.columns;
      left[c := Apply(left[c], Add(w))] == src.columns <==> RestoredWhenRefused(src, w)
  {
    var col, fc, fw := src.columns[c], src.focusedColumn, src.focusedWindow;
    assert SoundColumn(col);
    FocusedRows(src);
    StackedLeft(src, w);
    hide RemoveWindow, Sound, Resynced, TabFollows, TabSurvives, Apply, Equal, Without;
    var row := Position(col.windows, w).value;
    var fw' := if c == fc then RowAfter(fw, row, |col.windows| - 1) else fw;
    StackExact(src.columns, c, Apply(col, Remove(w)), fc, fw', w);
    RejoinExact(col, w, if c == fc then Some(fw) else None);
    FollowingTabStays(src.columns[fc], fw);
  }

  lemma ResyncedLength(cols: seq<ColumnState>, fc: nat, fw: nat)
    ensures |Resynced(cols, fc, fw)| == |cols|
  {}

  /** The whole command when the target already has the tiled window: the error, the same origins,
      the same floating windows and other workspaces, and the columns exactly under that condition. */
  lemma FailedMoveExact(d: Desk, monitor: Monitor, current: nat, w: WindowId, index: nat, blank: Workspace,
      layoutOk: bool)
    requires AllSound(d, blank) && Effective(d, monitor, current, w, index)
    requires !IsFloating(d.spaces[monitor][current], w)
    requires Contains(Grid(d, monitor, index - 1, blank)[index - 1], w)
    ensures
      var v := Grid(d, monitor, index - 1, blank);
      var (d', outcome) := MoveTo(d, monitor, current, w, index, blank, layoutOk);
      && outcome == InsertFailed && d'.origins == d.origins && monitor in d'.spaces
      && |d'.spaces[monitor]| == |v| && (forall k :: 0 <= k < |v| && k != current ==> d'.spaces[monitor][k] == v[k])
      && d'.spaces[monitor][current].floating == v[current].floating
      && FindColumn(v[current].columns, w).Some?
      && (d'.spaces[monitor][current].columns == v[current].columns <==> RestoredWhenRefused(v[current], w))
  {
    var v := Grid(d, monitor, index - 1, blank);
    var landing := ChooseLanding(d.origins, monitor, index - 1, v[index - 1], w);
    SoundGrid(d, monitor, current, index - 1, blank);
    LandingFits(d.origins, monitor, index - 1, v[index - 1], w);
    hide TransferTiled, ChooseLanding, Sound, RestoredWhenRefused;
    RefusalExact(v[current], v[index - 1], w, landing);
  }

  // ------------------------------------------------------------------- two failures

  /** A sound workspace with the single column [1, 2], and a target that already has window 2. */
  function Pair(weights: seq<real>, mode: Mode): Workspace {
    Workspace([ColumnState(800, [1, 2], weights, mode)], 0, 1, [], 800)
  }

  lemma PairRefused(weights: seq<real>, mode: Mode)
    requires mode.Tabbed? ==> mode.active < 2
    requires weights != Equal(2) || mode.Tabbed?
    ensures
      var src, dst := Pair(weights, mode), Workspace([NewColumn(2, 800)], 0, 0, [], 800);
      var t := TransferTiled(src, dst, 2, Default);
      Sound(src) && t.Refused? && Shapes(t.src) == Shapes(src) && t.src.columns != src.columns
  {
    var src, dst := Pair(weights, mode), Workspace([NewColumn(2, 800)], 0, 0, [], 800);
    PairIsSound(weights, mode);
    assert 2 in src.columns[0].windows && 2 in dst.columns[0].windows;
    hide Sound, TransferTiled, Shapes, Equal;
    RollbackRestores(src, dst, 2, Default);
    RefusalExact(src, dst, 2, Default);
  }

  lemma PairIsSound(weights: seq<real>, mode: Mode)
    requires mode.Tabbed? ==> mode.active < 2
    ensures Sound(Pair(weights, mode))
  {
    assert SoundColumn(Pair(weights, mode).columns[0]);
  }

  /** A tabbed pair whose lower window is refused loses its tabs, though its order is kept. */
  lemma RefusalLosesTabs()
    ensures
      var src, dst := Pair([0.5, 0.5], Tabbed(1)), Workspace([NewColumn(2, 800)], 0, 0, [], 800);
      var t := TransferTiled(src, dst, 2, Default);
      Sound(src) && t.Refused? && Shapes(t.src) == Shapes(src) && t.src.columns != src.columns
  {
    PairRefused([0.5, 0.5], Tabbed(1));
  }

  /** A pair of three quarters and one quarter is levelled, though its order is kept. */
  lemma RefusalLosesHeights()
    ensures
      var src, dst := Pair([0.75, 0.25], Vertical), Workspace([NewColumn(2, 800)], 0, 0, [], 800);
      var t := TransferTiled(src, dst, 2, Default);
      Sound(src) && t.Refused? && Shapes(t.src) == Shapes(src) && t.src.columns != src.columns
  {
    assert Equal(2)[0] == 0.5;
    PairRefused([0.75, 0.25], Vertical);
  }
}
