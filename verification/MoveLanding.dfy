/** Where a moved window ends up, told from the desk before and after the command, and what focus and
    origin it leaves behind. */
module MoveLanding {
  import opened Prelude
  import opened Columns
  import opened Workspaces
  import opened WorkspaceSoundness
  import opened MoveWindow
  import opened MoveRoundTrip
  import opened MoveExact
  import MoveRollback

  // ------------------------------------------------------------------- landing

  /** An origin is recorded for `w` that leads back to this workspace of this monitor. */
  predicate Remembered(origins: map<WindowId, Origin>, w: WindowId, monitor: Monitor, idx: nat) {
    w in origins && origins[w].monitor == monitor && origins[w].wsIdx == idx
  }

  /** The remembered sibling sits in column `c`. */
  predicate SiblingIn(ws: Workspace, origin: Origin, c: nat) {
    origin.sibling.Some? && c < |ws.columns| && origin.sibling.value in ws.columns[c].windows
  }

  /** The focus is on `w`, and so are the tabs of its column. */
  predicate FocusOn(ws: Workspace, w: WindowId) {
    && ws.focusedColumn < |ws.columns|
    && var col := ws.columns[ws.focusedColumn];
       && ws.focusedWindow < |col.windows| && col.windows[ws.focusedWindow] == w
       && (col.mode.Tabbed? ==> col.mode.active == ws.focusedWindow)
  }

  /** `after` is `before` with `w`, focused, in a column of its own at `at`. */
  predicate OwnColumn(before: Workspace, after: Workspace, w: WindowId, width: int, at: nat) {
    && at <= |before.columns| && after.floating == before.floating && FocusOn(after, w)
    && after.columns ==
         before.columns[..at] + [ColumnState(width, [w], [1.0], Vertical)] + before.columns[at..]
  }

  /** `after` is `before` with `w`, focused, at the bottom of column `c`, whose heights are levelled and whose
      tabs, if it has any, are on `w`. */
  predicate BottomOf(before: Workspace, after: Workspace, w: WindowId, c: nat) {
    && c < |before.columns| == |after.columns| && after.floating == before.floating && FocusOn(after, w)
    && (forall k :: 0 <= k < |before.columns| && k != c ==> after.columns[k] == before.columns[k])
    && var col, host := before.columns[c], after.columns[c];
       && host.width == col.width && host.windows == col.windows + [w] && Level(host.weights, |host.windows|)
       && host.mode == if col.mode.Tabbed? then Tabbed(|col.windows|) else Vertical
  }

  lemma SiblingLanding(target: Workspace, origin: Origin, c: nat)
    requires Sound(target) && SiblingIn(target, origin, c)
    ensures SiblingColumn(target, origin.sibling) == Some(c)
  {
    var f := FindColumn(target.columns, origin.sibling.value).value;
    assert origin.sibling.value in target.columns[f].windows;
  }

  lemma NoSiblingLanding(target: Workspace, origin: Origin)
    requires forall c :: !SiblingIn(target, origin, c)
    ensures SiblingColumn(target, origin.sibling).None?
  {
    if origin.sibling.Some? && FindColumn(target.columns, origin.sibling.value).Some? {
      assert SiblingIn(target, origin, FindColumn(target.columns, origin.sibling.value).value);
    }
  }

  lemma VisitedFocus(b: Workspace, w: WindowId, width: int, landing: Landing)
    requires Sound(b) && !Contains(b, w) && CanLand(b, landing)
    ensures FocusOn(Visited(b, w, width, landing), w)
  {
    var there := Visited(b, w, width, landing);
    VisitedColumns(b, w, width, landing);
    hide Visited, FindColumn;
    if landing.Stack? {
      assert SoundColumn(b.columns[landing.column]);
      HostingTab(b.columns[landing.column], w);
    }
  }

  lemma HostingTab(col: ColumnState, w: WindowId)
    requires col.windows != []
    ensures
      var h := Hosting(col, w);
      && h.width == col.width && h.windows == col.windows + [w] && Level(h.weights, |h.windows|)
      && h.mode == if col.mode.Tabbed? then Tabbed(|col.windows|) else Vertical
  {
    hide Apply, Level, LessOne;
    AddedKeepsTabs(col, w);
    ArrivalsLevel(col, 0, w);
    EditsKeepWidth(col, Add(w));
    TabsClamped(Apply(col, Add(w)), |col.windows|);
  }

  lemma AddedKeepsTabs(col: ColumnState, w: WindowId)
    requires col.windows != []
    ensures Apply(col, Add(w)).windows == col.windows + [w]
    ensures Apply(col, Add(w)).mode.Tabbed? <==> col.mode.Tabbed?
  {}

  lemma VisitedShapes(b: Workspace, w: WindowId, width: int, landing: Landing)
    requires Sound(b) && !Contains(b, w) && CanLand(b, landing) && width >= MIN_COLUMN_WIDTH
    ensures
      var there := Visited(b, w, width, landing);
      if landing.Stack? then BottomOf(b, there, w, landing.column)
      else OwnColumn(b, there, w, width, LandingColumn(b, landing))
  {
    VisitedFocus(b, w, width, landing);
    VisitedColumns(b, w, width, landing);
    VisitLeavesNoTrace(b, w, width, landing);
    InRange(b);
    if landing.Stack? {
      assert SoundColumn(b.columns[landing.column]);
      HostingTab(b.columns[landing.column], w);
    }
    hide Visited, FocusOn, Sound, Contains, Hosting, Level, RemoveWindow;
  }

  /** A tiled window lands right of the target's focused column, alone in an empty target; or, if an origin
      leads back to this workspace of this monitor, at the bottom of the column where its sibling of then is
      now, and without a surviving sibling in a column of its own at the remembered place, as far as
      there is one. It keeps its width there and is focused. */
  lemma MoveLands(d: Desk, monitor: Monitor, a: nat, b: nat, w: WindowId, blank: Workspace, layoutOk: bool)
    requires AllSound(d, blank) && Movable(d, monitor, a, b, w, blank)
    ensures
      var v := Grid(d, monitor, b, blank);
      var d' := MoveTo(d, monitor, a, w, b + 1, blank, layoutOk).0;
      && FindColumn(v[a].columns, w).Some? && monitor in d'.spaces && |d'.spaces[monitor]| == |v|
      && var width := v[a].columns[FindColumn(v[a].columns, w).value].width;
         var target, after := v[b], d'.spaces[monitor][b];
         if !Remembered(d.origins, w, monitor, b) then
           OwnColumn(target, after, w, width, if target.columns == [] then 0 else target.focusedColumn + 1)
         else
           && (forall c :: SiblingIn(target, d.origins[w], c) ==> BottomOf(target, after, w, c))
           && ((forall c :: !SiblingIn(target, d.origins[w], c)) ==>
                 OwnColumn(target, after, w, width,
                           if d.origins[w].column < |target.columns| then d.origins[w].column else |target.columns|))
  {
    var v := Grid(d, monitor, b, blank);
    var landing := ChooseLanding(d.origins, monitor, b, v[b], w);
    TiledMove(d, monitor, a, b, w, blank, layoutOk);
    LandingFits(d.origins, monitor, b, v[b], w);
    SoundBoth(d, monitor, a, b, blank);
    var c := FindColumn(v[a].columns, w).value;
    assert SoundColumn(v[a].columns[c]);
    VisitedShapes(v[b], w, v[a].columns[c].width, landing);
    hide Visited, MoveTo, OwnColumn, BottomOf, AllSound, Sound, RemoveWindow, Contains, IsFloating;
    if Remembered(d.origins, w, monitor, b) {
      forall k | SiblingIn(v[b], d.origins[w], k) ensures landing == Stack(k) { SiblingLanding(v[b], d.origins[w], k); }
      if forall k :: !SiblingIn(v[b], d.origins[w], k) { NoSiblingLanding(v[b], d.origins[w]); }
    }
  }

  // ------------------------------------------------------------ what it leaves behind

  /** The window that has the focus. */
  function FocusedId(ws: Workspace): Option<WindowId> {
    if ws.focusedColumn < |ws.columns| && ws.focusedWindow < |ws.columns[ws.focusedColumn].windows|
    then Some(ws.columns[ws.focusedColumn].windows[ws.focusedWindow])
    else None
  }

  /** The window that gets the focus when `w`, at `row` of column `c`, leaves with the focus on it: the one
      below it or else the new last of its column, the top of the column that follows a lone one, or of
      the new last column. */
  function NextFocus(ws: Workspace, c: nat, row: nat): Option<WindowId>
    requires c < |ws.columns| && row < |ws.columns[c].windows|
    requires forall k :: 0 <= k < |ws.columns| ==> ws.columns[k].windows != []
  {
    var windows := ws.columns[c].windows;
    if |windows| > 1 then Some(if row + 1 < |windows| then windows[row + 1] else windows[|windows| - 2])
    else if c + 1 < |ws.columns| then Some(ws.columns[c + 1].windows[0])
    else if c > 0 then Some(ws.columns[c - 1].windows[0])
    else None
  }

  lemma SettledFocus(ws: Workspace)
    requires ws.columns != [] ==> ws.focusedColumn < |ws.columns| && ws.columns[ws.focusedColumn].windows != []
    ensures
      var settled := Synced(Clamped(ws));
      if ws.columns == [] then FocusedId(settled) == None
      else
        var windows := ws.columns[ws.focusedColumn].windows;
        FocusedId(settled) == Some(windows[Min(ws.focusedWindow, |windows| - 1)])
  {}

  /** Which column has the focus once column `c` of `n` is gone: the same one, or the one that follows it,
      or the new last. */
  lemma ColumnFollows(n: nat, fc: nat, c: nat)
    requires fc < n && c < n && n > 1
    ensures
      var next := FocusAfter(fc, c, n - 1);
      && next < n - 1
      && Passed(c, next) == if fc != c then fc else if c + 1 < n then c + 1 else c - 1
  {}

  lemma WithoutColumn(cols: seq<ColumnState>, c: nat, k: nat)
    requires c < |cols| && k < |cols| - 1
    ensures |Without(cols, c)| == |cols| - 1 && Without(cols, c)[k] == cols[Passed(c, k)]
  {}

  lemma LoneFocus(ws: Workspace, w: WindowId, c: nat)
    requires Sound(ws) && FindColumn(ws.columns, w) == Some(c) && |ws.columns[c].windows| == 1
    requires forall k :: 0 <= k < |ws.columns| ==> ws.columns[k].windows != []
    ensures RemoveWindow(ws, w).Ok?
    ensures FocusedId(RemoveWindow(ws, w).value) ==
            if ws.focusedColumn == c then NextFocus(ws, c, 0) else FocusedId(ws)
  {
    hide RemoveWindow, Synced, Clamped, Sound, Without, FocusAfter, NextFocus, FocusedId;
    MoveRollback.FocusedRows(ws);
    MoveRollback.LoneUnfolds(ws, w);
    LoneSettles(ws, c);
  }

  lemma LoneSettles(ws: Workspace, c: nat)
    requires c < |ws.columns| && |ws.columns[c].windows| == 1
    requires ws.focusedColumn < |ws.columns| && ws.focusedWindow < |ws.columns[ws.focusedColumn].windows|
    requires forall k :: 0 <= k < |ws.columns| ==> ws.columns[k].windows != []
    ensures
      var cols := Without(ws.columns, c);
      FocusedId(Synced(Clamped(ws.(
        columns := cols, focusedColumn := FocusAfter(ws.focusedColumn, c, |ws.columns| - 1),
        focusedWindow := if cols == [] then 0 else ws.focusedWindow)))) ==
        if ws.focusedColumn == c then NextFocus(ws, c, 0) else FocusedId(ws)
  {
    hide Synced, Clamped, Without, FocusAfter, FocusedId, Passed;
    var n, cols, fc := |ws.columns|, Without(ws.columns, c), FocusAfter(ws.focusedColumn, c, |ws.columns| - 1);
    MoveRollback.WithoutLength(ws.columns, c);
    if n > 1 {
      ColumnFollows(n, ws.focusedColumn, c);
      WithoutColumn(ws.columns, c, fc);
      assert cols[fc].windows != [];
    }
    SettledFocus(ws.(columns := cols, focusedColumn := fc,
                     focusedWindow := if cols == [] then 0 else ws.focusedWindow));
    FocusInRangeIs(ws);
  }

  lemma FocusInRangeIs(ws: Workspace)
    requires ws.focusedColumn < |ws.columns| && ws.focusedWindow < |ws.columns[ws.focusedColumn].windows|
    ensures FocusedId(ws) == Some(ws.columns[ws.focusedColumn].windows[ws.focusedWindow])
  {}

  /** Where the focused row goes when a window of its column leaves. */
  lemma RowFollows(windows: seq<WindowId>, fw: nat, row: nat)
    requires |windows| > 1 && fw < |windows| && row < |windows|
    ensures
      var left := Without(windows, row);
      && |left| == |windows| - 1
      && left[Min(RowAfter(fw, row, |windows| - 1), |left| - 1)] ==
           if fw == row then (if row + 1 < |windows| then windows[row + 1] else windows[|windows| - 2])
           else windows[fw]
  {
    var left := Without(windows, row);
    assert forall k :: 0 <= k < |left| ==> left[k] == windows[if k < row then k else k + 1];
  }

  lemma StackedFocus(ws: Workspace, w: WindowId, c: nat)
    requires Sound(ws) && FindColumn(ws.columns, w) == Some(c) && |ws.columns[c].windows| > 1
    requires forall k :: 0 <= k < |ws.columns| ==> ws.columns[k].windows != []
    ensures RemoveWindow(ws, w).Ok?
    ensures FocusedId(RemoveWindow(ws, w).value) ==
            if ws.focusedColumn == c && ws.focusedWindow == Position(ws.columns[c].windows, w).value
            then NextFocus(ws, c, ws.focusedWindow) else FocusedId(ws)
  {
    hide RemoveWindow, Synced, Clamped, Apply, Sound, Without, RowAfter, FocusedId, NextFocus;
    MoveRollback.FocusedRows(ws);
    MoveRollback.StackedUnfolds(ws, w);
    MoveRollback.StackedRemoval(ws.columns[c], w);
    StackedSettles(ws, c, Apply(ws.columns[c], Remove(w)), Position(ws.columns[c].windows, w).value);
  }

  lemma StackedSettles(ws: Workspace, c: nat, less: ColumnState, row: nat)
    requires c < |ws.columns| && |ws.columns[c].windows| > 1 && row < |ws.columns[c].windows|
    requires less.windows == Without(ws.columns[c].windows, row)
    requires ws.focusedColumn < |ws.columns| && ws.focusedWindow < |ws.columns[ws.focusedColumn].windows|
    requires forall k :: 0 <= k < |ws.columns| ==> ws.columns[k].windows != []
    ensures
      FocusedId(Synced(Clamped(ws.(
        columns := ws.columns[c := less],
        focusedWindow := if c == ws.focusedColumn then RowAfter(ws.focusedWindow, row, |ws.columns[c].windows| - 1)
                         else ws.focusedWindow)))) ==
        if ws.focusedColumn == c && ws.focusedWindow == row then NextFocus(ws, c, row) else FocusedId(ws)
  {
    hide Synced, Clamped, Without, RowAfter;
    var windows := ws.columns[c].windows;
    var fw := if c == ws.focusedColumn then RowAfter(ws.focusedWindow, row, |windows| - 1) else ws.focusedWindow;
    WithoutRow(windows, row);
    SettledFocus(ws.(columns := ws.columns[c := less], focusedWindow := fw));
    if c == ws.focusedColumn { RowFollows(windows, ws.focusedWindow, row); }
  }

  lemma WithoutRow(windows: seq<WindowId>, row: nat)
    requires row < |windows|
    ensures |Without(windows, row)| == |windows| - 1
  {}

  lemma NoEmptyColumns(ws: Workspace)
    requires Sound(ws)
    ensures forall k :: 0 <= k < |ws.columns| ==> ws.columns[k].windows != []
  {
    forall k | 0 <= k < |ws.columns| ensures ws.columns[k].windows != [] { assert SoundColumn(ws.columns[k]); }
  }

  /** A window has the focus exactly if column and row of the focus are its own. */
  lemma HasFocus(ws: Workspace, w: WindowId, c: nat)
    requires Sound(ws) && FindColumn(ws.columns, w) == Some(c)
    ensures FocusedId(ws) == Some(w) <==>
            ws.focusedColumn == c && ws.focusedWindow == Position(ws.columns[c].windows, w).value
  {
    MoveRollback.FocusedRows(ws);
    assert WellFormed(ws.columns[c]) by { assert SoundColumn(ws.columns[c]); }
    assert SoundColumns(ws.columns) && w in ws.columns[c].windows;
    assert FocusedId(ws) == Some(w) ==> w in ws.columns[ws.focusedColumn].windows;
    hide SoundColumn, Sound, SoundFloats, FindColumn;
  }

  /** A removal leaves the focus on its window, and on the nearest one left when that is taken out. */
  lemma RemovalFocus(ws: Workspace, w: WindowId)
    requires Sound(ws) && FindColumn(ws.columns, w).Some?
    ensures RemoveWindow(ws, w).Ok? && forall k :: 0 <= k < |ws.columns| ==> ws.columns[k].windows != []
    ensures
      var c := FindColumn(ws.columns, w).value;
      FocusedId(RemoveWindow(ws, w).value) ==
        if FocusedId(ws) == Some(w) then NextFocus(ws, c, Position(ws.columns[c].windows, w).value) else FocusedId(ws)
  {
    var c := FindColumn(ws.columns, w).value;
    NoEmptyColumns(ws);
    HasFocus(ws, w, c);
    if |ws.columns[c].windows| == 1 {
      LoneFocus(ws, w, c);
    } else {
      assert ws.columns[c].windows != [];
      StackedFocus(ws, w, c);
    }
    hide RemoveWindow, Sound;
  }

  /** The topmost window of the column but `w`, if there is another. */
  function TopmostOther(windows: seq<WindowId>, w: WindowId): Option<WindowId>
    requires Distinct(windows) && w in windows
  {
    if |windows| == 1 then None else Some(if windows[0] != w then windows[0] else windows[1])
  }

  lemma FirstOtherIsTopmost(windows: seq<WindowId>, w: WindowId)
    requires Distinct(windows) && w in windows
    ensures FirstOther(windows, w) == TopmostOther(windows, w)
  {
    if |windows| == 1 {
      assert windows[1..] == [];
    } else if windows[0] == w {
      assert windows[1..][0] == windows[1];
    }
  }

  /** `col` with its tabs, if it has any, on the window at `row`. */
  function TabOn(col: ColumnState, row: nat): ColumnState {
    if col.mode.Tabbed? then col.(mode := Tabbed(row)) else col
  }

  /** The columns of `after` are these, the focused one with its tabs on the focused window. */
  ghost predicate Columned(after: Workspace, cols: seq<ColumnState>) {
    && |after.columns| == |cols|
    && forall k :: 0 <= k < |cols| ==>
         after.columns[k] == if k == after.focusedColumn then TabOn(cols[k], after.focusedWindow) else cols[k]
  }

  /** `less` is `col` without its window at `row`: the others keep their order, heights in proportion, and the
      active tab, if it is not the one taken out; tabs end with the second last window. */
  ghost predicate Thinned(col: ColumnState, row: nat, less: ColumnState) {
    && less.width == col.width && LessOne(col.windows, row, less.windows)
    && (|col.weights| == |col.windows| ==> InProportion(col.weights, row, less.weights))
    && (less.mode.Tabbed? <==> col.mode.Tabbed? && |col.windows| > 2)
    && (less.mode.Tabbed? && col.mode.active < |col.windows| ==>
          && less.mode.active < |less.windows|
          && less.windows[less.mode.active] ==
               if col.mode.active != row then col.windows[col.mode.active]
               else if row + 1 < |col.windows| then col.windows[row + 1] else col.windows[row - 1])
  }

  lemma RemovalThins(col: ColumnState, w: WindowId)
    requires WellFormed(col) && w in col.windows && |col.windows| > 1
    ensures Thinned(col, Position(col.windows, w).value, Apply(col, Remove(w)))
  {
    var row := Position(col.windows, w).value;
    MoveRollback.RemovedParts(col, w);
    RemovalKeepsProportions(col, w);
    hide Apply, InProportion, Without;
  }

  lemma SettledColumned(ws: Workspace)
    requires ws.columns != [] ==> ws.focusedColumn < |ws.columns| && ws.columns[ws.focusedColumn].windows != []
    ensures Columned(Synced(Clamped(ws)), ws.columns)
  {
    if ws.columns != [] { ClampedRow(ws.columns[ws.focusedColumn], ws.focusedWindow); }
    hide Apply;
  }

  lemma ClampedRow(col: ColumnState, fw: nat)
    requires col.windows != []
    ensures
      var row := Min(fw, |col.windows| - 1);
      Apply(col, SetActiveTab(row)) == TabOn(col, row)
  {}

  /** The workspace that a tiled window left: the column it was alone in is gone, or it is taken out of its
      stack, and no other column changes; the focus stays on its window, or goes to the nearest one left,
      and the tabs of the focused column with it. */
  ghost predicate LeftBehind(before: Workspace, after: Workspace, w: WindowId, c: nat) {
    && c < |before.columns| && w in before.columns[c].windows && after.floating == before.floating
    && (forall k :: 0 <= k < |before.columns| ==> before.columns[k].windows != [])
    && var col := before.columns[c];
       var row := Position(col.windows, w).value;
       && (if |col.windows| == 1 then Columned(after, before.columns[..c] + before.columns[c + 1..])
           else exists less :: Thinned(col, row, less) && Columned(after, before.columns[c := less]))
       && FocusedId(after) == if FocusedId(before) == Some(w) then NextFocus(before, c, row) else FocusedId(before)
  }

  lemma LoneColumned(ws: Workspace, w: WindowId, c: nat)
    requires Sound(ws) && FindColumn(ws.columns, w) == Some(c) && |ws.columns[c].windows| == 1
    ensures RemoveWindow(ws, w).Ok? && Columned(RemoveWindow(ws, w).value, ws.columns[..c] + ws.columns[c + 1..])
  {
    hide RemoveWindow, Synced, Clamped, Sound, FocusAfter, Columned;
    MoveRollback.FocusedRows(ws);
    MoveRollback.LoneUnfolds(ws, w);
    MoveRollback.WithoutLength(ws.columns, c);
    NoEmptyColumns(ws);
    var cols, fc := Without(ws.columns, c), FocusAfter(ws.focusedColumn, c, |ws.columns| - 1);
    if cols != [] {
      ColumnFollows(|ws.columns|, ws.focusedColumn, c);
      WithoutColumn(ws.columns, c, fc);
    }
    SettledColumned(ws.(columns := cols, focusedColumn := fc,
                        focusedWindow := if cols == [] then 0 else ws.focusedWindow));
  }

  lemma StackedColumned(ws: Workspace, w: WindowId, c: nat)
    requires Sound(ws) && FindColumn(ws.columns, w) == Some(c) && |ws.columns[c].windows| > 1
    ensures RemoveWindow(ws, w).Ok?
    ensures Columned(RemoveWindow(ws, w).value, ws.columns[c := Apply(ws.columns[c], Remove(w))])
  {
    hide RemoveWindow, Synced, Clamped, Sound, RowAfter, Columned, Apply, Without;
    MoveRollback.FocusedRows(ws);
    MoveRollback.StackedUnfolds(ws, w);
    MoveRollback.StackedRemoval(ws.columns[c], w);
    var row := Position(ws.columns[c].windows, w).value;
    SettledColumned(ws.(
      columns := ws.columns[c := Apply(ws.columns[c], Remove(w))],
      focusedWindow := if c == ws.focusedColumn then RowAfter(ws.focusedWindow, row, |ws.columns[c].windows| - 1)
                       else ws.focusedWindow));
  }

  lemma RemovalLeaves(ws: Workspace, w: WindowId)
    requires Sound(ws) && FindColumn(ws.columns, w).Some?
    ensures RemoveWindow(ws, w).Ok?
    ensures LeftBehind(ws, RemoveWindow(ws, w).value, w, FindColumn(ws.columns, w).value)
  {
    RemovalFocus(ws, w);
    RemoveShapes(ws, w);
    var c := FindColumn(ws.columns, w).value;
    assert WellFormed(ws.columns[c]) by { assert SoundColumn(ws.columns[c]); }
    hide RemoveWindow, NextFocus, FocusedId, Sound, Columned, Thinned, Apply, WellFormed;
    if |ws.columns[c].windows| == 1 {
      LoneColumned(ws, w, c);
    } else {
      assert ws.columns[c].windows != [];
      RemovalThins(ws.columns[c], w);
      StackedColumned(ws, w, c);
    }
  }

  /** What else a tiled move does: the workspace it leaves, the origin it records, with the topmost
      neighbour as sibling, and nothing anywhere else. */
  lemma MoveLeaves(d: Desk, monitor: Monitor, a: nat, b: nat, w: WindowId, blank: Workspace, layoutOk: bool)
    requires AllSound(d, blank) && Movable(d, monitor, a, b, w, blank)
    ensures
      var v := Grid(d, monitor, b, blank);
      var d' := MoveTo(d, monitor, a, w, b + 1, blank, layoutOk).0;
      && FindColumn(v[a].columns, w).Some? && d'.spaces.Keys == d.spaces.Keys
      && (forall m :: m in d.spaces && m != monitor ==> d'.spaces[m] == d.spaces[m])
      && |d'.spaces[monitor]| == |v|
      && (forall k :: 0 <= k < |v| && k != a && k != b ==> d'.spaces[monitor][k] == v[k])
      && var c := FindColumn(v[a].columns, w).value;
         && LeftBehind(v[a], d'.spaces[monitor][a], w, c)
         && Distinct(v[a].columns[c].windows)
         && d'.origins == d.origins[w := Origin(monitor, a, c, TopmostOther(v[a].columns[c].windows, w))]
  {
    var v := Grid(d, monitor, b, blank);
    TiledMove(d, monitor, a, b, w, blank, layoutOk);
    SoundBoth(d, monitor, a, b, blank);
    var c := FindColumn(v[a].columns, w).value;
    assert SoundColumn(v[a].columns[c]);
    FirstOtherIsTopmost(v[a].columns[c].windows, w);
    RemovalLeaves(v[a], w);
    hide MoveTo, LeftBehind, Sound, AllSound, RemoveWindow, Visited, FirstOther, Contains, IsFloating, ChooseLanding;
  }

  lemma StackedAside(ws: Workspace, w: WindowId, c: nat)
    requires InsertInColumn(ws, w, c).Ok?
    ensures FocusedId(ws).Some? ==> FocusedId(InsertInColumn(ws, w, c).value) == FocusedId(ws)
  {
    var added := Apply(ws.columns[c], Add(w));
    assert added.windows == ws.columns[c].windows + [w];
    hide Apply;
  }

  lemma OwnColumnFocused(ws: Workspace, w: WindowId, width: Option<int>, at: nat)
    requires InsertAtColumn(ws, w, width, at).Ok?
    ensures FocusedId(InsertAtColumn(ws, w, width, at).value) == Some(w)
  {}

  lemma SoundFocus(ws: Workspace)
    requires Sound(ws) && ws.columns != []
    ensures FocusedId(ws).Some?
  {}

  /** A refused move changes the focus as well: a lone window has it afterwards, and a stacked one that had it
      has lost it to its neighbour. */
  lemma RefusalFocus(src: Workspace, dst: Workspace, w: WindowId, landing: Landing)
    requires Sound(src) && FindColumn(src.columns, w).Some?
    requires Contains(dst, w) && CanLand(dst, landing)
    ensures forall k :: 0 <= k < |src.columns| ==> src.columns[k].windows != []
    ensures
      var c := FindColumn(src.columns, w).value;
      var windows := src.columns[c].windows;
      var t := TransferTiled(src, dst, w, landing);
      && t.Refused?
      && FocusedId(t.src) ==
           if |windows| == 1 then Some(w)
           else if FocusedId(src) == Some(w) then NextFocus(src, c, Position(windows, w).value) else FocusedId(src)
  {
    hide RemoveWindow, Rollback, FocusedId, NextFocus, InsertInColumn, InsertAtColumn, InsertWindow, Sound;
    var c := FindColumn(src.columns, w).value;
    var col := src.columns[c];
    TiledRefused(src, dst, w, landing);
    var left := RemoveWindow(src, w).value;
    RemovedGone(src, w);
    RemoveSound(src, w);
    RemovalFocus(src, w);
    RemoveShapes(src, w);
    RollbackArrives(left, w, Some(col.width), TiledOrigin(src, w));
    SiblingStays(src, w);
    if |col.windows| == 1 {
      OwnColumnFocused(left, w, Some(col.width), c);
    } else {
      assert |Shapes(left)| == |left.columns|;
      SoundFocus(left);
      StackedAside(left, w, c);
    }
  }

  /** A floating window moves to the end of the target's list at its place, but unpinned; everything
      tiled stays as it is and a recorded origin is forgotten. */
  lemma FloatingMoves(d: Desk, monitor: Monitor, a: nat, b: nat, w: WindowId, blank: Workspace, layoutOk: bool)
    requires a <= 8 && b <= 8 && a != b && Holds(d, monitor, a, w) && IsFloating(d.spaces[monitor][a], w)
    requires !Contains(Grid(d, monitor, b, blank)[b], w)
    ensures
      var v := Grid(d, monitor, b, blank);
      var d' := MoveTo(d, monitor, a, w, b + 1, blank, layoutOk).0;
      && d'.spaces.Keys == d.spaces.Keys && |d'.spaces[monitor]| == |v| && d'.origins == d.origins - {w}
      && (forall m :: m in d.spaces && m != monitor ==> d'.spaces[m] == d.spaces[m])
      && (forall k :: 0 <= k < |v| && k != a && k != b ==> d'.spaces[monitor][k] == v[k])
      && var i := FindFloating(v[a].floating, w).value;
         && d'.spaces[monitor][a] == v[a].(floating := v[a].floating[..i] + v[a].floating[i + 1..])
         && d'.spaces[monitor][b] == v[b].(floating := v[b].floating + [Floating(w, v[a].floating[i].rect, false)])
  {}

  /** What the command answers. An index out of range is an error, and a window that is not there, or already
      where it should go, is none; both change nothing. Otherwise the only errors are a target that has the
      window already and a layout that cannot be applied. */
  lemma MoveAnswers(d: Desk, monitor: Monitor, current: nat, w: WindowId, index: nat, blank: Workspace, layoutOk: bool)
    requires AllSound(d, blank)
    ensures
      var (d', outcome) := MoveTo(d, monitor, current, w, index, blank, layoutOk);
      if index < 1 || index > 9 then outcome == BadIndex && d' == d
      else if index == current + 1 || !Holds(d, monitor, current, w) then outcome == NoOp && d' == d
      else if Contains(EnsureExists(d.spaces[monitor], index - 1, blank)[index - 1], w) then outcome == InsertFailed
      else outcome == if layoutOk then Done else LayoutFailed
  {
    hide Step;
    if Effective(d, monitor, current, w, index) { MoveSucceeds(d, monitor, current, w, index, blank, layoutOk); }
  }
}
