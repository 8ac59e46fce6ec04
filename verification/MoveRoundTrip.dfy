/** Moving a tiled window away and back: which layouts return to what they were. */
module MoveRoundTrip {
  import opened Prelude
  import opened Columns
  import opened Workspaces
  import opened MoveWindow

  /** Where an arriving window ends up in the target's columns. */
  function LandingColumn(ws: Workspace, landing: Landing): nat {
    match landing
    case Stack(c) => c
    case NewColumnAt(c) => Min(c, |ws.columns|)
    case Default => if ws.columns == [] then 0 else ws.focusedColumn + 1
  }

  predicate CanLand(ws: Workspace, landing: Landing) { landing.Stack? ==> landing.column < |ws.columns| }

  /** The width of the column an arriving window ends up in. */
  function LandedWidth(ws: Workspace, width: int, landing: Landing): int
    requires CanLand(ws, landing)
  {
    if landing.Stack? then ws.columns[landing.column].width else Max(width, MIN_COLUMN_WIDTH)
  }

  /** A shape gained at the end of a column, or as a column of its own. */
  function Grown(shapes: seq<Shape>, k: nat, stacked: bool, w: WindowId, width: int): seq<Shape>
    requires if stacked then k < |shapes| else k <= |shapes|
  {
    if stacked then shapes[k := Shape(shapes[k].width, shapes[k].windows + [w])]
    else Inserted(shapes, k, Shape(width, [w]))
  }

  /** A shape lost from the end of a column, or with its column. */
  function Shrunk(shapes: seq<Shape>, k: nat): seq<Shape>
    requires k < |shapes| && shapes[k].windows != []
  {
    var n := |shapes[k].windows|;
    if n == 1 then Without(shapes, k) else shapes[k := Shape(shapes[k].width, Without(shapes[k].windows, n - 1))]
  }

  lemma ShrunkGrown(shapes: seq<Shape>, k: nat, stacked: bool, w: WindowId, width: int)
    requires if stacked then k < |shapes| && shapes[k].windows != [] else k <= |shapes|
    ensures var g := Grown(shapes, k, stacked, w, width); k < |g| && g[k].windows != [] && Shrunk(g, k) == shapes
  {
    var g := Grown(shapes, k, stacked, w, width);
    if stacked {
      assert Without(g[k].windows, |shapes[k].windows|) == shapes[k].windows;
    }
  }

  lemma LastPosition(ws: seq<WindowId>, w: WindowId)
    requires w !in ws
    ensures Position(ws + [w], w) == Some(|ws|)
  {
    var p := Position(ws + [w], w).value;
    assert forall j :: 0 <= j < |ws| ==> (ws + [w])[j] == ws[j];
    assert (ws + [w])[|ws|] == w;
  }

  /** `w` sits last in column `k` of `there`, whose layout is `g`. */
  ghost predicate SitsLast(there: Workspace, g: seq<Shape>, k: nat, w: WindowId) {
    && Shapes(there) == g && k < |g| && g[k].windows != []
    && g[k].windows[|g[k].windows| - 1] == w && w !in g[k].windows[..|g[k].windows| - 1]
    && forall j :: 0 <= j < |g| && j != k ==> w !in g[j].windows
  }

  lemma LeavesLast(there: Workspace, g: seq<Shape>, k: nat, w: WindowId)
    requires SitsLast(there, g, k, w)
    ensures FindColumn(there.columns, w) == Some(k) && TiledWidth(there, w) == Some(g[k].width)
    ensures RemoveWindow(there, w).Ok? && RemoveWindow(there, w).value.floating == there.floating
    ensures Shapes(RemoveWindow(there, w).value) == Shrunk(g, k)
  {
    hide RemoveWindow;
    var ws := g[k].windows;
    assert g[k] == ShapeOf(there.columns[k]);
    FindByShapes(there, w, k);
    LastPosition(ws[..|ws| - 1], w);
    assert ws[..|ws| - 1] + [w] == ws;
    RemoveShapes(there, w);
  }

  lemma GrownSitsLast(shapes: seq<Shape>, k: nat, stacked: bool, w: WindowId, width: int, there: Workspace)
    requires if stacked then k < |shapes| else k <= |shapes|
    requires forall j :: 0 <= j < |shapes| ==> w !in shapes[j].windows
    requires Shapes(there) == Grown(shapes, k, stacked, w, width)
    ensures SitsLast(there, Shapes(there), k, w)
  {
    var g := Grown(shapes, k, stacked, w, width);
    if stacked {
      assert g[k].windows[..|g[k].windows| - 1] == shapes[k].windows;
    } else {
      assert forall j :: 0 <= j < |g| && j != k ==> g[j] == shapes[if j < k then j else j - 1];
    }
  }

  /** The workspace a window has just been moved to. */
  function Visited(b: Workspace, w: WindowId, width: int, landing: Landing): Workspace {
    FocusWindow(OrElse(Arrive(b, w, Some(width), landing), b), w)
  }

  /** Arriving and leaving again changes nothing in the visited workspace's layout, and the window
      takes the width of the column it stayed in along. */
  lemma VisitLeavesNoTrace(b: Workspace, w: WindowId, width: int, landing: Landing)
    requires Sound(b) && !Contains(b, w) && CanLand(b, landing)
    ensures Arrive(b, w, Some(width), landing).Ok?
    ensures
      var there := Visited(b, w, width, landing);
      && !IsFloating(there, w) && there.floating == b.floating
      && FindColumn(there.columns, w) == Some(LandingColumn(b, landing))
      && TiledWidth(there, w) == Some(LandedWidth(b, width, landing))
      && RemoveWindow(there, w).Ok?
      && Shapes(RemoveWindow(there, w).value) == Shapes(b)
      && RemoveWindow(there, w).value.floating == b.floating
  {
    hide RemoveWindow, FocusWindow;
    var k, there := LandingColumn(b, landing), Visited(b, w, width, landing);
    ArriveShapes(b, w, Some(width), landing);
    FocusShapes(Arrive(b, w, Some(width), landing).value, w);
    assert Shapes(there) == Grown(Shapes(b), k, landing.Stack?, w, LandedWidth(b, width, landing));
    hide Arrive;
    ShapesHold(b, w);
    GrownSitsLast(Shapes(b), k, landing.Stack?, w, LandedWidth(b, width, landing), there);
    LeavesLast(there, Shapes(there), k, w);
    ShrunkGrown(Shapes(b), k, landing.Stack?, w, LandedWidth(b, width, landing));
  }

  // ---------------------------------------------------------------- coming home

  /** The landing a recorded origin asks for. */
  function HomeLanding(left: Workspace, column: nat, sibling: Option<WindowId>): Landing {
    match SiblingColumn(left, sibling)
    case Some(c) => Stack(c)
    case None => NewColumnAt(column)
  }

  /** `w` back in its column: alone with the width it brings, or below its former neighbours. */
  function Homecoming(a: Workspace, w: WindowId, width: int): seq<Shape>
    requires FindColumn(a.columns, w).Some?
  {
    var c := FindColumn(a.columns, w).value;
    var ws := a.columns[c].windows;
    Shapes(a)[c := if |ws| == 1 then Shape(Max(width, MIN_COLUMN_WIDTH), [w])
                   else Shape(a.columns[c].width, Without(ws, Position(ws, w).value) + [w])]
  }

  /** The surviving sibling still marks the column the window left. */
  lemma SiblingStays(a: Workspace, w: WindowId)
    requires Sound(a) && FindColumn(a.columns, w).Some? && RemoveWindow(a, w).Ok?
    ensures
      var c := FindColumn(a.columns, w).value;
      var left := RemoveWindow(a, w).value;
      var sibling := FirstOther(a.columns[c].windows, w);
      HomeLanding(left, c, sibling) == if |a.columns[c].windows| == 1 then NewColumnAt(c) else Stack(c)
  {
    hide RemoveWindow;
    RemoveShapes(a, w);
    var c := FindColumn(a.columns, w).value;
    var left, ws := RemoveWindow(a, w).value, a.columns[c].windows;
    var row := Position(ws, w).value;
    if |ws| > 1 {
      WithoutDistinct(ws, row);
      var other := if row == 0 then 1 else 0;
      assert ws[other] != w;
      var s := FirstOther(ws, w).value;
      assert s in Without(ws, row) by {
        var p :| 0 <= p < |ws| && ws[p] == s;
        assert Without(ws, row)[if p < row then p else p - 1] == s;
      }
      FindByShapes(left, s, c);
    }
  }

  lemma FreeToLand(ws: Workspace, w: WindowId, width: int, landing: Landing)
    requires !Contains(ws, w) && CanLand(ws, landing)
    ensures Arrive(ws, w, Some(width), landing).Ok?
  {}

  /** The layout after the window is inserted at the home landing. */
  lemma HomeShapes(a: Workspace, w: WindowId, width: int)
    requires Sound(a) && FindColumn(a.columns, w).Some? && RemoveWindow(a, w).Ok?
    ensures
      var c := FindColumn(a.columns, w).value;
      var left := RemoveWindow(a, w).value;
      var arrived := Arrive(left, w, Some(width), HomeLanding(left, c, FirstOther(a.columns[c].windows, w)));
      arrived.Ok? && Shapes(arrived.value) == Homecoming(a, w, width) && arrived.value.floating == a.floating
  {
    hide RemoveWindow, Contains, Arrive;
    var c := FindColumn(a.columns, w).value;
    var left := RemoveWindow(a, w).value;
    RemovedGone(a, w);
    RemoveShapes(a, w);
    RemovedInRange(a, w);
    SiblingStays(a, w);
    hide HomeLanding, Sound, Inserted, Without;
    var home := HomeLanding(left, c, FirstOther(a.columns[c].windows, w));
    assert |Shapes(left)| == |left.columns| && |Shapes(a)| == |a.columns|;
    FreeToLand(left, w, width, home);
    ArriveShapes(left, w, Some(width), home);
    if home.Stack? {
      assert ShapeOf(left.columns[c]) == Shapes(left)[c];
    } else {
      Reinserted(Shapes(a), c, Shape(Max(width, MIN_COLUMN_WIDTH), [w]));
    }
  }

  lemma Reinserted(shapes: seq<Shape>, c: nat, shape: Shape)
    requires c < |shapes|
    ensures Inserted(Without(shapes, c), c, shape) == shapes[c := shape]
  {}

  lemma HomeVisited(a: Workspace, w: WindowId, width: int)
    requires Sound(a) && FindColumn(a.columns, w).Some? && RemoveWindow(a, w).Ok?
    ensures
      var c := FindColumn(a.columns, w).value;
      var left := RemoveWindow(a, w).value;
      var home := Visited(left, w, width, HomeLanding(left, c, FirstOther(a.columns[c].windows, w)));
      Shapes(home) == Homecoming(a, w, width) && home.floating == a.floating
  {
    hide RemoveWindow, Arrive, Homecoming, FocusWindow;
    var c := FindColumn(a.columns, w).value;
    var left := RemoveWindow(a, w).value;
    HomeShapes(a, w, width);
    FocusShapes(Arrive(left, w, Some(width), HomeLanding(left, c, FirstOther(a.columns[c].windows, w))).value, w);
  }

  lemma RemovedInRange(a: Workspace, w: WindowId)
    requires RemoveWindow(a, w).Ok?
    ensures
      var left := RemoveWindow(a, w).value;
      left.columns != [] ==> left.focusedColumn < |left.columns|
  {
    RemovedFocus(a, w);
  }

  /** A lone window comes home exactly when it brings its own width back; a stacked one exactly
      when it was the last of its column. Its column always has the same windows. */
  lemma HomecomingExact(a: Workspace, w: WindowId, width: int)
    requires Sound(a) && FindColumn(a.columns, w).Some?
    ensures
      var c := FindColumn(a.columns, w).value;
      var ws := a.columns[c].windows;
      && (Homecoming(a, w, width) == Shapes(a) <==>
          if |ws| == 1 then Max(width, MIN_COLUMN_WIDTH) == a.columns[c].width else ws[|ws| - 1] == w)
      && multiset(Homecoming(a, w, width)[c].windows) == multiset(ws)
  {
    var c := FindColumn(a.columns, w).value;
    var ws := a.columns[c].windows;
    var row := Position(ws, w).value;
    var h := Homecoming(a, w, width);
    assert h[c] == Shapes(a)[c] ==> h == Shapes(a);
    if |ws| == 1 {
      assert ws == [w];
    } else {
      Bottomed(ws, row);
    }
  }

  /** Taking a window out and adding it at the bottom is the identity only for the last one. */
  lemma Bottomed(ws: seq<WindowId>, row: nat)
    requires Distinct(ws) && row < |ws|
    ensures
      var back := Without(ws, row) + [ws[row]];
      multiset(back) == multiset(ws) && (back == ws <==> ws[|ws| - 1] == ws[row])
  {
    var back := Without(ws, row) + [ws[row]];
    assert ws == ws[..row] + [ws[row]] + ws[row + 1..];
    assert back[|ws| - 1] == ws[row];
    if row == |ws| - 1 { assert back == ws; }
  }

  // ------------------------------------------------------------------ rollback

  /** A refused move puts the window back in its column but at the bottom of it, so widths and window
      order are as before exactly when the window was there already. */
  lemma RollbackRestores(src: Workspace, dst: Workspace, w: WindowId, landing: Landing)
    requires Sound(src) && FindColumn(src.columns, w).Some?
    requires Contains(dst, w) && CanLand(dst, landing)
    ensures
      var ws := src.columns[FindColumn(src.columns, w).value].windows;
      var t := TransferTiled(src, dst, w, landing);
      && t.Refused? && t.src.floating == src.floating
      && Shapes(t.src) == Homecoming(src, w, TiledWidth(src, w).value)
      && (Shapes(t.src) == Shapes(src) <==> ws[|ws| - 1] == w)
  {
    hide RemoveWindow, Homecoming, Rollback;
    var c := FindColumn(src.columns, w).value;
    var width := TiledWidth(src, w);
    TiledRefused(src, dst, w, landing);
    var left := RemoveWindow(src, w).value;
    RemovedGone(src, w);
    RollbackArrives(left, w, width, TiledOrigin(src, w));
    HomeShapes(src, w, width.value);
    HomecomingExact(src, w, width.value);
    hide Arrive;
  }

  /** Two stacked windows, the upper one refused by a target that already has it: they end up
      swapped, although a failed move is meant to leave the layout exactly as it was. */
  lemma RollbackReorders()
    ensures
      var src := Workspace([ColumnState(800, [1, 2], [], Vertical)], 0, 0, [], 800);
      var dst := Workspace([NewColumn(1, 800)], 0, 0, [], 800);
      var t := TransferTiled(src, dst, 1, Default);
      Sound(src) && t.Refused? && Shapes(t.src) == [Shape(800, [2, 1])]
  {
    hide TransferTiled, Sound;
    var src := Workspace([ColumnState(800, [1, 2], [], Vertical)], 0, 0, [], 800);
    var dst := Workspace([NewColumn(1, 800)], 0, 0, [], 800);
    PairSound(src);
    assert 1 in src.columns[0].windows && 1 in dst.columns[0].windows;
    RollbackRestores(src, dst, 1, Default);
    assert Position([1, 2], 1) == Some(0);
    assert Without([1, 2], 0) + [1] == [2, 1];
  }

  lemma PairSound(ws: Workspace)
    requires ws == Workspace([ColumnState(800, [1, 2], [], Vertical)], 0, 0, [], 800)
    ensures Sound(ws)
  {}

  // ----------------------------------------------------------- the whole command

  /** The monitor's workspaces once workspace `idx` has been made to exist. */
  function Grid(d: Desk, monitor: Monitor, idx: nat, blank: Workspace): seq<Workspace>
    requires monitor in d.spaces
  {
    EnsureExists(d.spaces[monitor], idx, blank)
  }

  /** A tiled window that the target does not hold yet can be moved there. */
  ghost predicate Movable(d: Desk, monitor: Monitor, a: nat, b: nat, w: WindowId, blank: Workspace) {
    && a <= 8 && b <= 8 && a != b && Holds(d, monitor, a, w)
    && !IsFloating(d.spaces[monitor][a], w) && !Contains(Grid(d, monitor, b, blank)[b], w)
  }

  lemma LandingFits(origins: map<WindowId, Origin>, monitor: Monitor, idx: nat, target: Workspace, w: WindowId)
    ensures CanLand(target, ChooseLanding(origins, monitor, idx, target, w))
  {}

  /** The desk after a successful move of a tiled window. */
  lemma TiledMove(d: Desk, monitor: Monitor, a: nat, b: nat, w: WindowId, blank: Workspace, layoutOk: bool)
    requires Movable(d, monitor, a, b, w, blank)
    ensures
      var v := Grid(d, monitor, b, blank);
      var c := FindColumn(v[a].columns, w);
      && c.Some? && RemoveWindow(v[a], w).Ok?
      && MoveTo(d, monitor, a, w, b + 1, blank, layoutOk).0 == Desk(
           d.spaces[monitor := v[a := RemoveWindow(v[a], w).value]
                                [b := Visited(v[b], w, v[a].columns[c.value].width,
                                              ChooseLanding(d.origins, monitor, b, v[b], w))]],
           d.origins[w := Origin(monitor, a, c.value, FirstOther(v[a].columns[c.value].windows, w))])
  {
    hide RemoveWindow, FocusWindow;
    var v := Grid(d, monitor, b, blank);
    var landing := ChooseLanding(d.origins, monitor, b, v[b], w);
    LandingFits(d.origins, monitor, b, v[b], w);
    FreeToLand(v[b], w, v[a].columns[FindColumn(v[a].columns, w).value].width, landing);
    RemoveShapes(v[a], w);
    hide Arrive, ChooseLanding;
  }

  /** The monitor's workspaces after moving `w` to another one and straight back. */
  function ThereAndBack(d: Desk, monitor: Monitor, a: nat, b: nat, w: WindowId, blank: Workspace, ok1: bool,
      ok2: bool): seq<Workspace> {
    var there := MoveTo(d, monitor, a, w, b + 1, blank, ok1).0;
    var back := MoveTo(there, monitor, b, w, a + 1, blank, ok2).0;
    if monitor in back.spaces then back.spaces[monitor] else []
  }

  /** The workspaces after moving away and straight back: the visited one is the arrival undone, and
      the home one an arrival at the home landing. */
  lemma RoundTripIs(d: Desk, monitor: Monitor, a: nat, b: nat, w: WindowId, blank: Workspace, ok1: bool, ok2: bool)
    requires AllSound(d, blank) && Movable(d, monitor, a, b, w, blank)
    ensures
      var v := Grid(d, monitor, b, blank);
      var landing := ChooseLanding(d.origins, monitor, b, v[b], w);
      var back := ThereAndBack(d, monitor, a, b, w, blank, ok1, ok2);
      && FindColumn(v[a].columns, w).Some? && RemoveWindow(v[a], w).Ok? && CanLand(v[b], landing)
      && |back| == |v| && (forall k :: 0 <= k < |v| && k != a && k != b ==> back[k] == v[k])
      && var c := FindColumn(v[a].columns, w).value;
         var there, left := Visited(v[b], w, v[a].columns[c].width, landing), RemoveWindow(v[a], w).value;
         && RemoveWindow(there, w).Ok? && back[b] == RemoveWindow(there, w).value
         && back[a] == Visited(left, w, LandedWidth(v[b], v[a].columns[c].width, landing),
                               HomeLanding(left, c, FirstOther(v[a].columns[c].windows, w)))
  {
    hide RemoveWindow, FocusWindow, MoveTo, Arrive, Visited;
    var v := Grid(d, monitor, b, blank);
    var c := FindColumn(v[a].columns, w).value;
    var landing := ChooseLanding(d.origins, monitor, b, v[b], w);
    var width := v[a].columns[c].width;
    TiledMove(d, monitor, a, b, w, blank, ok1);
    LandingFits(d.origins, monitor, b, v[b], w);
    VisitLeavesNoTrace(v[b], w, width, landing);
    var there, left := Visited(v[b], w, width, landing), RemoveWindow(v[a], w).value;
    RemovedGone(v[a], w);
    var d1 := MoveTo(d, monitor, a, w, b + 1, blank, ok1).0;
    assert Grid(d1, monitor, a, blank) == v[a := left][b := there];
    TiledMove(d1, monitor, b, a, w, blank, ok2);
  }

  /** Only the column the window left can differ in width or window order after coming back. */
  lemma RoundTrip(d: Desk, monitor: Monitor, a: nat, b: nat, w: WindowId, blank: Workspace, ok1: bool, ok2: bool)
    requires AllSound(d, blank) && Movable(d, monitor, a, b, w, blank)
    ensures
      var v := Grid(d, monitor, b, blank);
      var landing := ChooseLanding(d.origins, monitor, b, v[b], w);
      var c := FindColumn(v[a].columns, w);
      var back := ThereAndBack(d, monitor, a, b, w, blank, ok1, ok2);
      && c.Some? && CanLand(v[b], landing)
      && |back| == |v| && (forall k :: 0 <= k < |v| && k != a && k != b ==> back[k] == v[k])
      && back[b].floating == v[b].floating && back[a].floating == v[a].floating
      && Shapes(back[b]) == Shapes(v[b])
      && Shapes(back[a]) ==
           Homecoming(v[a], w, LandedWidth(v[b], v[a].columns[c.value].width, landing))
  {
    hide RemoveWindow, MoveTo, Visited, Homecoming, ThereAndBack;
    var v := Grid(d, monitor, b, blank);
    var landing := ChooseLanding(d.origins, monitor, b, v[b], w);
    RoundTripIs(d, monitor, a, b, w, blank, ok1, ok2);
    var width := v[a].columns[FindColumn(v[a].columns, w).value].width;
    VisitLeavesNoTrace(v[b], w, width, landing);
    HomeVisited(v[a], w, LandedWidth(v[b], width, landing));
  }

  lemma SoundGrid(d: Desk, monitor: Monitor, a: nat, b: nat, blank: Workspace)
    requires AllSound(d, blank) && monitor in d.spaces && a < |d.spaces[monitor]|
    ensures Sound(Grid(d, monitor, b, blank)[a])
  {}

  /** Moving a tiled window away and straight back restores widths and window order exactly when it
      stayed alone and did not stack in a column of another width, or was the last of its stack. */
  lemma RoundTripRestores(d: Desk, monitor: Monitor, a: nat, b: nat, w: WindowId, blank: Workspace, ok1: bool,
      ok2: bool)
    requires AllSound(d, blank) && Movable(d, monitor, a, b, w, blank)
    ensures
      var v := Grid(d, monitor, b, blank);
      var landing := ChooseLanding(d.origins, monitor, b, v[b], w);
      var back := ThereAndBack(d, monitor, a, b, w, blank, ok1, ok2);
      && CanLand(v[b], landing) && a < |back|
      && (Shapes(back[a]) == Shapes(v[a]) <==> ComesBackExactly(v[a], v[b], w, landing))
  {
    SoundGrid(d, monitor, a, b, blank);
    RoundTrip(d, monitor, a, b, w, blank, ok1, ok2);
    hide ThereAndBack, ChooseLanding, Homecoming, Shapes, AllSound, Movable, EnsureExists;
    var v := Grid(d, monitor, b, blank);
    var landing := ChooseLanding(d.origins, monitor, b, v[b], w);
    ExactlyComesBack(v[a], v[b], w, landing);
  }

  predicate ComesBackExactly(home: Workspace, visited: Workspace, w: WindowId, landing: Landing)
    requires FindColumn(home.columns, w).Some? && CanLand(visited, landing)
  {
    var col := home.columns[FindColumn(home.columns, w).value];
    if col.windows == [w] then landing.Stack? ==> visited.columns[landing.column].width == col.width
    else col.windows[|col.windows| - 1] == w
  }

  lemma ExactlyComesBack(home: Workspace, visited: Workspace, w: WindowId, landing: Landing)
    requires Sound(home) && FindColumn(home.columns, w).Some? && CanLand(visited, landing)
    requires landing.Stack? ==> visited.columns[landing.column].width >= MIN_COLUMN_WIDTH
    ensures
      var width := home.columns[FindColumn(home.columns, w).value].width;
      Homecoming(home, w, LandedWidth(visited, width, landing)) == Shapes(home) <==>
            ComesBackExactly(home, visited, w, landing)
  {
    hide Homecoming, Shapes;
    var col := home.columns[FindColumn(home.columns, w).value];
    HomecomingExact(home, w, LandedWidth(visited, col.width, landing));
    assert |col.windows| == 1 <==> col.windows == [w];
  }

  /** With no earlier origin for the destination a lone window always comes back as it was, and a
      stacked one rejoins its neighbours' column. */
  lemma FirstRoundTrip(d: Desk, monitor: Monitor, a: nat, b: nat, w: WindowId, blank: Workspace, ok1: bool, ok2: bool)
    requires AllSound(d, blank) && Movable(d, monitor, a, b, w, blank)
    requires w in d.origins ==> d.origins[w].monitor != monitor || d.origins[w].wsIdx != b
    ensures
      var v := Grid(d, monitor, b, blank);
      var back := ThereAndBack(d, monitor, a, b, w, blank, ok1, ok2);
      a < |back| && Rejoined(v[a], Shapes(back[a]), w)
  {
    assert ChooseLanding(d.origins, monitor, b, Grid(d, monitor, b, blank)[b], w) == Default;
    SoundGrid(d, monitor, a, b, blank);
    RoundTrip(d, monitor, a, b, w, blank, ok1, ok2);
    hide ThereAndBack, ChooseLanding, Homecoming, Shapes, AllSound, Movable, EnsureExists, Rejoined;
    HomecomingRejoins(Grid(d, monitor, b, blank)[a], w);
  }

  /** The layout is as before but for the order within the column `w` came from. */
  ghost predicate Rejoined(home: Workspace, after: seq<Shape>, w: WindowId)
    requires FindColumn(home.columns, w).Some?
  {
    var c := FindColumn(home.columns, w).value;
    var before := Shapes(home);
    && |after| == |before| && (forall k :: 0 <= k < |before| && k != c ==> after[k] == before[k])
    && after[c].width == before[c].width && multiset(after[c].windows) == multiset(before[c].windows)
    && (before[c].windows == [w] ==> after == before)
  }

  lemma HomecomingRejoins(home: Workspace, w: WindowId)
    requires Sound(home) && FindColumn(home.columns, w).Some?
    ensures
      var width := home.columns[FindColumn(home.columns, w).value].width;
      Rejoined(home, Homecoming(home, w, Max(width, MIN_COLUMN_WIDTH)), w)
  {
    HomecomingExact(home, w, home.columns[FindColumn(home.columns, w).value].width);
  }

  /** A lone window 800 wide visits a stack 500 wide, where it was before, and comes back 500 wide. */
  lemma RoundTripNarrows()
    ensures
      var blank := Workspace([], 0, 0, [], 800);
      var home, away := blank.(columns := [NewColumn(1, 800)]), blank.(columns := [NewColumn(2, 500)]);
      var d := Desk(map[0 := [home, away]], map[1 := Origin(0, 1, 0, Some(2))]);
      && AllSound(d, blank) && Movable(d, 0, 0, 1, 1, blank) && Grid(d, 0, 1, blank) == [home, away]
      && |ThereAndBack(d, 0, 0, 1, 1, blank, true, true)| == 2
      && Shapes(ThereAndBack(d, 0, 0, 1, 1, blank, true, true)[0]) != Shapes(home)
  {
    var blank := Workspace([], 0, 0, [], 800);
    var home, away := blank.(columns := [NewColumn(1, 800)]), blank.(columns := [NewColumn(2, 500)]);
    var d := Desk(map[0 := [home, away]], map[1 := Origin(0, 1, 0, Some(2))]);
    LoneSound(blank, 1, 800);
    LoneSound(blank, 2, 500);
    assert 1 in home.columns[0].windows && 2 in away.columns[0].windows;
    assert ChooseLanding(d.origins, 0, 1, away, 1) == Stack(0);
    assert d.spaces[0] == [home, away];
    hide Sound, ThereAndBack, ChooseLanding;
    RoundTrip(d, 0, 0, 1, 1, blank, true, true);
    RoundTripRestores(d, 0, 0, 1, 1, blank, true, true);
  }

  lemma LoneSound(blank: Workspace, w: WindowId, width: int)
    requires blank == Workspace([], 0, 0, [], 800)
    ensures Sound(blank) && Sound(blank.(columns := [NewColumn(w, width)]))
  {
    assert SoundColumn(NewColumn(w, width));
  }
}
