/** Moving a window to another workspace of its monitor: the choice of where it lands, the
    rollback, and the remembered origin that lets it come back. */
module MoveWindow {
  import opened Prelude
  import opened Columns
  import opened Workspaces
  import opened WorkspaceSoundness
  import opened Tally

  type Monitor = nat

  /** Where a tiled window sat before it was moved away. */
  datatype Origin = Origin(monitor: Monitor, wsIdx: nat, column: nat, sibling: Option<WindowId>)

  datatype Landing = Default | Stack(column: nat) | NewColumnAt(column: nat)

  datatype Desk = Desk(spaces: map<Monitor, seq<Workspace>>, origins: map<WindowId, Origin>)

  datatype Outcome = Done | NoOp | BadIndex | RemoveFailed | InsertFailed | LayoutFailed

  function TiledWidth(ws: Workspace, w: WindowId): Option<int> {
    match FindColumn(ws.columns, w)
    case None => None
    case Some(c) => Some(ws.columns[c].width)
  }

  function FirstOther(windows: seq<WindowId>, w: WindowId): (r: Option<WindowId>)
    ensures r.Some? ==> r.value in windows && r.value != w
    ensures r.None? ==> forall k :: 0 <= k < |windows| ==> windows[k] == w
  {
    if windows == [] then None
    else if windows[0] != w then Some(windows[0])
    else FirstOther(windows[1..], w)
  }

  function TiledOrigin(ws: Workspace, w: WindowId): Option<(nat, Option<WindowId>)> {
    match FindColumn(ws.columns, w)
    case None => None
    case Some(c) => Some((c, FirstOther(ws.columns[c].windows, w)))
  }

  function SiblingColumn(ws: Workspace, sibling: Option<WindowId>): Option<nat> {
    match sibling
    case None => None
    case Some(s) => FindColumn(ws.columns, s)
  }

  /** Back next to a surviving sibling, else at the remembered column, else right of the focus. */
  function ChooseLanding(origins: map<WindowId, Origin>, monitor: Monitor, idx: nat, target: Workspace,
      w: WindowId): Landing {
    if w in origins && origins[w].monitor == monitor && origins[w].wsIdx == idx then
      match SiblingColumn(target, origins[w].sibling)
      case Some(c) => Stack(c)
      case None => NewColumnAt(origins[w].column)
    else Default
  }

  function Arrive(ws: Workspace, w: WindowId, width: Option<int>, landing: Landing): Result<Workspace, LayoutError> {
    match landing
    case Stack(c) => InsertInColumn(ws, w, c)
    case NewColumnAt(c) => InsertAtColumn(ws, w, width, c)
    case Default => InsertWindow(ws, w, width)
  }

  function OrElse(r: Result<Workspace, LayoutError>, ws: Workspace): Workspace {
    if r.Ok? then r.value else ws
  }

  /** Puts a removed window back after the target refused it. */
  function Rollback(src: Workspace, w: WindowId, width: Option<int>,
      origin: Option<(nat, Option<WindowId>)>): Workspace {
    match (if origin.Some? then SiblingColumn(src, origin.value.1) else None)
    case Some(c) => OrElse(InsertInColumn(src, w, c), src)
    case None =>
      if origin.Some? then OrElse(InsertAtColumn(src, w, width, origin.value.0), src)
      else OrElse(InsertWindow(src, w, width), src)
  }

  datatype Transfer = Moved(src: Workspace, dst: Workspace) | Refused(src: Workspace) | NotRemoved

  function TransferTiled(src: Workspace, dst: Workspace, w: WindowId, landing: Landing): Transfer {
    var width := TiledWidth(src, w);
    match RemoveWindow(src, w)
    case Err(_) => NotRemoved
    case Ok(left) =>
      match Arrive(dst, w, width, landing)
      case Ok(arrived) => Moved(left, FocusWindow(arrived, w))
      case Err(_) => Refused(Rollback(left, w, width, TiledOrigin(src, w)))
  }

  function FloatingRect(ws: Workspace, w: WindowId): Rect {
    match FindFloating(ws.floating, w)
    case Some(i) => ws.floating[i].rect
    case None => Rect(0, 0, 800, 600)
  }

  function TransferFloating(src: Workspace, dst: Workspace, w: WindowId): Transfer {
    var rect := FloatingRect(src, w);
    var left := RemoveFloating(src, w);
    match AddFloating(dst, w, rect)
    case Ok(arrived) => Moved(left, arrived)
    case Err(_) => Refused(OrElse(AddFloating(left, w, rect), left))
  }

  /** Workspaces created on demand are empty copies of `blank`. */
  function EnsureExists(v: seq<Workspace>, idx: nat, blank: Workspace): (r: seq<Workspace>)
    ensures v <= r && idx < |r| && forall k :: |v| <= k < |r| ==> r[k] == blank
  {
    if idx < |v| then v else v + seq(idx + 1 - |v|, _ => blank)
  }

  function TransferWindow(d: Desk, monitor: Monitor, current: nat, idx: nat, w: WindowId, blank: Workspace): Transfer
    requires monitor in d.spaces && current < |d.spaces[monitor]|
  {
    var v := EnsureExists(d.spaces[monitor], idx, blank);
    var src, dst := v[current], v[idx];
    if IsFloating(src, w) then TransferFloating(src, dst, w)
    else TransferTiled(src, dst, w, ChooseLanding(d.origins, monitor, idx, dst, w))
  }

  function OriginsAfter(d: Desk, monitor: Monitor, current: nat, w: WindowId): map<WindowId, Origin>
    requires monitor in d.spaces && current < |d.spaces[monitor]|
  {
    var src := d.spaces[monitor][current];
    if IsFloating(src, w) then d.origins - {w}
    else
      match TiledOrigin(src, w)
      case Some((column, sibling)) => d.origins[w := Origin(monitor, current, column, sibling)]
      case None => d.origins
  }

  predicate Holds(d: Desk, monitor: Monitor, current: nat, w: WindowId) {
    monitor in d.spaces && current < |d.spaces[monitor]| && Contains(d.spaces[monitor][current], w)
  }

  predicate Effective(d: Desk, monitor: Monitor, current: nat, w: WindowId, index: nat) {
    1 <= index <= 9 && index - 1 != current && Holds(d, monitor, current, w)
  }

  /** What each transfer leaves behind on the monitor's workspaces `v`. */
  function Commit(d: Desk, monitor: Monitor, current: nat, idx: nat, w: WindowId, v: seq<Workspace>, t: Transfer,
      layoutOk: bool): (Desk, Outcome)
    requires monitor in d.spaces && current < |d.spaces[monitor]| && d.spaces[monitor] <= v && idx < |v|
  {
    match t
    case NotRemoved => (d.(spaces := d.spaces[monitor := v]), RemoveFailed)
    case Refused(src) => (d.(spaces := d.spaces[monitor := v[current := src]]), InsertFailed)
    case Moved(src, dst) =>
      (Desk(d.spaces[monitor := v[current := src][idx := dst]], OriginsAfter(d, monitor, current, w)),
       if layoutOk then Done else LayoutFailed)
  }

  /** A move that has something to move: the transfer and what it leaves behind. */
  function Step(d: Desk, monitor: Monitor, current: nat, idx: nat, w: WindowId, blank: Workspace,
      layoutOk: bool): (Desk, Outcome)
    requires monitor in d.spaces && current < |d.spaces[monitor]|
  {
    Commit(d, monitor, current, idx, w, EnsureExists(d.spaces[monitor], idx, blank),
           TransferWindow(d, monitor, current, idx, w, blank), layoutOk)
  }

  /** The whole command; `index` is 1-based and `layoutOk` says whether applying the layout
      succeeds afterwards. */
  function MoveTo(d: Desk, monitor: Monitor, current: nat, w: WindowId, index: nat, blank: Workspace,
      layoutOk: bool): (Desk, Outcome) {
    if Effective(d, monitor, current, w, index) then Step(d, monitor, current, index - 1, w, blank, layoutOk)
    else (d, if 1 <= index <= 9 then NoOp else BadIndex)
  }

  // ------------------------------------------------------------ conservation

  /** A window together with the way it is held; a floating window with its position. */
  datatype Item = TiledItem(w: WindowId) | FloatingItem(w: WindowId, rect: Rect)

  function InShape(w: WindowId): Shape -> nat { (s: Shape) => multiset(s.windows)[w] }

  function AsFloating(w: WindowId, rect: Rect): Floating -> nat {
    (f: Floating) => if f.id == w && f.rect == rect then 1 else 0
  }

  /** How often a workspace holds an item. */
  ghost function Held(ws: Workspace, item: Item): nat {
    match item
    case TiledItem(w) => Total(Shapes(ws), InShape(w))
    case FloatingItem(w, rect) => Total(ws.floating, AsFloating(w, rect))
  }

  ghost function InWorkspace(item: Item): Workspace -> nat { (ws: Workspace) => Held(ws, item) }

  /** How often the workspaces of one monitor hold an item. */
  ghost function HeldBy(v: seq<Workspace>, item: Item): nat { Total(v, InWorkspace(item)) }

  ghost function One(item: Item, other: Item): nat { if item == other then 1 else 0 }

  lemma CountWithout(windows: seq<WindowId>, i: nat, x: WindowId)
    requires i < |windows|
    ensures multiset(windows)[x] == multiset(Without(windows, i))[x] + if windows[i] == x then 1 else 0
  {
    assert windows == windows[..i] + [windows[i]] + windows[i + 1..];
  }

  lemma RemoveHeld(ws: Workspace, w: WindowId, item: Item)
    requires FindColumn(ws.columns, w).Some?
    ensures RemoveWindow(ws, w).Ok?
    ensures Held(ws, item) == Held(RemoveWindow(ws, w).value, item) + One(item, TiledItem(w))
  {
    RemoveShapes(ws, w);
    if item.TiledItem? {
      var c := FindColumn(ws.columns, w).value;
      var col := ws.columns[c];
      var row := Position(col.windows, w).value;
      CountWithout(col.windows, row, item.w);
      if |col.windows| == 1 {
        TotalRemove(Shapes(ws), c, InShape(item.w));
      } else {
        TotalUpdate(Shapes(ws), c, Shape(col.width, Without(col.windows, row)), InShape(item.w));
      }
    }
  }

  lemma InsertedShapes(cols: seq<ColumnState>, i: nat, col: ColumnState)
    requires i <= |cols|
    ensures ShapesOf(Inserted(cols, i, col)) == Inserted(ShapesOf(cols), i, ShapeOf(col))
  {}

  /** The workspace an arrival produces, as a layout. */
  lemma ArriveShapes(ws: Workspace, w: WindowId, width: Option<int>, landing: Landing)
    requires ws.columns != [] ==> ws.focusedColumn < |ws.columns|
    requires Arrive(ws, w, width, landing).Ok?
    ensures
      var ws' := Arrive(ws, w, width, landing).value;
      && ws'.floating == ws.floating
      && Shapes(ws') ==
           match landing
           case Stack(c) => Shapes(ws)[c := Shape(ws.columns[c].width, ws.columns[c].windows + [w])]
           case NewColumnAt(c) => Inserted(Shapes(ws), Min(c, |ws.columns|), Shape(WidthOr(ws, width), [w]))
           case Default =>
             Inserted(Shapes(ws), if ws.columns == [] then 0 else ws.focusedColumn + 1, Shape(WidthOr(ws, width), [w]))
  {
    var col := NewColumn(w, WidthOr(ws, width));
    match landing
    case Stack(c) =>
    case NewColumnAt(c) => InsertedShapes(ws.columns, Min(c, |ws.columns|), col);
    case Default => InsertedShapes(ws.columns, if ws.columns == [] then 0 else ws.focusedColumn + 1, col);
  }

  lemma ArriveHeld(ws: Workspace, w: WindowId, width: Option<int>, landing: Landing, item: Item)
    requires ws.columns != [] ==> ws.focusedColumn < |ws.columns|
    requires Arrive(ws, w, width, landing).Ok?
    ensures Held(Arrive(ws, w, width, landing).value, item) == Held(ws, item) + One(item, TiledItem(w))
  {
    ArriveShapes(ws, w, width, landing);
    if item.TiledItem? {
      var f := InShape(item.w);
      assert multiset([w])[item.w] == One(item, TiledItem(w));
      match landing
      case Stack(c) =>
        var before, grown := Shapes(ws)[c], Shape(ws.columns[c].width, ws.columns[c].windows + [w]);
        TotalUpdate(Shapes(ws), c, grown, f);
        assert multiset(grown.windows) == multiset(before.windows) + multiset([w]);
      case NewColumnAt(c) => TotalInsert(Shapes(ws), Min(c, |ws.columns|), Shape(WidthOr(ws, width), [w]), f);
      case Default =>
        TotalInsert(Shapes(ws), if ws.columns == [] then 0 else ws.focusedColumn + 1,
                    Shape(WidthOr(ws, width), [w]), f);
    }
  }

  // -------------------------------------------------- a sound source and target

  lemma FindByShapes(ws: Workspace, w: WindowId, c: nat)
    requires c < |ws.columns| && w in Shapes(ws)[c].windows
    requires forall k :: 0 <= k < |ws.columns| && k != c ==> w !in Shapes(ws)[k].windows
    ensures FindColumn(ws.columns, w) == Some(c)
  {
    var f := FindColumn(ws.columns, w).value;
    assert w in Shapes(ws)[f].windows;
  }

  lemma RemovedFocus(ws: Workspace, w: WindowId)
    requires RemoveWindow(ws, w).Ok?
    ensures
      var left := RemoveWindow(ws, w).value;
      left.columns != [] ==> left.focusedColumn < |left.columns|
  {}

  lemma ShapesHold(ws: Workspace, w: WindowId)
    ensures FindColumn(ws.columns, w).Some? <==> exists k :: 0 <= k < |Shapes(ws)| && w in Shapes(ws)[k].windows
  {
    if FindColumn(ws.columns, w).Some? { assert w in Shapes(ws)[FindColumn(ws.columns, w).value].windows; }
  }

  /** Neither way of taking `w` out of column `c` leaves it in another shape. */
  lemma OthersLack(ws: Workspace, w: WindowId, c: nat)
    requires Sound(ws) && c < |ws.columns| && w in ws.columns[c].windows
    ensures forall k :: 0 <= k < |ws.columns| && k != c ==> w !in Shapes(ws)[k].windows
    ensures forall k :: 0 <= k < |ws.columns| - 1 ==> w !in Without(Shapes(ws), c)[k].windows
  {
    assert forall k :: 0 <= k < |ws.columns| - 1 ==>
          Without(Shapes(ws), c)[k] == Shapes(ws)[if k < c then k else k + 1];
  }

  lemma RemovedGone(ws: Workspace, w: WindowId)
    requires Sound(ws) && FindColumn(ws.columns, w).Some?
    ensures RemoveWindow(ws, w).Ok? && !Contains(RemoveWindow(ws, w).value, w)
  {
    RemoveShapes(ws, w);
    var left := RemoveWindow(ws, w).value;
    var c := FindColumn(ws.columns, w).value;
    var row := Position(ws.columns[c].windows, w).value;
    assert w !in Without(ws.columns[c].windows, row) by { WithoutDistinct(ws.columns[c].windows, row); }
    ShapesHold(left, w);
    OthersLack(ws, w, c);
  }

  /** The rollback arrives where the window came from, and is never refused. */
  lemma RollbackArrives(left: Workspace, w: WindowId, width: Option<int>, origin: Option<(nat, Option<WindowId>)>)
    requires !Contains(left, w)
    ensures
      var sibling := if origin.Some? then SiblingColumn(left, origin.value.1) else None;
      var landing := match sibling
                     case Some(c) => Stack(c)
                     case None => if origin.Some? then NewColumnAt(origin.value.0) else Default;
      Arrive(left, w, width, landing) == Ok(Rollback(left, w, width, origin))
  {}

  lemma TiledTransferHeld(src: Workspace, dst: Workspace, w: WindowId, landing: Landing, item: Item)
    requires Sound(src) && Sound(dst) && FindColumn(src.columns, w).Some?
    ensures TransferKeeps(TransferTiled(src, dst, w, landing), src, dst, item)
  {
    var width := TiledWidth(src, w);
    RemoveHeld(src, w, item);
    RemovedFocus(src, w);
    RemovedGone(src, w);
    var left := RemoveWindow(src, w).value;
    var arrived := Arrive(dst, w, width, landing);
    if arrived.Ok? {
      ArriveHeld(dst, w, width, landing, item);
      FocusShapes(arrived.value, w);
    } else {
      var origin := TiledOrigin(src, w);
      RollbackArrives(left, w, width, origin);
      var sibling := if origin.Some? then SiblingColumn(left, origin.value.1) else None;
      var back := if sibling.Some? then Stack(sibling.value)
                  else if origin.Some? then NewColumnAt(origin.value.0) else Default;
      ArriveHeld(left, w, width, back, item);
    }
  }

  lemma AppendHeld(floats: seq<Floating>, w: WindowId, rect: Rect, item: Item)
    requires item.FloatingItem?
    ensures Total(floats + [Floating(w, rect, false)], AsFloating(item.w, item.rect)) ==
            Total(floats, AsFloating(item.w, item.rect)) + One(item, FloatingItem(w, rect))
  {
    var all := floats + [Floating(w, rect, false)];
    assert all[..|all| - 1] == floats;
  }

  lemma FloatingTransferHeld(src: Workspace, dst: Workspace, w: WindowId, item: Item)
    requires Sound(src) && IsFloating(src, w)
    ensures TransferKeeps(TransferFloating(src, dst, w), src, dst, item)
  {
    var i := FindFloating(src.floating, w).value;
    var rect := src.floating[i].rect;
    var left := RemoveFloating(src, w);
    assert !Contains(left, w) by { FloatGone(src, i); }
    if item.FloatingItem? {
      TotalRemove(src.floating, i, AsFloating(item.w, item.rect));
      AppendHeld(dst.floating, w, rect, item);
      AppendHeld(left.floating, w, rect, item);
    }
  }

  lemma FloatGone(ws: Workspace, i: nat)
    requires Sound(ws) && i < |ws.floating|
    ensures !Contains(ws.(floating := Without(ws.floating, i)), ws.floating[i].id)
  {
    var left := Without(ws.floating, i);
    assert forall k :: 0 <= k < |left| ==> left[k] == ws.floating[if k < i then k else k + 1];
  }

  ghost predicate AllSound(d: Desk, blank: Workspace) {
    && Sound(blank) && blank.columns == [] && blank.floating == []
    && forall m, i :: m in d.spaces && 0 <= i < |d.spaces[m]| ==> Sound(d.spaces[m][i])
  }

  ghost predicate TransferKeeps(t: Transfer, src: Workspace, dst: Workspace, item: Item) {
    match t
    case NotRemoved => false
    case Refused(src') => Held(src', item) == Held(src, item)
    case Moved(src', dst') => Held(src', item) + Held(dst', item) == Held(src, item) + Held(dst, item)
  }

  lemma TransferHeld(d: Desk, monitor: Monitor, current: nat, idx: nat, w: WindowId, blank: Workspace, item: Item)
    requires AllSound(d, blank) && Holds(d, monitor, current, w)
    ensures
      var v := EnsureExists(d.spaces[monitor], idx, blank);
      TransferKeeps(TransferWindow(d, monitor, current, idx, w, blank), v[current], v[idx], item)
  {
    var v := EnsureExists(d.spaces[monitor], idx, blank);
    if IsFloating(v[current], w) {
      FloatingTransferHeld(v[current], v[idx], w, item);
    } else {
      TiledTransferHeld(v[current], v[idx], w, ChooseLanding(d.origins, monitor, idx, v[idx], w), item);
    }
  }

  /** A transfer is refused exactly when the target already holds the window. */
  lemma TransferRefused(d: Desk, monitor: Monitor, current: nat, idx: nat, w: WindowId, blank: Workspace)
    requires AllSound(d, blank) && Holds(d, monitor, current, w)
    ensures
      var t := TransferWindow(d, monitor, current, idx, w, blank);
      !t.NotRemoved? && (t.Refused? <==> Contains(EnsureExists(d.spaces[monitor], idx, blank)[idx], w))
  {
    var v := EnsureExists(d.spaces[monitor], idx, blank);
    if !IsFloating(v[current], w) {
      TiledRefused(v[current], v[idx], w, ChooseLanding(d.origins, monitor, idx, v[idx], w));
    }
  }

  lemma TiledRefused(src: Workspace, dst: Workspace, w: WindowId, landing: Landing)
    requires FindColumn(src.columns, w).Some?
    requires landing.Stack? ==> landing.column < |dst.columns|
    ensures
      var t := TransferTiled(src, dst, w, landing);
      !t.NotRemoved? && (t.Refused? <==> Contains(dst, w))
  {
    RemoveShapes(src, w);
  }

  lemma EnsureHeld(v: seq<Workspace>, idx: nat, blank: Workspace, item: Item)
    requires blank.columns == [] && blank.floating == []
    ensures HeldBy(EnsureExists(v, idx, blank), item) == HeldBy(v, item)
  {
    if idx >= |v| {
      var more := seq(idx + 1 - |v|, _ => blank);
      TotalZero(more, InWorkspace(item));
      TotalConcat(v, more, InWorkspace(item));
    }
  }

  /** `monitor` holds `item` as often as before and the other monitors are untouched. */
  ghost predicate Conserved(d: Desk, d': Desk, monitor: Monitor, item: Item) {
    && d'.spaces.Keys == d.spaces.Keys
    && (forall m :: m in d.spaces && m != monitor ==> d'.spaces[m] == d.spaces[m])
    && (monitor in d.spaces ==> HeldBy(d'.spaces[monitor], item) == HeldBy(d.spaces[monitor], item))
  }

  lemma CommitHeld(d: Desk, monitor: Monitor, current: nat, idx: nat, w: WindowId, v: seq<Workspace>, t: Transfer,
      layoutOk: bool, item: Item)
    requires monitor in d.spaces && current < |d.spaces[monitor]| && d.spaces[monitor] <= v
    requires idx < |v| && idx != current
    requires TransferKeeps(t, v[current], v[idx], item)
    requires HeldBy(v, item) == HeldBy(d.spaces[monitor], item)
    ensures Conserved(d, Commit(d, monitor, current, idx, w, v, t, layoutOk).0, monitor, item)
  {
    var f := InWorkspace(item);
    match t
    case Refused(src) => TotalUpdate(v, current, src, f);
    case Moved(src, dst) =>
      TotalUpdate(v, current, src, f);
      TotalUpdate(v[current := src], idx, dst, f);
  }

  lemma StepConserves(d: Desk, monitor: Monitor, current: nat, idx: nat, w: WindowId, blank: Workspace,
      layoutOk: bool, item: Item)
    requires AllSound(d, blank) && idx != current && Holds(d, monitor, current, w)
    ensures Conserved(d, Step(d, monitor, current, idx, w, blank, layoutOk).0, monitor, item)
  {
    var v, t := EnsureExists(d.spaces[monitor], idx, blank), TransferWindow(d, monitor, current, idx, w, blank);
    EnsureHeld(d.spaces[monitor], idx, blank, item);
    TransferHeld(d, monitor, current, idx, w, blank, item);
    CommitHeld(d, monitor, current, idx, w, v, t, layoutOk, item);
  }

  lemma MoveIdles(d: Desk, monitor: Monitor, current: nat, w: WindowId, index: nat, blank: Workspace, layoutOk: bool)
    requires !Effective(d, monitor, current, w, index)
    ensures MoveTo(d, monitor, current, w, index, blank, layoutOk).0 == d
  {}

  /** On every exit path each window is held exactly as often as before, tiled or floating as
      before and, when floating, at the same position; other monitors are untouched. */
  lemma MoveConserves(d: Desk, monitor: Monitor, current: nat, w: WindowId, index: nat, blank: Workspace,
      layoutOk: bool, item: Item)
    requires AllSound(d, blank)
    ensures Conserved(d, MoveTo(d, monitor, current, w, index, blank, layoutOk).0, monitor, item)
  {
    hide Step;
    if Effective(d, monitor, current, w, index) {
      StepConserves(d, monitor, current, index - 1, w, blank, layoutOk, item);
    } else {
      MoveIdles(d, monitor, current, w, index, blank, layoutOk);
    }
  }

  // ---------------------------------------------------------------- whole runs

  lemma ArriveSound(ws: Workspace, w: WindowId, width: Option<int>, landing: Landing)
    requires Sound(ws) && Arrive(ws, w, width, landing).Ok?
    ensures Sound(Arrive(ws, w, width, landing).value)
  {
    hide Sound;
    match landing
    case Stack(c) => StackSound(ws, w, c);
    case NewColumnAt(c) => InsertColumnSound(ws, w, WidthOr(ws, width), Min(c, |ws.columns|));
    case Default =>
      FocusInRange(ws);
      InsertColumnSound(ws, w, WidthOr(ws, width), if ws.columns == [] then 0 else ws.focusedColumn + 1);
  }

  lemma FocusInRange(ws: Workspace)
    requires Sound(ws)
    ensures ws.columns != [] ==> ws.focusedColumn < |ws.columns|
  {}

  ghost predicate TransferSound(t: Transfer) {
    match t
    case NotRemoved => true
    case Refused(src) => Sound(src)
    case Moved(src, dst) => Sound(src) && Sound(dst)
  }

  lemma TiledTransferSound(src: Workspace, dst: Workspace, w: WindowId, landing: Landing)
    requires Sound(src) && Sound(dst)
    ensures TransferSound(TransferTiled(src, dst, w, landing))
  {
    hide Sound, FocusWindow, RemoveWindow;
    if RemoveWindow(src, w).Ok? {
      RemoveSound(src, w);
      var left, width := RemoveWindow(src, w).value, TiledWidth(src, w);
      var arrived := Arrive(dst, w, width, landing);
      if arrived.Ok? {
        ArriveSound(dst, w, width, landing);
        FocusSound(arrived.value, w);
      } else {
        RollbackSound(left, w, width, TiledOrigin(src, w));
      }
    }
  }

  lemma RollbackSound(left: Workspace, w: WindowId, width: Option<int>, origin: Option<(nat, Option<WindowId>)>)
    requires Sound(left)
    ensures Sound(Rollback(left, w, width, origin))
  {
    hide Sound;
    var sibling := if origin.Some? then SiblingColumn(left, origin.value.1) else None;
    var back := if sibling.Some? then Stack(sibling.value)
                else if origin.Some? then NewColumnAt(origin.value.0) else Default;
    if Arrive(left, w, width, back).Ok? { ArriveSound(left, w, width, back); }
  }

  lemma FloatingTransferSound(src: Workspace, dst: Workspace, w: WindowId)
    requires Sound(src) && Sound(dst)
    ensures TransferSound(TransferFloating(src, dst, w))
  {
    hide Sound, AddFloating, RemoveFloating;
    var rect, left := FloatingRect(src, w), RemoveFloating(src, w);
    RemoveFloatingSound(src, w);
    if AddFloating(dst, w, rect).Ok? {
      AddFloatingSound(dst, w, rect);
    } else if AddFloating(left, w, rect).Ok? {
      AddFloatingSound(left, w, rect);
    }
  }

  lemma WindowTransferSound(d: Desk, monitor: Monitor, current: nat, idx: nat, w: WindowId, blank: Workspace)
    requires AllSound(d, blank) && Holds(d, monitor, current, w)
    ensures TransferSound(TransferWindow(d, monitor, current, idx, w, blank))
  {
    var v := EnsureExists(d.spaces[monitor], idx, blank);
    hide TransferTiled, TransferFloating, ChooseLanding, Sound;
    if IsFloating(v[current], w) {
      FloatingTransferSound(v[current], v[idx], w);
    } else {
      TiledTransferSound(v[current], v[idx], w, ChooseLanding(d.origins, monitor, idx, v[idx], w));
    }
  }

  lemma CommitSound(d: Desk, monitor: Monitor, current: nat, idx: nat, w: WindowId, blank: Workspace,
                    v: seq<Workspace>, t: Transfer, layoutOk: bool)
    requires AllSound(d, blank) && TransferSound(t)
    requires monitor in d.spaces && current < |d.spaces[monitor]| && d.spaces[monitor] <= v && idx < |v|
    requires forall k :: |d.spaces[monitor]| <= k < |v| ==> v[k] == blank
    ensures AllSound(Commit(d, monitor, current, idx, w, v, t, layoutOk).0, blank)
  {
    hide Sound, OriginsAfter;
  }

  lemma StepSound(d: Desk, monitor: Monitor, current: nat, idx: nat, w: WindowId, blank: Workspace, layoutOk: bool)
    requires AllSound(d, blank) && Holds(d, monitor, current, w)
    ensures AllSound(Step(d, monitor, current, idx, w, blank, layoutOk).0, blank)
  {
    hide TransferWindow, AllSound, TransferSound, Commit;
    WindowTransferSound(d, monitor, current, idx, w, blank);
    CommitSound(d, monitor, current, idx, w, blank, EnsureExists(d.spaces[monitor], idx, blank),
                TransferWindow(d, monitor, current, idx, w, blank), layoutOk);
  }

  /** One command: which window leaves which workspace of which monitor for which index. */
  datatype Request = Request(monitor: Monitor, current: nat, w: WindowId, index: nat, layoutOk: bool)

  function MoveAll(d: Desk, requests: seq<Request>, blank: Workspace): Desk
    decreases |requests|
  {
    if requests == [] then d
    else
      var r := requests[0];
      MoveAll(MoveTo(d, r.monitor, r.current, r.w, r.index, blank, r.layoutOk).0, requests[1..], blank)
  }

  /** Every monitor holds every item as often as before. */
  ghost predicate SameHoldings(d: Desk, d': Desk) {
    && d'.spaces.Keys == d.spaces.Keys
    && forall m, item :: m in d.spaces ==> HeldBy(d'.spaces[m], item) == HeldBy(d.spaces[m], item)
  }

  lemma MoveKeepsHoldings(d: Desk, r: Request, blank: Workspace)
    requires AllSound(d, blank)
    ensures
      var d' := MoveTo(d, r.monitor, r.current, r.w, r.index, blank, r.layoutOk).0;
      AllSound(d', blank) && SameHoldings(d, d')
  {
    hide Step, AllSound, Holds;
    var d' := MoveTo(d, r.monitor, r.current, r.w, r.index, blank, r.layoutOk).0;
    if Effective(d, r.monitor, r.current, r.w, r.index) {
      StepSound(d, r.monitor, r.current, r.index - 1, r.w, blank, r.layoutOk);
    }
    forall item ensures Conserved(d, d', r.monitor, item) {
      MoveConserves(d, r.monitor, r.current, r.w, r.index, blank, r.layoutOk, item);
    }
    hide MoveTo, HeldBy;
    assert Conserved(d, d', r.monitor, TiledItem(0));
    forall m, item | m in d.spaces ensures HeldBy(d'.spaces[m], item) == HeldBy(d.spaces[m], item) {
      assert Conserved(d, d', r.monitor, item);
    }
  }

  /** Over any run of moves no window is lost, doubled, or changed between tiled and floating, and
      every workspace stays sound. */
  lemma {:induction false} RunConserves(d: Desk, requests: seq<Request>, blank: Workspace)
    requires AllSound(d, blank)
    ensures AllSound(MoveAll(d, requests, blank), blank) && SameHoldings(d, MoveAll(d, requests, blank))
    decreases |requests|
  {
    hide MoveTo, AllSound, HeldBy;
    if requests != [] {
      MoveKeepsHoldings(d, requests[0], blank);
      var r := requests[0];
      RunConserves(MoveTo(d, r.monitor, r.current, r.w, r.index, blank, r.layoutOk).0, requests[1..], blank);
    }
  }

  /** A floating window keeps its position but always arrives unpinned. */
  lemma FloatingArrivesUnpinned(src: Workspace, dst: Workspace, w: WindowId)
    requires IsFloating(src, w) && !Contains(dst, w)
    ensures
      var t := TransferFloating(src, dst, w);
      var entry := src.floating[FindFloating(src.floating, w).value];
      && t.Moved? && t.dst.floating == dst.floating + [Floating(w, entry.rect, false)]
      && (entry in t.dst.floating <==> !entry.pinned)
  {
    var entry := src.floating[FindFloating(src.floating, w).value];
    assert forall i :: 0 <= i < |dst.floating| ==> dst.floating[i].id != w;
  }

  /** Neither error return is reached unless the target already holds the window. */
  lemma MoveSucceeds(d: Desk, monitor: Monitor, current: nat, w: WindowId, index: nat, blank: Workspace, layoutOk: bool)
    requires AllSound(d, blank) && Effective(d, monitor, current, w, index)
    ensures
      var outcome := MoveTo(d, monitor, current, w, index, blank, layoutOk).1;
      if Contains(EnsureExists(d.spaces[monitor], index - 1, blank)[index - 1], w) then outcome == InsertFailed
      else outcome == if layoutOk then Done else LayoutFailed
  {
    hide TransferWindow, Contains;
    TransferRefused(d, monitor, current, index - 1, w, blank);
  }
}
