/** The move command as the daemon runs it, on the workspaces and origins it updates in place. */
module MoveCommand {
  import opened Prelude
  import opened Columns
  import opened Workspaces
  import opened MoveWindow

  /** Creating the missing workspaces first does not change what a transfer leaves behind. */
  lemma CommitEnsured(d: Desk, monitor: Monitor, current: nat, idx: nat, w: WindowId, v: seq<Workspace>, t: Transfer,
      layoutOk: bool)
    requires monitor in d.spaces && current < |d.spaces[monitor]| && d.spaces[monitor] <= v && idx < |v|
    ensures Commit(d.(spaces := d.spaces[monitor := v]), monitor, current, idx, w, v, t, layoutOk) ==
            Commit(d, monitor, current, idx, w, v, t, layoutOk)
  {
    var d' := d.(spaces := d.spaces[monitor := v]);
    assert OriginsAfter(d', monitor, current, w) == OriginsAfter(d, monitor, current, w);
    hide OriginsAfter;
    match t
    case NotRemoved => assert d'.spaces[monitor := v] == d.spaces[monitor := v];
    case Refused(src) => assert d'.spaces[monitor := v[current := src]] == d.spaces[monitor := v[current := src]];
    case Moved(src, dst) =>
      assert d'.spaces[monitor := v[current := src][idx := dst]] == d.spaces[monitor := v[current := src][idx := dst]];
  }

  class AppState {
    var spaces: map<Monitor, seq<Workspace>>
    var moveOrigins: map<WindowId, Origin>
    const blank: Workspace

    constructor (blank: Workspace)
      ensures View() == Desk(map[], map[]) && this.blank == blank
    {
      spaces, moveOrigins := map[], map[];
      this.blank := blank;
    }

    function View(): Desk
      reads this
    {
      Desk(spaces, moveOrigins)
    }

    /** Pushes workspaces until the monitor has one at `idx`. */
    method EnsureWorkspaceExists(monitor: Monitor, idx: nat)
      requires monitor in spaces
      modifies this`spaces
      ensures spaces == old(spaces)[monitor := EnsureExists(old(spaces[monitor]), idx, blank)]
    {
      var v := spaces[monitor];
      while |v| <= idx
        invariant spaces == old(spaces)
        invariant |spaces[monitor]| <= |v|
        invariant |v| <= idx + 1 || v == spaces[monitor]
        invariant v == spaces[monitor] + seq(|v| - |spaces[monitor]|, _ => blank)
      {
        v := v + [blank];
      }
      spaces := spaces[monitor := v];
    }

    method SetWorkspace(monitor: Monitor, idx: nat, ws: Workspace)
      requires monitor in spaces && idx < |spaces[monitor]|
      modifies this`spaces
      ensures spaces == old(spaces)[monitor := old(spaces[monitor])[idx := ws]]
    {
      spaces := spaces[monitor := spaces[monitor][idx := ws]];
    }

    method MoveWindowToWorkspace(monitor: Monitor, current: nat, w: WindowId, index: nat, layoutOk: bool)
      returns (outcome: Outcome)
      modifies this
      ensures (View(), outcome) == MoveTo(old(View()), monitor, current, w, index, blank, layoutOk)
    {
      if !(1 <= index <= 9) {
        return BadIndex;
      }
      var idx := index - 1;
      if idx == current || monitor !in spaces || current >= |spaces[monitor]|
         || !Contains(spaces[monitor][current], w)
      {
        return NoOp;
      }
      EnsureWorkspaceExists(monitor, idx);
      ghost var v := spaces[monitor];
      CommitEnsured(old(View()), monitor, current, idx, w, v,
                    TransferWindow(old(View()), monitor, current, idx, w, blank), true);
      hide TransferTiled, TransferFloating, ChooseLanding, OriginsAfter;
      if IsFloating(spaces[monitor][current], w) {
        outcome := MoveFloating(monitor, current, idx, w);
      } else {
        outcome := MoveTiled(monitor, current, idx, w);
      }
      if outcome == Done && !layoutOk {
        outcome := LayoutFailed;
      }
    }

    method MoveFloating(monitor: Monitor, current: nat, idx: nat, w: WindowId) returns (outcome: Outcome)
      requires monitor in spaces && current < |spaces[monitor]| && idx < |spaces[monitor]| && idx != current
      requires IsFloating(spaces[monitor][current], w)
      modifies this
      ensures
        var v := old(spaces[monitor]);
        (View(), outcome) ==
          Commit(old(View()), monitor, current, idx, w, v, TransferFloating(v[current], v[idx], w), true)
    {
      hide AddFloating, RemoveFloating;
      ghost var v, here := spaces[monitor], RemoveFloating(spaces[monitor][current], w);
      var rect := FloatingRect(spaces[monitor][current], w);
      SetWorkspace(monitor, current, RemoveFloating(spaces[monitor][current], w));
      match AddFloating(spaces[monitor][idx], w, rect) {
        case Ok(arrived) =>
          SetWorkspace(monitor, idx, arrived);
          assert spaces == old(spaces)[monitor := v[current := here][idx := arrived]];
          moveOrigins := moveOrigins - {w};
          outcome := Done;
        case Err(_) =>
          match AddFloating(spaces[monitor][current], w, rect) {
            case Ok(restored) => SetWorkspace(monitor, current, restored);
            case Err(_) =>
          }
          assert spaces[monitor] == v[current := OrElse(AddFloating(here, w, rect), here)];
          assert spaces == old(spaces)[monitor := v[current := OrElse(AddFloating(here, w, rect), here)]];
          outcome := InsertFailed;
      }
    }

    method MoveTiled(monitor: Monitor, current: nat, idx: nat, w: WindowId) returns (outcome: Outcome)
      requires monitor in spaces && current < |spaces[monitor]| && idx < |spaces[monitor]| && idx != current
      requires !IsFloating(spaces[monitor][current], w)
      modifies this
      ensures
        var v := old(spaces[monitor]);
        var landing := ChooseLanding(old(moveOrigins), monitor, idx, v[idx], w);
        (View(), outcome) ==
          Commit(old(View()), monitor, current, idx, w, v, TransferTiled(v[current], v[idx], w, landing), true)
    {
      hide RemoveWindow, Arrive, FocusWindow, Rollback, ChooseLanding;
      ghost var v := spaces[monitor];
      var width := TiledWidth(spaces[monitor][current], w);
      var origin := TiledOrigin(spaces[monitor][current], w);
      var landing := ChooseLanding(moveOrigins, monitor, idx, spaces[monitor][idx], w);
      var removed := RemoveWindow(spaces[monitor][current], w);
      if removed.Err? {
        assert spaces == spaces[monitor := spaces[monitor]];
        return RemoveFailed;
      }
      var left := removed.value;
      SetWorkspace(monitor, current, left);
      match Arrive(spaces[monitor][idx], w, width, landing) {
        case Err(_) =>
          ghost var back := Rollback(spaces[monitor][current], w, width, origin);
          SetWorkspace(monitor, current, Rollback(spaces[monitor][current], w, width, origin));
          assert spaces[monitor] == v[current := back];
          assert spaces == old(spaces)[monitor := v[current := back]];
          return InsertFailed;
        case Ok(arrived) =>
          SetWorkspace(monitor, idx, FocusWindow(arrived, w));
          assert spaces == old(spaces)[monitor := v[current := left][idx := FocusWindow(arrived, w)]];
      }
      match origin {
        case Some((column, sibling)) => moveOrigins := moveOrigins[w := Origin(monitor, current, column, sibling)];
        case None =>
      }
      outcome := Done;
    }
  }
}
