/** Every workspace operation keeps a workspace sound. */
module WorkspaceSoundness {
  import opened Prelude
  import opened Columns
  import opened Workspaces

  // ------------------------------------------------------------------ columns

  /** A column may lose windows and gain ones that no column holds. */
  lemma UpdatedColumns(cols: seq<ColumnState>, c: nat, col: ColumnState)
    requires SoundColumns(cols) && c < |cols| && SoundColumn(col)
    requires forall x :: x in col.windows && x !in cols[c].windows ==> Absent(cols, x)
    ensures SoundColumns(cols[c := col])
  {
    hide SoundColumn;
    var cols' := cols[c := col];
    forall i, j, w | 0 <= i < |cols| && 0 <= j < |cols| && i != j && w in cols'[i].windows
      ensures w !in cols'[j].windows
    {
      assert w in cols'[i].windows && (i == c ==> w in cols[c].windows || Absent(cols, w));
    }
  }

  lemma RemainingColumns(cols: seq<ColumnState>, c: nat)
    requires SoundColumns(cols) && c < |cols|
    ensures SoundColumns(Without(cols, c))
  {
    hide SoundColumn;
    assert forall k :: 0 <= k < |cols| - 1 ==> Without(cols, c)[k] == cols[if k < c then k else k + 1];
  }

  lemma InsertedColumns(cols: seq<ColumnState>, i: nat, w: WindowId, width: int)
    requires SoundColumns(cols) && i <= |cols| && Absent(cols, w)
    ensures SoundColumns(Inserted(cols, i, NewColumn(w, width)))
  {
    assert SoundColumn(NewColumn(w, width));
    hide SoundColumn;
    var cols' := Inserted(cols, i, NewColumn(w, width));
    assert forall k :: 0 <= k < |cols'| ==>
      cols'[k] == if k < i then cols[k] else if k == i then NewColumn(w, width) else cols[k - 1];
  }

  lemma EditedColumn(col: ColumnState, e: Edit)
    requires SoundColumn(col) && Fresh(col, e) && Apply(col, e).windows != []
    requires e.Add? || e.Remove? || e.SetActiveTab?
    ensures SoundColumn(Apply(col, e))
    ensures forall x :: x in Apply(col, e).windows && x !in col.windows ==> e.Add? && x == e.w
  {
    StepRefines(col, e);
  }

  // -------------------------------------------------------------------- focus

  lemma SyncedSound(ws: Workspace)
    requires SoundColumns(ws.columns) && Focused(ws)
    ensures SoundColumns(Synced(ws).columns) && Focused(Synced(ws))
    ensures forall w :: Absent(ws.columns, w) ==> Absent(Synced(ws).columns, w)
  {
    if ws.columns != [] {
      var col := ws.columns[ws.focusedColumn];
      EditedColumn(col, SetActiveTab(ws.focusedWindow));
      UpdatedColumns(ws.columns, ws.focusedColumn, Apply(col, SetActiveTab(ws.focusedWindow)));
    }
  }

  lemma ClampedFocused(ws: Workspace)
    requires forall c :: 0 <= c < |ws.columns| ==> ws.columns[c].windows != []
    ensures Focused(Clamped(ws)) && Clamped(ws).columns == ws.columns
  {}

  /** Whatever focus a removal proposes, clamping and syncing make it sound. */
  lemma SettledSound(ws: Workspace)
    requires SoundColumns(ws.columns)
    ensures SoundColumns(Synced(Clamped(ws)).columns) && Focused(Synced(Clamped(ws)))
    ensures forall w :: Absent(ws.columns, w) ==> Absent(Synced(Clamped(ws)).columns, w)
  {
    assert forall c :: 0 <= c < |ws.columns| ==> SoundColumn(ws.columns[c]);
    ClampedFocused(ws);
    hide Clamped, Synced;
    SyncedSound(Clamped(ws));
  }

  lemma FocusSound(ws: Workspace, w: WindowId)
    requires Sound(ws)
    ensures Sound(FocusWindow(ws, w))
  {
    var f := FindColumn(ws.columns, w);
    if f.Some? {
      var ws' := ws.(focusedColumn := f.value, focusedWindow := Position(ws.columns[f.value].windows, w).value);
      SyncedSound(ws');
      FloatsApart(ws.floating, ws.columns, Synced(ws').columns);
    }
  }

  // -------------------------------------------------------------------- floats

  lemma FloatsApart(floats: seq<Floating>, cols: seq<ColumnState>, cols': seq<ColumnState>)
    requires SoundFloats(floats, cols)
    requires forall i :: 0 <= i < |floats| && Absent(cols, floats[i].id) ==> Absent(cols', floats[i].id)
    ensures SoundFloats(floats, cols')
  {
    forall i, c | 0 <= i < |floats| && 0 <= c < |cols'| ensures floats[i].id !in cols'[c].windows {
      assert Absent(cols, floats[i].id);
    }
  }

  lemma AddFloatingSound(ws: Workspace, w: WindowId, rect: Rect)
    requires Sound(ws) && AddFloating(ws, w, rect).Ok?
    ensures Sound(AddFloating(ws, w, rect).value)
  {}

  lemma RemoveFloatingSound(ws: Workspace, w: WindowId)
    requires Sound(ws)
    ensures Sound(RemoveFloating(ws, w))
  {
    var f := FindFloating(ws.floating, w);
    if f.Some? {
      var left := Without(ws.floating, f.value);
      assert forall k :: 0 <= k < |left| ==> left[k] == ws.floating[if k < f.value then k else k + 1];
    }
  }

  // ------------------------------------------------------------- tiled windows

  lemma InsertColumnSound(ws: Workspace, w: WindowId, width: int, at: nat)
    requires Sound(ws) && !Contains(ws, w) && at <= |ws.columns|
    ensures Sound(ws.(
              columns := Inserted(ws.columns, at, NewColumn(w, width)), focusedColumn := at, focusedWindow := 0))
  {
    InsertedColumns(ws.columns, at, w, width);
    var cols := Inserted(ws.columns, at, NewColumn(w, width));
    assert forall k :: 0 <= k < |cols| ==>
      cols[k] == if k < at then ws.columns[k] else if k == at then NewColumn(w, width) else ws.columns[k - 1];
    FloatsApart(ws.floating, ws.columns, cols);
  }

  lemma StackSound(ws: Workspace, w: WindowId, c: nat)
    requires Sound(ws) && !Contains(ws, w) && c < |ws.columns|
    ensures Sound(ws.(columns := ws.columns[c := Apply(ws.columns[c], Add(w))]))
  {
    var col := Apply(ws.columns[c], Add(w));
    EditedColumn(ws.columns[c], Add(w));
    UpdatedColumns(ws.columns, c, col);
    FloatsApart(ws.floating, ws.columns, ws.columns[c := col]);
  }

  lemma RemoveSound(ws: Workspace, w: WindowId)
    requires Sound(ws) && RemoveWindow(ws, w).Ok?
    ensures Sound(RemoveWindow(ws, w).value)
  {
    var c := FindColumn(ws.columns, w).value;
    var col := Apply(ws.columns[c], Remove(w));
    var cols := if col.windows == [] then Without(ws.columns, c) else ws.columns[c := col];
    RemovedColumns(ws.columns, c, w);
    hide Apply, Without, Sound, SoundColumns, SoundFloats;
    forall fc: nat, fw: nat
      ensures Sound(Synced(Clamped(ws.(columns := cols, focusedColumn := fc, focusedWindow := fw))))
    {
      RefocusedSound(ws, cols, fc, fw);
    }
    hide Synced, Clamped;
  }

  lemma RefocusedSound(ws: Workspace, cols: seq<ColumnState>, fc: nat, fw: nat)
    requires Sound(ws) && SoundColumns(cols) && forall x :: Absent(ws.columns, x) ==> Absent(cols, x)
    ensures Sound(Synced(Clamped(ws.(columns := cols, focusedColumn := fc, focusedWindow := fw))))
  {
    hide SoundColumns, SoundFloats, Absent;
    var ws' := ws.(columns := cols, focusedColumn := fc, focusedWindow := fw);
    SettledSound(ws');
    ClampedShapes(ws');
    SyncedShapes(Clamped(ws'));
    hide Clamped, Synced;
    FloatsApart(ws.floating, ws.columns, Synced(Clamped(ws')).columns);
  }

  lemma RemovedColumns(cols: seq<ColumnState>, c: nat, w: WindowId)
    requires SoundColumns(cols) && c < |cols| && w in cols[c].windows
    ensures
      var col := Apply(cols[c], Remove(w));
      var cols' := if col.windows == [] then Without(cols, c) else cols[c := col];
      SoundColumns(cols') && forall x :: Absent(cols, x) ==> Absent(cols', x)
  {
    var col := Apply(cols[c], Remove(w));
    if col.windows == [] {
      RemainingColumns(cols, c);
    } else {
      EditedColumn(cols[c], Remove(w));
      UpdatedColumns(cols, c, col);
    }
  }
}
