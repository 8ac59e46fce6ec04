# LeopardWM: verified models

A Dafny 4.11 model of the state machines and algorithms of LeopardWM, a scrolling tiling window
manager, with proofs of what they keep over whole runs. Check everything with
`dafny verify dfyconfig.toml`.

| files | what they model |
|---|---|
| `WorkerProtocol`, `WorkerSafety`, `WorkerHistory`, `AnimationWorker` | the animation worker: one thread executing commands from a channel, a one-slot buffer for the command that preempts a crossfade, ownership of thumbnail handles, and shared counters that other threads may change between any two steps |
| `ManagedLifetime` | telling lifetimes of a recycled window handle apart with stamped tokens, against an operating system that creates, destroys and fails to read windows at will |
| `Columns` | a column's windows, parallel height weights and active tab |
| `Workspaces`, `WorkspaceSoundness`, `MoveWindow`, `MoveRoundTrip`, `MoveRollback`, `MoveExact`, `MoveLanding`, `MoveCommand` | moving a window to another workspace: where it lands, rollback, and the remembered origin |
| `WorkspaceCycle` | the cyclic search behind next and previous workspace |
| `EventStream`, `EventLanguage`, `EventOutcomes` | the event stream reader of the command line client: bounded framing and the snapshot recogniser |
| `Chords`, `Ordering`, `Hotkeys`, `HotkeyWinners`, `HotkeyDefaults` | resolving, migrating and completing the hotkey table |
| `Animation`, `ColumnWidth`, `ShortcutGuide` | easing curves and scroll animation, default column width, grouping of the shortcut guide |
| `Prelude`, `Tally` | shared types, and adding up a measure over a sequence |

How the pieces fit:

- **Worker.** `WorkerProtocol.Step` is an acceptor of the worker's event log. `AnimationWorker.Worker`
  runs the loops of the source with arbitrary interference before every look at the channel or at the
  shared state, and proves that the log it writes is always accepted. Token reads, empty and
  disconnected channels and finished iterations are events too, so the log says why a fade ended.
  `WorkerSafety` proves, of every accepted log, the properties a client relies on, stated on the log
  and the commands alone. `WorkerHistory` ties every read in the log to a moment of the history of the
  shared state, one moment for each load, and proves what follows for frames, fades and exits.
- **Identity.** `ManagedLifetime.Next` is one step of the daemon or of the operating system. The
  history variable `born` says which lifetime each token was stamped on, so "the recorded lifetime
  still has the handle" (`Owns`) can be said without mentioning the code's test.
- **Columns.** Every mutator of `Columns.Column` is proved equal to one `Edit` on values. A cursor on a
  window, which keeps no index at all, is the reference the stored tab index is compared with.
- **Moves.** `MoveCommand.AppState.MoveWindowToWorkspace` is proved equal to `MoveWindow.MoveTo`;
  conservation, soundness, rollback and round trip are proved of that function. Conservation
  speaks of windows; the round trip and the rollback are stated both for widths and window order
  (`Workspaces.Shape`) and, with exact conditions, for whole columns. `MoveLanding` says where a window
  lands and what it leaves behind on the desk before and after, without naming how the place is chosen.
- **Streams and hotkeys.** The loops are proved equal to staged functions, and those are proved
  equivalent to a grammar (streams) and to a least-element choice (hotkeys). `EventOutcomes` gives the
  output and the outcome of both state modes, failures included, from the grammar alone.

Where the code and its own words differ, the model follows the code:

- A refused move is commented as leaving "the layout exactly as it was". The window comes back at the
  bottom of its column, and the column's heights and tabs go through a removal and an addition.
  `MoveRollback.RefusalExact` gives the exact condition on the workspace before the move; order, tabs
  and heights are each lost at a concrete input (`MoveRoundTrip.RollbackReorders`,
  `MoveRollback.RefusalLosesTabs`, `MoveRollback.RefusalLosesHeights`). The focus can move too
  (`MoveLanding.RefusalFocus`).
- Moving a lone window away and back restores its column's width except when it stacked into a column
  of another width in between (`MoveRoundTrip.RoundTripRestores`, at a concrete desk
  `MoveRoundTrip.RoundTripNarrows`); heights and tabs come back under the conditions of
  `MoveExact.RoundTripExact`.
- A pinned floating window arrives unpinned (`MoveWindow.FloatingArrivesUnpinned`).
- At its 100-pixel minimum the default column width no longer fits the preset it was computed from
  (`ColumnWidth.SmallestWidthOverflows`).

Floating point is modelled by `real`; the clamps the code keeps against rounding are part of the model
but never needed by a proof.

## Model

| member | source | states |
|---|---|---|
| WorkerProtocol.PhaseConsistent | crates/daemon/src/animation_worker.rs:302-361 | what the worker has in hand is always the command it took last, or a fade followed only by aborts and drops and at most one buffered command |
| WorkerSafety.EffectsInSendOrder | crates/daemon/src/animation_worker.rs:308-321 | effects follow the order in which commands were sent, across any preemption |
| WorkerSafety.EntriesConserved | crates/daemon/src/animation_worker.rs:116-127 | at every moment the entries of each fade are exactly those released plus those still owned, counted with multiplicity |
| WorkerSafety.CompletedHasReleased | crates/daemon/src/animation_worker.rs:574-582 | a completion is announced only once every entry of that fade has been released, as often as it was given |
| WorkerSafety.HandleIdentifies | crates/daemon/src/animation_worker.rs:106-127 | with distinct live handles a release determines its entry, so it happens once |
| WorkerSafety.ReleasedNotUsed | crates/daemon/src/animation_worker.rs:559-570 | no thumbnail is redrawn after it was unregistered |
| WorkerSafety.DropsTouchNoOthers | crates/daemon/src/animation_worker.rs:477-530 | an entry is released only to carry out a matching drop of its own window, or once its fade drew all iterations or was told to end: stale drops and aborts, and drops of other targets, release nothing |
| WorkerSafety.FadesRun | crates/daemon/src/animation_worker.rs:489-582 | a completed fade drew all its iterations unless, and only unless, it was told to end: by a matching abort, a preempting command, a token that no longer matched, or the clients' leaving |
| WorkerSafety.EndedStop | crates/daemon/src/animation_worker.rs:502-576 | once told to end, a fade only releases and completes: no further redraw, token read, command or drop report |
| WorkerSafety.StaleChangesNothing | crates/daemon/src/animation_worker.rs:521-545 | an abort or drop of another epoch leaves a fade exactly as an empty channel does |
| WorkerSafety.RedrawsFollowCurve | crates/daemon/src/animation_worker.rs:559-570 | every redraw has the opacity of the iteration it belongs to |
| WorkerSafety.IterationsAreComplete | crates/daemon/src/animation_worker.rs:559-571 | every iteration handed to the compositor has redrawn exactly the entries still owned, each as often as it is owned |
| WorkerSafety.DropsReported | crates/daemon/src/animation_worker.rs:477-520 | a reported target drop answers a drop received in that epoch, released something, and left nothing of that window |
| WorkerSafety.DropsAreSwept | crates/daemon/src/animation_worker.rs:477-530 | conversely, a matching drop is followed by releases of that window until none is left, and then by a report exactly if there were any, before anything else happens |
| WorkerSafety.NothingLost | crates/daemon/src/animation_worker.rs:308-376 | every command taken is in the worker's hands or dealt with in full, aborts and drops with their effect on the fade included; the buffer is never overwritten |
| WorkerSafety.BarriersAreSound | crates/daemon/src/animation_worker.rs:335-338 | a barrier is acknowledged only after everything sent before it was dealt with, completion events included |
| WorkerSafety.BarrierWaitSound | crates/daemon/src/animation_worker.rs:183-194 | a successful wait means that the barrier was acknowledged and every earlier command is finished, or that the worker has exited |
| WorkerSafety.GoneIsFinal | crates/daemon/src/animation_worker.rs:322-329 | nothing happens after the worker exits |
| WorkerSafety.ExitsAreExplained | crates/daemon/src/animation_worker.rs:314-333 | the worker exits only on a shutdown command, or right after the channel closed or a report could not be delivered, and then at once |
| WorkerSafety.FramesAreHonest | crates/daemon/src/animation_worker.rs:378-470 | a frame reads one counter after the other while they agree with it; windows move only right after three reads that agree, and a report carries its own ids and follows the move or the read that disowned the frame |
| WorkerSafety.StaleFrameMovesNothing | crates/daemon/src/animation_worker.rs:385-415 | a frame that any of its reads disowned moves nothing, then or later |
| WorkerSafety.AcceptedIsSafe | crates/daemon/src/animation_worker.rs:302-582 | every accepted log has send order, release before completion, no use after release, full or ended fades, complete iterations on the opacity curve, swept and reported drops, sound barriers, honest frames and explained exits |
| WorkerSafety.FadeCompletes | crates/daemon/src/animation_worker.rs:574-582 | a fade that began and is not running any more has announced its own epoch |
| WorkerHistory.MovedWhenCurrent | crates/daemon/src/animation_worker.rs:385-415 | a frame moves windows only when, at the moments it loaded them, the shutdown flag was clear, its request was the one dispatched last and its invalidation was current |
| WorkerHistory.ReportedExactly | crates/daemon/src/animation_worker.rs:385-415 | a reporting frame moved its windows exactly when none of what it loaded disagreed; otherwise its last load did, at its moment |
| WorkerHistory.MovedRequestsGrow | crates/daemon/src/animation_worker.rs:385-396 | if the shared dispatch counter never falls, the requests of moved frames never decrease over the whole run |
| WorkerHistory.EarlyEndsHaveReasons | crates/daemon/src/animation_worker.rs:502-557 | a fade that completes without all its iterations did so while a matching abort or a command for the outer loop was next in the queue, its token had changed, or the clients had gone and left nothing behind |
| WorkerHistory.ExitsHaveReasons | crates/daemon/src/animation_worker.rs:314-333 | a worker that exits was told to, could not deliver a report, or found every client gone with every command ever sent taken and dealt with |
| AnimationWorker.Worker.Explained | crates/daemon/src/animation_worker.rs:302-582 | at every point of the code the log is safe, each read in it is true of the shared state at its moment, and the commands taken are a prefix of those sent |
| AnimationWorker.Worker.TryRecv | crates/daemon/src/animation_worker.rs:514-556 | takes the oldest queued command, or finds the channel empty |
| AnimationWorker.Worker.DropTarget | crates/daemon/src/animation_worker.rs:477-481 | releases exactly the entries of one window, in order, and keeps the others in order |
| AnimationWorker.Worker.CarryOut | crates/daemon/src/animation_worker.rs:511-520 | the report follows exactly if something was released |
| AnimationWorker.Worker.ReadToken | crates/daemon/src/animation_worker.rs:503-509 | one read of the token, if the fade has one, with the value it has, and whether it still matches |
| AnimationWorker.Worker.UpdateAll | crates/daemon/src/animation_worker.rs:559-570 | redraws every remaining entry once, in order |
| AnimationWorker.Worker.DropAll | crates/daemon/src/animation_worker.rs:574-576 | releases everything still owned, in order |
| AnimationWorker.Worker.Poll | crates/daemon/src/animation_worker.rs:510-557 | the fade goes on exactly after an empty channel, a drop, or a stale abort; a matching drop takes its window away, anything not meant for fades is buffered; exactly this is logged |
| AnimationWorker.Worker.Iterate | crates/daemon/src/animation_worker.rs:502-572 | goes on exactly if the token matches and the look at the channel lets it; logs the token read, the look, and, if it goes on, one redraw of every entry left and the hand-over to the compositor |
| AnimationWorker.Worker.IterateAll | crates/daemon/src/animation_worker.rs:502-572 | the iterations run until all are drawn or the fade is told to end |
| AnimationWorker.Worker.RunCrossfade | crates/daemon/src/animation_worker.rs:489-582 | entered with an empty buffer, it ends with its completion as the last event and at most one command buffered, having drawn all iterations unless and only unless it was told to end |
| AnimationWorker.Worker.FinishFade | crates/daemon/src/animation_worker.rs:574-582 | releases what is left, then announces completion, and nothing else |
| AnimationWorker.Worker.RunFrame | crates/daemon/src/animation_worker.rs:378-470 | three loads at moments within the call, in order and up to the first that disagrees; windows move exactly if all agree with the frame; then one report with its own ids |
| AnimationWorker.Worker.AskFrame | crates/daemon/src/animation_worker.rs:385-391 | the loads of the cancellation test, each at its own moment, and whether all agree |
| AnimationWorker.Worker.AskCounters | crates/daemon/src/animation_worker.rs:387-390 | the two counters, the second only if the first agrees |
| AnimationWorker.Worker.Receive | crates/daemon/src/animation_worker.rs:314-322 | the buffered command first, else the oldest in the channel |
| AnimationWorker.Worker.Execute | crates/daemon/src/animation_worker.rs:324-470 | each command leaves the worker ready for the next; it is gone exactly after a shutdown or a frame report that could not be delivered; the simple commands log their one step |
| AnimationWorker.Worker.WorkerLoop | crates/daemon/src/animation_worker.rs:302-475 | any finite run is safe, and executes as many commands as asked unless the worker exits or the channel is empty |
| ManagedLifetime.InvAlways | crates/daemon/src/managed_lifetime.rs:22-122 | the stamps, tokens and recorded lifetimes stay consistent over every run of the daemon and the operating system |
| ManagedLifetime.ReplacedExactly | crates/daemon/src/managed_lifetime.rs:60-71 | replacement is claimed exactly when the read succeeds and the recorded lifetime lost the handle |
| ManagedLifetime.DestroyedExactly | crates/daemon/src/managed_lifetime.rs:73-88 | a Destroyed event is taken as stale exactly when the recorded lifetime still has the handle or the read failed transiently |
| ManagedLifetime.RecordedMemberSurvives | crates/daemon/src/managed_lifetime.rs:73-111 | a recorded window stays managed with the same lifetime over any run in which it is neither destroyed nor hidden, Hidden events from before its admission included |
| ManagedLifetime.GuardNeedsRecord | crates/daemon/src/managed_lifetime.rs:157-164 | only recorded members have an admission time, so the guard against stale Hidden events applies to them exactly |
| ManagedLifetime.DuplicateExactly | crates/daemon/src/managed_lifetime.rs:113-127 | an admission counts as duplicate exactly for a member that is unrecorded, still owns its handle, or cannot be read |
| ManagedLifetime.ReplacementAdmitted | crates/daemon/src/managed_lifetime.rs:90-127 | a live replacement whose read succeeds is departed first, admitted afresh without the old admission time, and owned once stamped |
| ManagedLifetime.SuppressionNamesItsLifetime | crates/daemon/src/managed_lifetime.rs:172-185 | a suppression entry with a token never suppresses another readable lifetime |
| ManagedLifetime.DestroyedDeparts | crates/daemon/src/event_handler.rs:1301-1325 | after a Destroyed event nothing is kept of the handle, unless its recorded lifetime still has it, the read was transient, or nothing is recorded and the ignore check vouches for it; then nothing changes; no other handle ever changes |
| ManagedLifetime.HiddenDeparts | crates/daemon/src/event_handler.rs:1314-1325 | a Hidden event departs the handle unless it is really earlier than its admission, wrapped clock or not; then nothing changes; a brief window is remembered by its lifetime's token |
| ManagedLifetime.NearbyTimesOrdered | crates/daemon/src/event_handler.rs:120-122 | times less than half the clock apart compare as they really are |
| ManagedLifetime.ProbeDeparts | crates/daemon/src/managed_lifetime.rs:90-111 | a replaced member is forgotten, and otherwise nothing changes |
| ManagedLifetime.AdmissionAdmits | crates/daemon/src/managed_lifetime.rs:113-127 | after an admission the handle is a member, unchanged if it is the same window, blank if it was replaced |
| ManagedLifetime.RecordingOwns | crates/daemon/src/managed_lifetime.rs:22-46 | a recorded member owns its handle under a fresh token with the given admission time; a refused stamp records nothing, an enumeration spares what is recorded, and other handles are untouched |
| ManagedLifetime.SuppressionFollowsLifetime | crates/daemon/src/managed_lifetime.rs:166-185 | a recorded window hidden after a brief life stays remembered whatever happens elsewhere, and a re-created window is taken for it exactly if it is the same lifetime or cannot be read |
| ManagedLifetime.Daemon.ReadManagedIdentity | crates/daemon/src/managed_lifetime.rs:212-234 | a read tells the truth, reports a dead handle, or fails transiently |
| ManagedLifetime.Daemon.StampManagedIdentity | crates/daemon/src/managed_lifetime.rs:196-210 | a fresh token is stamped on the window now on the handle, or nothing but the counter changes |
| ManagedLifetime.Daemon.RecordManagedLifetime | crates/daemon/src/managed_lifetime.rs:22-46 | the stamp, the token and the admission time of a recorded lifetime, or nothing but the counter |
| ManagedLifetime.Daemon.RecordManagedLifetimeIfUnrecorded | crates/daemon/src/managed_lifetime.rs:48-58 | the same, for an unrecorded handle only |
| ManagedLifetime.Daemon.ManagedLifetimeReplaced | crates/daemon/src/managed_lifetime.rs:60-71 | the query on a lawful read |
| ManagedLifetime.Daemon.DestroyedNamesCurrentLifetime | crates/daemon/src/managed_lifetime.rs:73-88 | the query on a lawful read |
| ManagedLifetime.Daemon.RecentlyHiddenNamesCurrentLifetime | crates/daemon/src/managed_lifetime.rs:172-185 | the query on a lawful read |
| ManagedLifetime.Daemon.TakeManagedLifetimeToken | crates/daemon/src/managed_lifetime.rs:141-152 | forgets the token and the admission time and returns the token |
| ManagedLifetime.Daemon.DepartReplacedManagedLifetime | crates/daemon/src/managed_lifetime.rs:90-111 | departs a replaced member and nothing else |
| ManagedLifetime.Daemon.DuplicateManagedAdmission | crates/daemon/src/managed_lifetime.rs:113-127 | departs a replacement first, then says whether the handle is still managed |
| ManagedLifetime.Daemon.OnWindowDestroyed | crates/daemon/src/event_handler.rs:1301-1325 | departs unless the event names a lifetime that is still there |
| ManagedLifetime.Daemon.AdmittedEventTimeIfCurrentMember | crates/daemon/src/managed_lifetime.rs:157-164 | the recorded time of a member |
| ManagedLifetime.Daemon.OnWindowHidden | crates/daemon/src/event_handler.rs:1301-1325 | departs unless the event is from before the member's admission, and remembers a brief window by its token |
| Columns.IndexRefinesCursor | crates/core_layout/src/column.rs:289-351 | over any run of edits the stored tab index follows its window as a cursor on the window would |
| Columns.ActiveTabFollowsWindow | crates/core_layout/src/column.rs:82-234 | the same window stays active while it is not removed and two windows remain |
| Columns.RemovedTabYields | crates/core_layout/src/column.rs:290-306 | a removed active tab yields to its successor, or to the new last |
| Columns.TabsNeedTwoWindows | crates/core_layout/src/column.rs:175-201 | only asking for tabs on a lone window leaves tabs with fewer than two windows |
| Columns.WeightsStayBalanced | crates/core_layout/src/column.rs:82-118 | over any run of edits weights are absent or one per window, positive, and within 1e-9 of 1 in total |
| Columns.SetWeightExact | crates/core_layout/src/column.rs:239-258 | setting a weight makes the sum exactly 1 with every share at least the minimum, and an admissible weight is taken as it is |
| Columns.ConstructorsBalanced | crates/core_layout/src/column.rs:50-68 | new, empty and weightless columns start balanced, and are at least 100 pixels wide |
| Columns.SwapKeepsHeights | crates/core_layout/src/column.rs:225-236 | a swap exchanges windows and heights in pairs, so every window keeps its height |
| Columns.ArrivalsLevel | crates/core_layout/src/column.rs:82-88 | added and inserted windows go to their place and level all heights |
| Columns.TakingOutLevels | crates/core_layout/src/column.rs:107-117 | a window taken out by its index leaves the others in order and levels their heights |
| Columns.RemovalKeepsProportions | crates/core_layout/src/column.rs:91-104 | a window taken out by name leaves the others in order with heights in the same proportion |
| Columns.NormalizedExact | crates/core_layout/src/column.rs:277-287 | weights are divided only beyond the tolerance, and then their sum is exactly 1 |
| Columns.SettingAWeight | crates/core_layout/src/column.rs:239-258 | the window gets the weight as far as every sibling keeps the least share, siblings share evenly, and nothing else changes |
| Columns.TabsClamped | crates/core_layout/src/column.rs:173-200 | tabs go to the given index or the last window; selecting one needs tabs |
| Columns.Column.constructor | crates/core_layout/src/column.rs:50-58 | one window with the whole height, at least 100 pixels wide |
| Columns.Column.Empty | crates/core_layout/src/column.rs:61-68 | no windows and no weights |
| Columns.Column.AddWindow | crates/core_layout/src/column.rs:82-88 | the in-place edit is the edit on values: the window at the bottom, heights level |
| Columns.Column.RemoveWindow | crates/core_layout/src/column.rs:91-104 | the same, with the index removed; the others keep order and proportions |
| Columns.Column.RemoveAtIndex | crates/core_layout/src/column.rs:107-117 | the same, with the window removed; heights level |
| Columns.Column.InsertWindowAt | crates/core_layout/src/column.rs:214-222 | the in-place insertion is the edit on values: the window at its place, heights level |
| Columns.Column.SwapWindows | crates/core_layout/src/column.rs:225-236 | the in-place swap is the edit on values: every window keeps its height |
| Columns.Column.SetTabbedMode | crates/core_layout/src/column.rs:175-182 | the active tab is clamped; an empty column is left alone |
| Columns.Column.SetVerticalMode | crates/core_layout/src/column.rs:185-187 | tabs are dropped |
| Columns.Column.SelectTab | crates/core_layout/src/column.rs:191-200 | the active tab is clamped, in tabbed mode only |
| Columns.Column.SetWeight | crates/core_layout/src/column.rs:239-258 | the loop over siblings writes one share and splits the rest: sum 1, nobody below the least share |
| Columns.Column.EqualizeHeightWeights | crates/core_layout/src/column.rs:261-268 | equal shares |
| Columns.Column.NormalizeHeightWeights | crates/core_layout/src/column.rs:277-287 | the two loops divide by the sum, only when it is off by more than the tolerance |
| Columns.Column.OnWindowsRemovedAt | crates/core_layout/src/column.rs:290-306 | the tab index after a removal |
| Columns.Column.OnWindowInsertedAt | crates/core_layout/src/column.rs:309-321 | the tab index after an insertion |
| Columns.Column.OnWindowsSwapped | crates/core_layout/src/column.rs:324-338 | the tab index after a swap |
| Columns.Column.MaintainModeInvariant | crates/core_layout/src/column.rs:341-351 | tabs collapse at one window and stay in range |
| Columns.Column.EffectiveVisibleTab | crates/core_layout/src/column.rs:155-172 | the active tab unless it is minimized, else the first window that is not minimized, else none |
| Workspaces.RemoveShapes | crates/core_layout/src/workspace/focus.rs:235-310 | removing a window drops its lone column or takes it out of its stack, and changes no other width or window order |
| Workspaces.FocusShapes | crates/core_layout/src/workspace/focus.rs:810-820 | focusing changes no width or window order |
| WorkspaceSoundness.RemoveSound | crates/core_layout/src/workspace/focus.rs:235-310 | removal keeps columns non-empty, ids unique, tabs in range and the focus on a window |
| WorkspaceSoundness.InsertColumnSound | crates/core_layout/src/workspace/focus.rs:35-93 | so does inserting a column |
| WorkspaceSoundness.StackSound | crates/core_layout/src/workspace/focus.rs:169-194 | so does stacking |
| WorkspaceSoundness.FocusSound | crates/core_layout/src/workspace/focus.rs:810-820 | so does focusing |
| WorkspaceSoundness.AddFloatingSound | crates/core_layout/src/workspace/mod.rs:213-229 | so does adding a floating window |
| WorkspaceSoundness.RemoveFloatingSound | crates/core_layout/src/workspace/mod.rs:246-264 | so does removing one |
| MoveWindow.ArriveShapes | crates/daemon/src/command_handler.rs:1731-1737 | what each landing does to the target's widths and window order |
| MoveWindow.MoveConserves | crates/daemon/src/command_handler.rs:1601-1820 | on every exit path each window is held as often as before, tiled or floating as before, a floating one at the same position; other monitors are untouched |
| MoveWindow.MoveSucceeds | crates/daemon/src/command_handler.rs:1601-1820 | the insertion error is returned exactly when the target already holds the window, and the removal error never |
| MoveWindow.RunConserves | crates/daemon/src/command_handler.rs:1601-1820 | over any run of moves nothing is lost or doubled and every workspace stays sound |
| MoveWindow.FloatingArrivesUnpinned | crates/daemon/src/command_handler.rs:1683-1727 | a floating window keeps its position, and its entry exactly when it was not pinned |
| MoveRoundTrip.VisitLeavesNoTrace | crates/daemon/src/command_handler.rs:1634-1681 | arriving somewhere and leaving again restores that workspace's widths and window order, whatever the landing |
| MoveRoundTrip.HomecomingExact | crates/daemon/src/helpers.rs:795-812 | coming home restores widths and window order exactly for a lone window that brings its width, or a stacked one that was last |
| MoveRoundTrip.RollbackRestores | crates/daemon/src/command_handler.rs:1730-1764 | widths and window order after a refused move, and that they are the old ones exactly when the window was last in its column |
| MoveRoundTrip.RollbackReorders | crates/daemon/src/command_handler.rs:1730-1764 | two stacked windows end up swapped by a refused move |
| MoveRollback.RolledBackColumns | crates/daemon/src/command_handler.rs:1738-1764 | every column after a refused move, heights and tabs included |
| MoveRollback.RefusalExact | crates/daemon/src/command_handler.rs:1738-1764 | a refused move leaves every column as it was, windows, heights and tabs, exactly under a condition read off the workspace before it |
| MoveRollback.FailedMoveExact | crates/daemon/src/command_handler.rs:1601-1768 | the same for the whole command: the error, unchanged origins, floating windows and other workspaces, and that condition |
| MoveRollback.RefusalLosesTabs | crates/daemon/src/command_handler.rs:1738-1764 | a tabbed pair loses its tabs although its order is kept |
| MoveRollback.RefusalLosesHeights | crates/daemon/src/command_handler.rs:1738-1764 | a pair of unequal heights is levelled although its order is kept |
| MoveRoundTrip.TiledMove | crates/daemon/src/command_handler.rs:1622-1792 | the whole desk after a successful tiled move, remembered origin included |
| MoveRoundTrip.RoundTrip | crates/daemon/src/command_handler.rs:1634-1784 | after moving away and straight back only the window's own column can differ in width or window order, and how |
| MoveRoundTrip.RoundTripRestores | crates/daemon/src/command_handler.rs:1634-1784 | widths and window order are restored exactly when a lone window did not stack in a column of another width, or a stacked one was last |
| MoveRoundTrip.RoundTripNarrows | crates/daemon/src/command_handler.rs:1634-1784 | a desk on which a lone window comes back narrower than it left |
| MoveExact.VisitedColumns | crates/daemon/src/command_handler.rs:1720-1767 | every column, heights and tabs included, and the focus after an arrival |
| MoveExact.VisitColumns | crates/daemon/src/command_handler.rs:1634-1767 | every column of a workspace that a window visited and left |
| MoveExact.VisitExact | crates/daemon/src/command_handler.rs:1634-1767 | a visit leaves every column as it was exactly under a condition on the landing column, or on the column focused after it |
| MoveExact.ReturnExact | crates/daemon/src/command_handler.rs:1634-1767 | a return restores every column of the workspace left exactly under a condition on it and on the width brought back |
| MoveExact.RoundTripExact | crates/daemon/src/command_handler.rs:1601-1820 | away and straight back restores every column of both workspaces, widths, order, heights and tabs, exactly under conditions read off the desk before the moves |
| MoveRoundTrip.FirstRoundTrip | crates/daemon/src/command_handler.rs:1634-1784 | with no earlier origin for the destination a lone window always comes back as it was and a stacked one rejoins its neighbours |
| MoveLanding.MoveLands | crates/daemon/src/command_handler.rs:1651-1767 | a moved window lands right of the focused column, alone in an empty workspace; or at the bottom of its surviving sibling's column; or at its remembered place, clamped; with its width, focused; an origin on another monitor or workspace does not count |
| MoveLanding.MoveLeaves | crates/daemon/src/command_handler.rs:1634-1784 | the workspace left loses the window and nothing else, its focus stays or goes to the nearest window; the origin records the column and the topmost neighbour; nothing else changes |
| MoveLanding.RemovalFocus | crates/core_layout/src/workspace/focus.rs:225-310 | a removal leaves the focus on its window, or moves it to the one below, the new last, or the following column |
| MoveLanding.RefusalFocus | crates/daemon/src/command_handler.rs:1738-1764 | after a refused move a lone window has the focus, and a stacked one that had it has lost it to its neighbour |
| MoveLanding.FloatingMoves | crates/daemon/src/command_handler.rs:1683-1787 | a floating window moves at its place to the end of the target's list, unpinned; tiled columns stay and its recorded origin is forgotten |
| MoveLanding.MoveAnswers | crates/daemon/src/command_handler.rs:1601-1820 | which answer every call gets |
| MoveCommand.AppState.EnsureWorkspaceExists | crates/daemon/src/state.rs:1521-1564 | pushes empty workspaces until the index exists |
| MoveCommand.AppState.MoveWindowToWorkspace | crates/daemon/src/command_handler.rs:1601-1820 | the command run in place is the function the theorems are about |
| MoveCommand.AppState.MoveFloating | crates/daemon/src/command_handler.rs:1683-1727 | the floating half, rollback included |
| MoveCommand.AppState.MoveTiled | crates/daemon/src/command_handler.rs:1634-1784 | the tiled half, rollback and origin included |
| WorkspaceCycle.TargetNearest | crates/daemon/src/command_handler.rs:930-958 | next and previous pick the nearest eligible other slot, and nothing exactly when there is none; for any number of slots |
| WorkspaceCycle.BackUndoesAhead | crates/daemon/src/command_handler.rs:930-958 | going back undoes going ahead exactly from an occupied slot |
| WorkspaceCycle.TourVisitsAll | crates/daemon/src/command_handler.rs:930-958 | repeating next visits every occupied slot once and then returns to the start |
| WorkspaceCycle.UnskippedIsRelative | crates/daemon/src/command_handler.rs:968-977 | without skipping, next and previous agree with the relative index |
| WorkspaceCycle.SwitchesToInhabited | crates/daemon/src/command_handler.rs:930-958 | skipping empty workspaces, the switch leads to the nearest of the other eight that holds a window that is not sticky, and nowhere exactly when none does |
| EventStream.NextFrameExact | crates/cli/src/daemon_cmds.rs:597-620 | the framer returns exactly the frame the stream starts with: bounded, with its only newline at the end |
| EventStream.EndingExact | crates/cli/src/daemon_cmds.rs:597-620 | why there is no frame: too many bytes before the newline, a failed read, a clean end, or an end within a frame |
| EventStream.FramesPartition | crates/cli/src/daemon_cmds.rs:597-620 | the frames concatenate to what was consumed, and to the whole stream exactly when it ends cleanly |
| EventStream.Reader.ReadBoundedFrame | crates/cli/src/daemon_cmds.rs:597-620 | the reading loop returns that frame or the reason there is none, and consumes exactly it |
| EventStream.ForwardedStep | crates/cli/src/daemon_cmds.rs:693-819 | framing, judging and writing everything in stages equals doing them turn by turn |
| EventStream.ForwardEventFrames | crates/cli/src/daemon_cmds.rs:680-819 | the interleaved loop has the output and outcome of the staged specification, for reads and writes failing at any byte |
| EventLanguage.StateModesCopyBytes | crates/cli/src/daemon_cmds.rs:806-813 | with workspace state the output is always a byte prefix of the input |
| EventLanguage.PlainForwardsParseable | crates/cli/src/daemon_cmds.rs:716-732 | without it exactly the parseable frames come out in order, when it succeeds, and how it fails |
| EventLanguage.QueryLanguage | crates/cli/src/daemon_cmds.rs:735-763 | a query succeeds exactly when the stream starts with one whole same-revision snapshot that fits the output, and writes exactly it |
| EventLanguage.CompletesStep | crates/cli/src/daemon_cmds.rs:764-801 | the recogniser reads the grammar of ordinary events and whole snapshots one event at a time |
| EventLanguage.LiveLanguage | crates/cli/src/daemon_cmds.rs:764-801 | a subscription ends well exactly when the whole stream is framed, parses, consists of ordinary events and whole snapshots, and fits the output |
| EventLanguage.LiveForwardsLegal | crates/cli/src/daemon_cmds.rs:764-819 | whatever ends it, what was forwarded can be continued to a whole stream, but for a final error frame |
| EventOutcomes.StateModesExactly | crates/cli/src/daemon_cmds.rs:680-819 | both state modes forward exactly the longest viable run of frames, and an error event right after it, and end as the first thing that is not viable says; told from the grammar, for every input and every failing write |
| EventOutcomes.LongestExists | crates/cli/src/daemon_cmds.rs:680-819 | every stream has such a run |
| EventOutcomes.QueryForwardsLegal | crates/cli/src/daemon_cmds.rs:735-763 | whatever ends a query, what it writes is the beginning of one snapshot but for a final snapshot error: nothing mismatched or unparseable |
| Chords.StableIdInjective | crates/platform_win32/src/hotkeys.rs:76-126 | two chords share an id exactly when they agree on the modifiers and the low byte of the key |
| Chords.PackedLayout | crates/platform_win32/src/hotkeys.rs:90-126 | where the key, the standard and the function-key modifiers are in an id |
| Chords.FnModBitExact | crates/platform_win32/src/hotkeys.rs:73-78 | exactly F13 to F24 have a bit, each its own, in order |
| Ordering.SortAscends | crates/daemon/src/hotkey_resolution.rs:27-35 | sorting distinct entries is strictly ascending and loses nothing |
| Ordering.StringLessMeans | crates/daemon/src/hotkey_resolution.rs:27-35 | strings compare by their first difference, a proper prefix being less |
| Hotkeys.ResolveHotkeys | crates/daemon/src/hotkey_resolution.rs:27-124 | the loops with their index compute the specification of resolution |
| Hotkeys.AdmitConfigured | crates/daemon/src/hotkey_resolution.rs:38-100 | the loop over the sorted entries, its index standing for a search |
| Hotkeys.MarkBlocked | crates/daemon/src/hotkey_resolution.rs:102-116 | the loop that marks triggers in place and reports them |
| HotkeyWinners.ResolvedExactly | crates/daemon/src/hotkey_resolution.rs:37-124 | exactly the least valid entries are bound, executable unless some winner holds their trigger; exactly the other entries' reasons and the held triggers are reported, once each; both lists ascend |
| HotkeyWinners.OrderIndependent | crates/daemon/src/hotkey_resolution.rs:27-35 | the order in which the configuration map is read does not matter |
| HotkeyWinners.OneWinnerPerChord | crates/daemon/src/hotkey_resolution.rs:60-76 | each chord that a valid entry names has exactly one binding |
| HotkeyWinners.BindingsCarryTheirEntry | crates/daemon/src/hotkey_resolution.rs:78-100 | a binding carries the command and the chord its entry names, under the chord's id |
| HotkeyWinners.OrderOfFields | crates/daemon/src/hotkey_resolution.rs:27-35 | entries are ordered by binding and then action, issues also by message |
| HotkeyWinners.BlockedIffHeld | crates/daemon/src/hotkey_resolution.rs:102-116 | a bit of the folded mask is set exactly when some winner holds that key, blocked winners included |
| HotkeyDefaults.MigrationKeepsMeaning | crates/daemon/src/config.rs:1054-1079 | migration drops only deprecated actions, keeps what the others mean, and is done once |
| HotkeyDefaults.MigrationExact | crates/daemon/src/config.rs:1062-1079 | two actions are renamed, three are dropped, all others are left alone |
| HotkeyDefaults.HotkeyConfig.MigrateHotkeyBindings | crates/daemon/src/config.rs:1070-1079 | the renames in place, in turn, are the migration of the table |
| HotkeyDefaults.HotkeyConfig.MergeDefaultHotkeys | crates/daemon/src/config.rs:1486-1502 | merging in place gives the same table in whatever order the defaults are visited |
| HotkeyDefaults.UserBindingsKept | crates/daemon/src/config.rs:1486-1502 | a user binding whose key parses is never overwritten |
| HotkeyDefaults.MergeAddsExactly | crates/daemon/src/config.rs:1484-1502 | only unbound, enabled commands on free chords are added, and every default command ends up bound, disabled, or without its chord |
| HotkeyDefaults.MergeIdempotent | crates/daemon/src/config.rs:1486-1502 | merging again changes nothing |
| HotkeyDefaults.UserChordsKeepWinners | crates/daemon/src/config.rs:1484-1502 | every chord the user bound has the same winner as without the defaults |
| HotkeyDefaults.UserBindingsResolveAlike | crates/daemon/src/config.rs:1484-1502 | and, without function-key modifiers among the defaults, the same resolved binding, executable or not |
| Animation.EasingMonotone | crates/core_layout/src/animation.rs:17-34 | every easing is monotone over all reals |
| Animation.EasingRange | crates/core_layout/src/animation.rs:17-34 | every easing stays in [0, 1] and fixes both ends |
| Animation.EasingMirror | crates/core_layout/src/animation.rs:17-34 | ease-out mirrors ease-in |
| Animation.EasingShapes | crates/core_layout/src/animation.rs:17-34 | which curve is which: the cube told by a half and by products, ahead of and behind linear, and half of each |
| Animation.OffsetEased | crates/core_layout/src/animation.rs:61-75 | the share of the way gone is the eased share of the time |
| Animation.ScrollRun | crates/core_layout/src/animation.rs:48-80 | along any ticks the offset goes from start to target without turning back or overshooting, and is the target once complete |
| Animation.ElapsedMonotone | crates/core_layout/src/animation.rs:77-80 | elapsed time never decreases, saturation included |
| Animation.ElapsedExact | crates/core_layout/src/animation.rs:77-80 | elapsed time is the sum of the ticks, up to saturation |
| Animation.ScrollAnimation.Tick | crates/core_layout/src/animation.rs:77-80 | the new elapsed time, and whether the animation goes on |
| Animation.OpacityFades | crates/daemon/src/animation_worker.rs:559-560 | the opacity of a fade never rises and is exactly 0 on the last frame, for any number of frames |
| Animation.OpacityIsEased | crates/daemon/src/animation_worker.rs:559-560 | the opacity is what the cubic curve leaves of 255, to the nearest whole |
| ColumnWidth.PresetColumnsFit | crates/daemon/src/config.rs:204-226 | above the 100-pixel minimum as many columns as the preset allows fit the viewport, saturation or not; at the minimum they fit exactly when there is room |
| ColumnWidth.PresetColumnsTight | crates/daemon/src/config.rs:216-226 | when the preset is exactly one of n parts a column one pixel wider would not fit n times |
| ColumnWidth.SmallestWidthOverflows | crates/daemon/src/config.rs:216-226 | a viewport in which the minimum makes four quarters overflow |
| ColumnWidth.FractionChosen | crates/daemon/src/config.rs:205-212 | the 1-based preset, else the first, else one half |
| ColumnWidth.WidthExact | crates/daemon/src/config.rs:214-226 | without saturation the width is the fraction of usable width and gap, less the gap, rounded down, at least 100 |
| ShortcutGuide.RenderManifest | crates/cli/src/shortcut_guide.rs:97-156 | the loop with its index computes the stable group-by of all representable shortcuts, and the warnings in order |
| ShortcutGuide.SectionsBatch | crates/cli/src/shortcut_guide.rs:139-149 | one turn grows the indexed section or adds a section with its index entry, so the index always maps exactly the existing names to their positions |
| ShortcutGuide.EachShortcutOnce | crates/cli/src/shortcut_guide.rs:97-156 | every shortcut is listed as often as it is configured, under its own group |
| ShortcutGuide.SectionsInOrder | crates/cli/src/shortcut_guide.rs:139-149 | sections come in the order their groups first appear and none is empty |
| ShortcutGuide.SectionsStable | crates/cli/src/shortcut_guide.rs:139-149 | a section keeps the order in which its shortcuts are configured, and has them all |
| ShortcutGuide.ShownExactly | crates/cli/src/shortcut_guide.rs:105-134 | a binding is shown exactly if it parses without function-key modifiers, and the shortcut gives back its chord; else which warning |
| ShortcutGuide.BindingsAccountedFor | crates/cli/src/shortcut_guide.rs:102-134 | every binding of an enabled hotkey has, at its place in the order, exactly one shortcut under its group or exactly one warning, and these are all the shortcuts and warnings there are |

## Left out

- AnimationWorker.Worker.WorkerLoop: models finite runs only; that a queued command is eventually executed depends on the scheduler.
- WorkerSafety.BarrierWaitSound: the deadline is a choice of the environment, not a clock.
- WorkerHistory.MovedRequestsGrow: assumes that the dispatch counter only grows, which the main loop promises.
- Unwinding of the worker thread, the native thumbnail and placement calls, and the contents of a frame: they are logged as effects.
- The event channel: sends are logged as attempts; a closed channel only ends the loop after a frame, as in the source.
- AnimationWorker.Worker.RunFrame: the placement cache and the wait for animated positions are not part of this model.
- ManagedLifetime.SuppressionNamesItsLifetime: does not model entries expiring, nor tokens wrapping at 64 bits.
- ManagedLifetime.RecordedMemberSurvives: stashed scratchpad windows are left out, and the ignore-lifetime check is a parameter.
- ManagedLifetime.Daemon.RecordManagedLifetime: the maximize-restore eligibility it also clears is left out.
- ManagedLifetime.Daemon.TakeManagedLifetimeToken: the other per-window caches cleared with the token are left out.
- ManagedLifetime.Daemon.DepartReplacedManagedLifetime: departure is membership, token, admission time and suppression; the rest of the departure is left out.
- ManagedLifetime.Daemon.OnWindowDestroyed: the same departure.
- ManagedLifetime.Daemon.OnWindowHidden: the same departure; spurious Hidden events of visible windows are not events of the model, and whether the window was short-lived is a parameter.
- MoveRoundTrip.VisitLeavesNoTrace: speaks of widths and window order; heights and tabs are in `MoveExact.VisitExact`.
- MoveRoundTrip.RoundTrip: likewise; heights and tabs are in `MoveExact.RoundTripExact`.
- MoveRoundTrip.RoundTripRestores: likewise.
- MoveRoundTrip.HomecomingExact: likewise; heights and tabs are in `MoveExact.ReturnExact`.
- MoveRoundTrip.RollbackRestores: likewise; heights and tabs are in `MoveRollback.RefusalExact`.
- MoveExact.RoundTripExact: compares columns; where the focus ends up is stated by `MoveLanding` for each of the two moves.
- Columns.WeightsStayBalanced: weights are reals; rounding is not modelled. The cached width fraction of a column is left out.
- Workspaces: a workspace is a value, so its own in-place updates are not captured (its columns' are, in `Columns`, and the map of workspaces is, in `MoveCommand`); scrolling, placement, minimizing and fullscreen are left out.
- MoveCommand.AppState.MoveWindowToWorkspace: moving the window off-screen, the layout transition, focus and taskbar are left out; whether applying the layout succeeds is a parameter.
- WorkspaceCycle.TourVisitsAll: switching to the chosen workspace is left out.
- EventStream.ForwardEventFrames: parsing is a parameter, a timeout is a read error, and the warning printed for an unparseable frame is left out.
- Hotkeys.ResolveHotkeys: parsing of chords and commands is a parameter; the overview action and the canonical action id of a binding are left out.
- HotkeyDefaults.UserChordsKeepWinners: assumes that default keys parse and that key codes fit one byte.
- HotkeyDefaults.MigrationKeepsMeaning: lower-casing is a parameter that leaves the four catalogue names alone.
- ColumnWidth.PresetColumnsFit: rounding of the product is not modelled.
- ShortcutGuide.RenderManifest: rendering the sections as text is left out.
- Configuration validation, rule matching, policy tables, overview, sticky and scratchpad handling, pipes and recovery messages: one-branch decisions, or calls into foreign code.
