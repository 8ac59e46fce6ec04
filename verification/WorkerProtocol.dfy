/** What the animation worker may do, as an acceptor of its event log.

    Commands are numbered in the order they were sent. Every event names the command it
    belongs to, so that statements about order, ownership and completion can be made about
    the log alone. `Track` accepts a log; the lemmas below say what every accepted log,
    hence every interleaving of the worker with its clients, satisfies. */
module WorkerProtocol {
  import opened Prelude
  import Curves = Animation

  /** A thumbnail owned by a fade. The native handle 0 means "nothing registered". */
  datatype Entry = Entry(window: nat, handle: int)

  datatype Command =
    | Frame(request: nat, invalidation: nat)
    | Crossfade(epoch: nat, entries: seq<Entry>, frames: nat, expected: Option<nat>)
    | AbortCrossfade(epoch: nat)
    | DropCrossfadeTarget(epoch: nat, window: nat)
    | ClearCache
    | Barrier
    | Shutdown

  datatype Event =
    | Taken(i: nat, cmd: Command)                 // command received from the channel
    | Began(i: nat)                               // a fade starts
    | TokenRead(i: nat, value: nat)               // a fade reads its invalidation token
    | FoundEmpty(i: nat)                          // a fade finds no command waiting
    | HungUp(i: nat)                              // a fade finds every client gone
    | Updated(i: nat, entry: Entry, opacity: int) // a fade redraws one thumbnail
    | Flushed(i: nat)                             // a fade hands one drawn iteration to the compositor
    | Released(i: nat, entry: Entry)              // an entry is dropped; a non-zero handle is unregistered
    | TargetDropped(i: nat, epoch: nat, window: nat)
    | Completed(i: nat, epoch: nat)
    | CancelRead(i: nat, cancelled: bool)         // a frame reads, one after the other, the shutdown flag,
    | DispatchRead(i: nat, dispatch: nat)         // the request dispatched last,
    | InvalidationRead(i: nat, value: nat)        // and the invalidation counter, until one disowns it
    | Moved(i: nat, request: nat)                 // a frame places windows and updates ghosts
    | Reported(i: nat, request: nat, invalidation: nat, delivered: bool)
    | Cleared(i: nat)
    | Acknowledged(i: nat)
    | Ignored(i: nat)                             // abort or drop with no fade in flight
    | ChannelClosed                               // the outer loop finds every client gone
    | Exited

  /** Where a fade is within an iteration. `hit` once a target drop has released an entry. */
  datatype Stage =
    | Top                              // before the iteration
    | Fresh                            // its token was read and still good
    | Sweeping(window: nat, hit: bool) // a matching target drop was received
    | Polled                           // nothing was received, or nothing for this fade
    | Closing                          // the fade was told to end early

  /** What a frame has read and done so far. */
  datatype Check =
    | Uncancelled
    | Newest     // and its request is the one dispatched last
    | Current    // and its invalidation is the present one
    | Disowned   // something it read disagrees
    | Placed

  /** `shown` is what the iteration at hand has redrawn. */
  datatype Phase =
    | Idle
    | Holding(i: nat, cmd: Command)
    | Fading(i: nat, cmd: Command, owned: multiset<Entry>, drawn: nat, shown: multiset<Entry>, stage: Stage,
             stash: Option<Command>)
    | Framing(i: nat, cmd: Command, check: Check)
    | Leaving   // about to exit
    | Gone

  datatype Monitor = Monitor(next: nat, phase: Phase)

  ghost predicate Owns(owned: multiset<Entry>, window: nat) {
    exists en :: en in owned && en.window == window
  }

  /** An iteration is due and its token, if the fade has one, was found good. */
  predicate MayLook(f: Phase)
    requires f.Fading?
  {
    && f.cmd.Crossfade? && f.drawn < f.cmd.frames
    && (f.stage.Fresh? || (f.stage.Top? && f.cmd.expected.None?))
  }

  /** The channel was looked at and a target drop, if that was received, is done with. */
  ghost predicate MayDraw(f: Phase)
    requires f.Fading?
  {
    && f.cmd.Crossfade? && f.drawn < f.cmd.frames
    && (f.stage.Polled? || (f.stage.Sweeping? && !f.stage.hit && !Owns(f.owned, f.stage.window)))
  }

  /** Every iteration was drawn, or the fade was told to end early. */
  predicate MayClose(f: Phase)
    requires f.Fading?
  {
    f.cmd.Crossfade? && (f.stage.Closing? || (f.stage.Top? && f.drawn == f.cmd.frames))
  }

  predicate FadeOnly(cmd: Command) { cmd.AbortCrossfade? || cmd.DropCrossfadeTarget? }

  /** Receiving `other` ends the fade `cmd`: a matching abort, or anything not meant for fades. */
  predicate Stops(cmd: Command, other: Command)
    requires cmd.Crossfade?
  {
    match other
    case DropCrossfadeTarget(_, _) => false
    case AbortCrossfade(e) => e == cmd.epoch
    case _ => true
  }

  /** How a fade reacts to a command received between two of its iterations. */
  function Interrupt(f: Phase, cmd: Command): Phase
    requires f.Fading? && f.cmd.Crossfade?
  {
    if Stops(f.cmd, cmd) then f.(stage := Closing, stash := if FadeOnly(cmd) then None else Some(cmd))
    else if cmd.DropCrossfadeTarget? && cmd.epoch == f.cmd.epoch then f.(stage := Sweeping(cmd.window, false))
    else f.(stage := Polled)
  }

  ghost predicate MayRelease(f: Phase, en: Entry)
    requires f.Fading?
  {
    en in f.owned && (MayClose(f) || (f.stage.Sweeping? && f.stage.window == en.window))
  }

  ghost function Release(f: Phase, en: Entry): Phase
    requires f.Fading?
  {
    f.(owned := f.owned - multiset{en}, stage := if f.stage.Sweeping? then Sweeping(f.stage.window, true) else f.stage)
  }

  ghost predicate MayUpdate(f: Phase, en: Entry, opacity: int)
    requires f.Fading?
  {
    MayDraw(f) && opacity == Curves.CrossfadeOpacity(f.drawn + 1, f.cmd.frames) && f.shown[en] < f.owned[en]
  }

  /** What the events of a running fade do to it; the others are no concern of a fade. */
  ghost function FadeStep(f: Phase, e: Event): Option<Phase>
    requires f.Fading? && f.cmd.Crossfade?
  {
    match e
    case TokenRead(i, value) =>
      if f.stage.Top? && f.drawn < f.cmd.frames && f.cmd.expected.Some?
      then Some(f.(stage := if value == f.cmd.expected.value then Fresh else Closing))
      else None
    case FoundEmpty(i) => if MayLook(f) then Some(f.(stage := Polled)) else None
    case HungUp(i) => if MayLook(f) then Some(f.(stage := Closing)) else None
    case Updated(i, en, opacity) =>
      if MayUpdate(f, en, opacity) then Some(f.(shown := f.shown + multiset{en}, stage := Polled)) else None
    case Flushed(i) =>
      if MayDraw(f) && f.shown == f.owned then Some(f.(drawn := f.drawn + 1, shown := multiset{}, stage := Top))
      else None
    case Released(i, en) => if MayRelease(f, en) then Some(Release(f, en)) else None
    case TargetDropped(i, epoch, window) =>
      if f.cmd.epoch == epoch && f.stage == Sweeping(window, true) && !Owns(f.owned, window)
      then Some(f.(stage := Polled))
      else None
    case _ => None
  }

  /** The events of a fade between its first and its last. */
  predicate FadeEvent(e: Event) {
    || e.TokenRead? || e.FoundEmpty? || e.HungUp? || e.Updated? || e.Flushed? || e.Released? || e.TargetDropped?
  }

  predicate Checks(f: Phase, i: nat, check: Check) { f.Framing? && f.i == i && f.cmd.Frame? && f.check == check }

  ghost function Step(m: Monitor, e: Event): Option<Monitor> {
    var f := m.phase;
    match e
    case Taken(i, cmd) =>
      if i != m.next then None
      else if f.Idle? then Some(Monitor(i + 1, Holding(i, cmd)))
      else if f.Fading? && MayLook(f) then Some(Monitor(i + 1, Interrupt(f, cmd)))
      else None
    case Began(i) =>
      if f.Holding? && f.i == i && f.cmd.Crossfade?
      then Some(Monitor(m.next, Fading(i, f.cmd, multiset(f.cmd.entries), 0, multiset{}, Top, None)))
      else None
    case Completed(i, epoch) =>
      if f.Fading? && f.i == i && MayClose(f) && f.cmd.epoch == epoch && f.owned == multiset{}
      then Some(Monitor(m.next, if f.stash.Some? && 0 < m.next then Holding(m.next - 1, f.stash.value) else Idle))
      else None
    case CancelRead(i, cancelled) =>
      if f.Holding? && f.i == i && f.cmd.Frame?
      then Some(Monitor(m.next, Framing(i, f.cmd, if cancelled then Disowned else Uncancelled)))
      else None
    case DispatchRead(i, dispatch) =>
      if Checks(f, i, Uncancelled)
      then Some(Monitor(m.next, f.(check := if dispatch == f.cmd.request then Newest else Disowned)))
      else None
    case InvalidationRead(i, value) =>
      if Checks(f, i, Newest)
      then Some(Monitor(m.next, f.(check := if value == f.cmd.invalidation then Current else Disowned)))
      else None
    case Moved(i, request) =>
      if Checks(f, i, Current) && f.cmd.request == request then Some(Monitor(m.next, f.(check := Placed))) else None
    case Reported(i, request, invalidation, delivered) =>
      if (Checks(f, i, Disowned) || Checks(f, i, Placed)) && f.cmd == Frame(request, invalidation)
      then Some(Monitor(m.next, if delivered then Idle else Leaving))
      else None
    case Cleared(i) =>
      if f == Holding(i, ClearCache) then Some(Monitor(m.next, Idle)) else None
    case Acknowledged(i) =>
      if f == Holding(i, Barrier) then Some(Monitor(m.next, Idle)) else None
    case Ignored(i) =>
      if f.Holding? && f.i == i && FadeOnly(f.cmd) then Some(Monitor(m.next, Idle)) else None
    case ChannelClosed => if f.Idle? then Some(Monitor(m.next, Leaving)) else None
    case Exited =>
      if f.Leaving? || (f.Holding? && f.cmd.Shutdown?) then Some(Monitor(m.next, Gone)) else None
    case _ =>
      if f.Fading? && f.i == e.i && f.cmd.Crossfade? && FadeStep(f, e).Some?
      then Some(Monitor(m.next, FadeStep(f, e).value))
      else None
  }

  ghost function Track(log: seq<Event>): Option<Monitor> {
    if log == [] then Some(Monitor(0, Idle))
    else
      match Track(log[..|log| - 1])
      case None => None
      case Some(m) => Step(m, log[|log| - 1])
  }

  /** `log` is accepted, through these states of the acceptor. */
  ghost predicate Accepted(log: seq<Event>, trace: seq<Monitor>) {
    && |trace| == |log| + 1 && trace[0] == Monitor(0, Idle)
    && forall k :: 0 <= k < |log| ==> Step(trace[k], log[k]) == Some(trace[k + 1])
  }

  lemma {:induction false} AcceptedTracks(log: seq<Event>, trace: seq<Monitor>)
    requires Accepted(log, trace)
    ensures Track(log) == Some(trace[|log|])
  {
    if log != [] { AcceptedTracks(log[..|log| - 1], trace[..|log|]); }
  }

  // ------------------------------------------------------------ readings of a log

  /** The commands taken so far, in the order they were taken. */
  ghost function Commands(log: seq<Event>): seq<Command> {
    if log == [] then []
    else
      var e := log[|log| - 1];
      Commands(log[..|log| - 1]) + if e.Taken? then [e.cmd] else []
  }

  /** The entries released on behalf of fade `i`, with multiplicity. */
  ghost function ReleasedBy(log: seq<Event>, i: nat): multiset<Entry> {
    if log == [] then multiset{}
    else
      var e := log[|log| - 1];
      ReleasedBy(log[..|log| - 1], i) + if e.Released? && e.i == i then multiset{e.entry} else multiset{}
  }

  predicate Effect(e: Event) { !e.Taken? && !e.ChannelClosed? && !e.Exited? }

  /** The first event of a fade or of a frame. */
  predicate Start(e: Event) { e.Began? || e.CancelRead? }

  /** The last event of a command executed by the outer loop. */
  predicate Finish(e: Event) {
    e.Completed? || e.Reported? || e.Cleared? || e.Acknowledged? || e.Ignored?
  }

  /** How many iterations of fade `i` have been drawn. */
  ghost function Flushes(log: seq<Event>, i: nat): nat {
    if log == [] then 0
    else Flushes(log[..|log| - 1], i) + if log[|log| - 1] == Flushed(i) then 1 else 0
  }

  /** The entries that fade `i` has redrawn since it last handed an iteration over. */
  ghost function Redrawn(log: seq<Event>, i: nat): multiset<Entry> {
    if log == [] then multiset{}
    else
      var e := log[|log| - 1];
      if e == Flushed(i) then multiset{}
      else Redrawn(log[..|log| - 1], i) + if e.Updated? && e.i == i then multiset{e.entry} else multiset{}
  }

  /** Fade `i` has begun and not completed before event `p`. */
  ghost predicate DuringFade(log: seq<Event>, p: nat, i: nat)
    requires p <= |log|
  {
    && Began(i) in log[..p]
    && forall k :: 0 <= k < p ==> !(log[k].Completed? && log[k].i == i)
  }

  /** `e` tells fade `i` to end early: a matching abort, a command that preempts it, a token that
      no longer matches, or the clients' leaving. */
  predicate Ends(cmd: Command, i: nat, e: Event)
    requires cmd.Crossfade?
  {
    || e == HungUp(i)
    || (e.TokenRead? && e.i == i && Some(e.value) != cmd.expected)
    || (e.Taken? && (e.cmd == AbortCrossfade(cmd.epoch) || !FadeOnly(e.cmd)))
  }

  /** Fade `i` was told to end early. */
  ghost predicate EndedEarly(log: seq<Event>, i: nat, cmd: Command)
    requires cmd.Crossfade?
  {
    exists p :: 0 <= p < |log| && DuringFade(log, p, i) && Ends(cmd, i, log[p])
  }

  /** Every entry that fade `cmd`, number `i`, was given for `window` has been released. */
  ghost predicate AllReleased(log: seq<Event>, i: nat, cmd: Command, window: nat)
    requires cmd.Crossfade?
  {
    forall en: Entry :: en.window == window ==> ReleasedBy(log, i)[en] == multiset(cmd.entries)[en]
  }

  /** `e` shows that command `i`, which is not meant for fades, has been dealt with in full. */
  predicate Concludes(e: Event, i: nat, cmd: Command) {
    match cmd
    case Frame(request, invalidation) => e == Reported(i, request, invalidation, true) ||
                                         e == Reported(i, request, invalidation, false)
    case Crossfade(epoch, _, _, _) => e == Completed(i, epoch)
    case ClearCache => e == Cleared(i)
    case Barrier => e == Acknowledged(i)
    case Shutdown => e == Exited
    case _ => e == Ignored(i)
  }

  /** Fade `i` received abort or drop `k` at `p` and has done what it asks for: a matching abort is
      followed by completion, a matching drop by the release of all its window's entries, and a
      stale one asks for nothing. */
  ghost predicate AnsweredAt(log: seq<Event>, k: nat, i: nat, p: nat) {
    var cmds := Commands(log);
    && p < |log| && k < |cmds| && i < k && cmds[i].Crossfade?
    && log[p] == Taken(k, cmds[k]) && DuringFade(log, p, i)
    && match cmds[k]
       case AbortCrossfade(e) => e == cmds[i].epoch ==> Completed(i, e) in log
       case DropCrossfadeTarget(e, w) =>
         e == cmds[i].epoch ==> exists q :: p < q <= |log| && AllReleased(log[..q], i, cmds[i], w)
       case _ => false
  }

  ghost predicate Concluded(log: seq<Event>, k: nat) {
    && k < |Commands(log)|
    && ((exists p :: 0 <= p < |log| && Concludes(log[p], k, Commands(log)[k]))
        || exists i, p :: AnsweredAt(log, k, i, p))
  }

  ghost predicate InHand(m: Monitor, i: nat) {
    match m.phase
    case Holding(j, _) => i == j
    case Fading(j, _, _, _, _, _, _) => j <= i < m.next
    case Framing(j, _, _) => i == j
    case _ => false
  }

  // --------------------------------------------------------------- the phases

  /** Commands below this number have nothing left to do. */
  function Bound(m: Monitor): nat {
    if m.phase.Idle? || m.phase.Leaving? || m.phase.Gone? then m.next else m.phase.i
  }

  ghost predicate Consistent(cmds: seq<Command>, m: Monitor) {
    && |cmds| == m.next
    && match m.phase
       case Holding(i, cmd) => i + 1 == m.next && cmds[i] == cmd
       case Fading(i, cmd, _, drawn, _, stage, stash) =>
         && i < m.next && cmds[i] == cmd && cmd.Crossfade? && drawn <= cmd.frames
         && (stage.Closing? ==> drawn < cmd.frames)
         && (stash.Some? ==>
               stage.Closing? && i + 1 < m.next && cmds[m.next - 1] == stash.value && !FadeOnly(stash.value))
         && (forall k :: i < k < m.next - (if stash.Some? then 1 else 0) ==> FadeOnly(cmds[k]))
       case Framing(i, cmd, _) => i + 1 == m.next && cmds[i] == cmd && cmd.Frame?
       case _ => true
  }

  lemma StepConsistent(cmds: seq<Command>, m: Monitor, e: Event)
    requires Consistent(cmds, m) && Step(m, e).Some?
    ensures Consistent(cmds + if e.Taken? then [e.cmd] else [], Step(m, e).value)
  {
    hide Curves.CrossfadeOpacity, Owns, FadeStep, Checks;
    match e
    case Taken(i, cmd) =>
      var cmds' := cmds + [cmd];
      assert cmds'[..|cmds|] == cmds && cmds'[i] == cmd;
    case _ =>
      assert cmds + [] == cmds;
      if FadeEvent(e) {
        FadeStepKeeps(m.phase, e);
      } else {
        StepConsistentElse(cmds, m, e);
      }
  }

  lemma StepConsistentElse(cmds: seq<Command>, m: Monitor, e: Event)
    requires Consistent(cmds, m) && Step(m, e).Some? && !e.Taken? && !FadeEvent(e)
    ensures Consistent(cmds, Step(m, e).value)
  {
    hide Curves.CrossfadeOpacity, Owns, FadeStep;
  }

  /** What no event of a fade changes. */
  lemma FadeStepKeeps(f: Phase, e: Event)
    requires f.Fading? && f.cmd.Crossfade? && FadeStep(f, e).Some?
    ensures
      var f' := FadeStep(f, e).value;
      && f'.Fading? && f'.i == f.i && f'.cmd == f.cmd && f'.stash == f.stash
      && (f.stage.Closing? ==> f'.stage.Closing? && f'.drawn == f.drawn)
      && (f'.stage.Closing? ==> f.stage.Closing? || (f'.drawn == f.drawn && f.drawn < f.cmd.frames))
      && (f.drawn <= f.cmd.frames ==> f'.drawn <= f.cmd.frames)
  {
    hide Curves.CrossfadeOpacity, Owns;
  }

  lemma {:induction false} PhaseConsistent(log: seq<Event>)
    requires Track(log).Some?
    ensures Consistent(Commands(log), Track(log).value)
  {
    if log != [] {
      var front, e := log[..|log| - 1], log[|log| - 1];
      PhaseConsistent(front);
      StepConsistent(Commands(front), Track(front).value, e);
    }
  }

  lemma {:induction false} PrefixTracks(log: seq<Event>, p: nat)
    requires Track(log).Some? && p <= |log|
    ensures Track(log[..p]).Some?
  {
    if p < |log| {
      var front := log[..|log| - 1];
      PrefixTracks(front, p);
      assert front[..p] == log[..p];
    } else {
      assert log[..p] == log;
    }
  }

  lemma {:induction false} PrefixCommands(log: seq<Event>, p: nat)
    requires p <= |log|
    ensures Commands(log[..p]) <= Commands(log)
  {
    if p < |log| {
      var front := log[..|log| - 1];
      PrefixCommands(front, p);
      assert front[..p] == log[..p];
    } else {
      assert log[..p] == log;
    }
  }

  lemma LastStep(log: seq<Event>, front: seq<Event>, e: Event)
    requires Track(log).Some? && log == front + [e]
    ensures Track(front).Some? && Step(Track(front).value, e).Some?
  {
    assert log[..|log| - 1] == front;
  }

  lemma AcceptedAt(log: seq<Event>, p: nat)
    requires Track(log).Some? && p < |log|
    ensures Track(log[..p]).Some? && Step(Track(log[..p]).value, log[p]).Some?
  {
    hide Step;
    PrefixTracks(log, p + 1);
    assert log[..p + 1] == log[..p] + [log[p]];
    LastStep(log[..p + 1], log[..p], log[p]);
  }

  /** The state in which event `p` was accepted. */
  lemma Before(log: seq<Event>, p: nat)
    requires Track(log).Some? && p < |log|
    ensures Track(log[..p]).Some? && Step(Track(log[..p]).value, log[p]).Some?
    ensures Consistent(Commands(log[..p]), Track(log[..p]).value)
    ensures Commands(log[..p]) <= Commands(log)
  {
    AcceptedAt(log, p);
    PrefixCommands(log, p);
    PhaseConsistent(log[..p]);
  }
}
