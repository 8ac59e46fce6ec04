/** The animation worker: its outer loop and the crossfade it runs, with clients and shared
    counters free to act between any two of its steps.

    Placement, compositor calls and the daemon's event channel are events of the log. */
module AnimationWorker {
  import opened Prelude
  import opened WorkerProtocol
  import opened WorkerSafety
  import opened WorkerHistory
  import Curves = Animation

  datatype Received = Got(cmd: Command) | Empty | Disconnected

  // ------------------------------------------------- what a fade logs, as values

  /** The entries of one window, or those of all others, in order. */
  function Named(entries: seq<Entry>, window: nat, wanted: bool): (r: seq<Entry>)
    ensures forall en :: en in r ==> (en.window == window) == wanted
  {
    if entries == [] then []
    else
      var last := entries[|entries| - 1];
      Named(entries[..|entries| - 1], window, wanted) + if (last.window == window) == wanted then [last] else []
  }

  function Releases(i: nat, entries: seq<Entry>): seq<Event> {
    seq(|entries|, k requires 0 <= k < |entries| => Released(i, entries[k]))
  }

  /** One redraw of every entry, in order. */
  function Redraws(i: nat, entries: seq<Entry>, opacity: int): seq<Event> {
    seq(|entries|, k requires 0 <= k < |entries| => Updated(i, entries[k], opacity))
  }

  /** The target drop of `window` in fade `i`. */
  function Dropped(i: nat, epoch: nat, entries: seq<Entry>, window: nat): seq<Event> {
    var gone := Named(entries, window, true);
    Releases(i, gone) + if gone == [] then [] else [TargetDropped(i, epoch, window)]
  }

  predicate Meant(cmd: Command, r: Received)
    requires cmd.Crossfade?
  {
    r.Got? && r.cmd.DropCrossfadeTarget? && r.cmd.epoch == cmd.epoch
  }

  /** What the fade's look at the channel makes it do; `k` is the number of a received command. */
  function Polls(i: nat, cmd: Command, k: nat, entries: seq<Entry>, r: Received): seq<Event>
    requires cmd.Crossfade?
  {
    match r
    case Empty => [FoundEmpty(i)]
    case Disconnected => [HungUp(i)]
    case Got(other) => [Taken(k, other)] + if Meant(cmd, r) then Dropped(i, cmd.epoch, entries, other.window) else []
  }

  /** The entries left after that look. */
  function Left(cmd: Command, entries: seq<Entry>, r: Received): seq<Entry>
    requires cmd.Crossfade?
  {
    if Meant(cmd, r) then Named(entries, r.cmd.window, false) else entries
  }

  /** Whether the fade goes on after that look. */
  predicate GoesOn(cmd: Command, r: Received)
    requires cmd.Crossfade?
  {
    r.Empty? || (r.Got? && !Stops(cmd, r.cmd))
  }

  predicate TokenGood(cmd: Command, token: nat)
    requires cmd.Crossfade?
  {
    cmd.expected.None? || cmd.expected.value == token
  }

  function Reads(i: nat, cmd: Command, token: nat): seq<Event>
    requires cmd.Crossfade?
  {
    if cmd.expected.None? then [] else [TokenRead(i, token)]
  }

  /** Everything the `n`-th iteration, from 0, logs. */
  function Iteration(i: nat, cmd: Command, k: nat, entries: seq<Entry>, n: nat, token: nat, r: Received): seq<Event>
    requires cmd.Crossfade? && n < cmd.frames
  {
    Reads(i, cmd, token) +
    if !TokenGood(cmd, token) then []
    else
      Polls(i, cmd, k, entries, r) +
      if !GoesOn(cmd, r) then []
      else Redraws(i, Left(cmd, entries, r), Curves.CrossfadeOpacity(n + 1, cmd.frames)) + [Flushed(i)]
  }

  /** Commands that the outer loop carries out in one step. */
  predicate Simple(cmd: Command) { !cmd.Frame? && !cmd.Crossfade? }

  /** The step of a simple command; an abort or a drop finds no fade to act on. */
  function Done(i: nat, cmd: Command): Event
    requires Simple(cmd)
  {
    match cmd
    case Shutdown => Exited
    case ClearCache => Cleared(i)
    case Barrier => Acknowledged(i)
    case _ => Ignored(i)
  }

  // ----------------------------------------------------------------- their steps

  /** A fade that is sweeping `window` and has `kept` entries behind and `left` ones before it. */
  ghost function Sweep(m: Monitor, kept: seq<Entry>, left: seq<Entry>, window: nat, hit: bool): Monitor
    requires m.phase.Fading?
  {
    m.(phase := m.phase.(owned := multiset(kept) + multiset(left), stage := Sweeping(window, hit)))
  }

  lemma SweepFromStart(m: Monitor, entries: seq<Entry>, window: nat)
    requires m.phase.Fading? && m.phase.owned == multiset(entries) && m.phase.stage == Sweeping(window, false)
    ensures Sweep(m, [], entries, window, false) == m
  {}

  lemma SweepStep(m: Monitor, i: nat, kept: seq<Entry>, left: seq<Entry>, en: Entry, hit: bool)
    requires m.phase.Fading? && m.phase.i == i && m.phase.cmd.Crossfade?
    ensures Step(Sweep(m, kept, [en] + left, en.window, hit), Released(i, en)) ==
            Some(Sweep(m, kept, left, en.window, true))
  {
    var f := Sweep(m, kept, [en] + left, en.window, hit).phase;
    assert multiset([en] + left) == multiset{en} + multiset(left);
    assert f.owned - multiset{en} == multiset(kept) + multiset(left);
    assert Release(f, en) == Sweep(m, kept, left, en.window, true).phase;
  }

  lemma SweepSkips(m: Monitor, kept: seq<Entry>, left: seq<Entry>, en: Entry, window: nat, hit: bool)
    requires m.phase.Fading?
    ensures Sweep(m, kept, [en] + left, window, hit) == Sweep(m, kept + [en], left, window, hit)
  {
    assert multiset([en] + left) == multiset{en} + multiset(left);
    assert multiset(kept + [en]) == multiset(kept) + multiset{en};
    assert multiset(kept) + multiset([en] + left) == multiset(kept + [en]) + multiset(left);
  }

  lemma SweepOver(m: Monitor, kept: seq<Entry>, window: nat, hit: bool)
    requires m.phase.Fading?
    ensures Sweep(m, kept, [], window, hit) ==
            m.(phase := m.phase.(owned := multiset(kept), stage := Sweeping(window, hit)))
  {
    assert multiset(kept) + multiset([]) == multiset(kept);
  }

  lemma SweepFades(m: Monitor, kept: seq<Entry>, left: seq<Entry>, window: nat, hit: bool)
    requires m.phase.Fading?
    ensures Sweep(m, kept, left, window, hit).next == m.next
  {}

  /** A fade that has only these entries left. */
  ghost function Owing(m: Monitor, left: seq<Entry>): Monitor
    requires m.phase.Fading?
  {
    m.(phase := m.phase.(owned := multiset(left)))
  }

  lemma OwingEnds(m: Monitor, owned: seq<Entry>)
    requires m.phase.Fading? && m.phase.owned == multiset(owned)
    ensures Owing(m, owned) == m && Owing(m, []) == m.(phase := m.phase.(owned := multiset{}))
    ensures owned[0..] == owned && owned[..0] == [] && owned[|owned|..] == [] && owned[..|owned|] == owned
  {}

  lemma CloseStep(m: Monitor, i: nat, owned: seq<Entry>, k: nat)
    requires m.phase.Fading? && m.phase.i == i && MayClose(m.phase) && k < |owned|
    ensures Step(Owing(m, owned[k..]), Released(i, owned[k])) == Some(Owing(m, owned[k + 1..]))
    ensures Owing(m, owned[k..]).next == Owing(m, owned[k + 1..]).next
    ensures Releases(i, owned[..k + 1]) == Releases(i, owned[..k]) + [Released(i, owned[k])]
  {
    var f, en, left := Owing(m, owned[k..]).phase, owned[k], owned[k + 1..];
    assert owned[k..] == [en] + left;
    assert multiset([en] + left) == multiset{en} + multiset(left);
    assert f.owned - multiset{en} == multiset(left);
    assert en in f.owned;
    assert Release(f, en) == Owing(m, left).phase;
  }

  lemma NamedStep(entries: seq<Entry>, k: nat, window: nat, wanted: bool)
    requires k < |entries|
    ensures Named(entries[..k + 1], window, wanted) ==
            Named(entries[..k], window, wanted) + if (entries[k].window == window) == wanted then [entries[k]] else []
  {
    assert entries[..k + 1][..k] == entries[..k];
  }

  lemma NoReleases(i: nat)
    ensures Releases(i, []) == []
  {}

  lemma ReleasesLast(i: nat, entries: seq<Entry>, en: Entry)
    ensures Releases(i, entries + [en]) == Releases(i, entries) + [Released(i, en)]
  {}

  lemma NextLeft(entries: seq<Entry>, k: nat)
    requires k < |entries|
    ensures entries[k..] == [entries[k]] + entries[k + 1..]
  {}

  lemma NamedAll(entries: seq<Entry>, window: nat)
    ensures Named([], window, true) == [] == Named([], window, false)
    ensures entries[..|entries|] == entries && entries[..0] == []
    ensures entries[0..] == entries && entries[|entries|..] == []
  {}

  lemma OthersKept(entries: seq<Entry>, window: nat)
    ensures !Owns(multiset(Named(entries, window, false)), window)
  {}

  lemma ReportStep(m: Monitor, i: nat, cmd: Command, window: nat)
    requires m.phase.Fading? && m.phase.i == i && m.phase.cmd == cmd && cmd.Crossfade?
    requires m.phase.stage == Sweeping(window, true) && !Owns(m.phase.owned, window)
    ensures Step(m, TargetDropped(i, cmd.epoch, window)) == Some(m.(phase := m.phase.(stage := Polled)))
  {}

  lemma FlushStep(m: Monitor, i: nat)
    requires m.phase.Fading? && m.phase.i == i && MayDraw(m.phase) && m.phase.shown == m.phase.owned
    ensures Step(m, Flushed(i)) ==
            Some(m.(phase := m.phase.(drawn := m.phase.drawn + 1, shown := multiset{}, stage := Top)))
  {}

  lemma BeganStep(m: Monitor, i: nat, cmd: Command)
    requires m.phase == Holding(i, cmd) && cmd.Crossfade?
    ensures Step(m, Began(i)) ==
            Some(m.(phase := Fading(i, cmd, multiset(cmd.entries), 0, multiset{}, Top, None)))
  {}

  lemma UpdateStep(m: Monitor, i: nat, entries: seq<Entry>, k: nat, opacity: int)
    requires m.phase.Fading? && m.phase.i == i && k < |entries| && MayDraw(m.phase)
    requires m.phase.owned == multiset(entries) && m.phase.shown == multiset(entries[..k])
    requires opacity == Curves.CrossfadeOpacity(m.phase.drawn + 1, m.phase.cmd.frames)
    ensures Step(m, Updated(i, entries[k], opacity)) ==
            Some(m.(phase := m.phase.(shown := multiset(entries[..k + 1]), stage := Polled)))
    ensures MayDraw(m.phase.(shown := multiset(entries[..k + 1]), stage := Polled))
  {
    OneMoreShown(entries, k);
    hide Curves.CrossfadeOpacity, Owns;
  }

  lemma OneMoreShown(entries: seq<Entry>, k: nat)
    requires k < |entries|
    ensures multiset(entries[..k + 1]) == multiset(entries[..k]) + multiset{entries[k]}
    ensures multiset(entries[..k])[entries[k]] < multiset(entries)[entries[k]]
  {
    assert entries == entries[..k] + [entries[k]] + entries[k + 1..];
    assert entries[..k + 1] == entries[..k] + [entries[k]];
  }

  lemma CancelStep(m: Monitor, i: nat, cmd: Command, cancelled: bool)
    requires m.phase == Holding(i, cmd) && cmd.Frame?
    ensures Step(m, CancelRead(i, cancelled)) ==
            Some(m.(phase := Framing(i, cmd, if cancelled then Disowned else Uncancelled)))
  {}

  lemma DispatchStep(m: Monitor, i: nat, cmd: Command, dispatch: nat)
    requires m.phase == Framing(i, cmd, Uncancelled) && cmd.Frame?
    ensures Step(m, DispatchRead(i, dispatch)) ==
            Some(m.(phase := Framing(i, cmd, if dispatch == cmd.request then Newest else Disowned)))
  {}

  lemma MovedStep(m: Monitor, i: nat, cmd: Command)
    requires m.phase == Framing(i, cmd, Current) && cmd.Frame?
    ensures Step(m, Moved(i, cmd.request)) == Some(m.(phase := Framing(i, cmd, Placed)))
  {}

  lemma ReportedStep(m: Monitor, i: nat, cmd: Command, delivered: bool)
    requires (m.phase == Framing(i, cmd, Disowned) || m.phase == Framing(i, cmd, Placed)) && cmd.Frame?
    ensures Step(m, Reported(i, cmd.request, cmd.invalidation, delivered)) ==
            Some(m.(phase := if delivered then Idle else Leaving))
  {}

  lemma InvalidationStep(m: Monitor, i: nat, cmd: Command, value: nat)
    requires m.phase == Framing(i, cmd, Newest) && cmd.Frame?
    ensures Step(m, InvalidationRead(i, value)) ==
            Some(m.(phase := Framing(i, cmd, if value == cmd.invalidation then Current else Disowned)))
  {}

  lemma CountedIn(log: seq<Event>, i: nat, cmd: Command)
    requires Track(log).Some? && cmd.Crossfade? && log != [] && log[|log| - 1] == Completed(i, cmd.epoch)
    requires i < |Commands(log)| && Commands(log)[i] == cmd
    ensures Flushes(log, i) <= cmd.frames
    ensures Flushes(log, i) < cmd.frames <==> EndedEarly(log[..|log| - 1], i, cmd)
  {
    hide Track, Step, Commands, EndedEarly;
    FadesRun(log);
    assert RanItsCourse(log, |log| - 1);
    assert log[..|log| - 1] + [log[|log| - 1]] == log;
    FlushesExtend(log[..|log| - 1], log[|log| - 1], i);
  }

  lemma CommandsGrow(log: seq<Event>, e: Event)
    ensures Commands(log + [e]) == Commands(log) + if e.Taken? then [e.cmd] else []
  {
    assert (log + [e])[..|log|] == log;
  }

  lemma CommandsWithin(log: seq<Event>, later: seq<Event>)
    requires log <= later
    ensures Commands(log) <= Commands(later)
  {
    PrefixCommands(later, |log|);
    assert later[..|log|] == log;
  }

  /** The log is accepted through these states, and every read in it is true at its moment. */
  ghost predicate Kept(log: seq<Event>, trace: seq<Monitor>, history: seq<Shared>, when: seq<nat>) {
    Accepted(log, trace) && trace[|log|].next == |Commands(log)| && Witnessed(log, history, when)
  }

  lemma KeptGrows(log: seq<Event>, trace: seq<Monitor>, history: seq<Shared>, when: seq<nat>, e: Event)
    requires Kept(log, trace, history, when) && history != [] && |trace| == |log| + 1
    requires Step(trace[|log|], e).Some? && TrueOf(e, history[|history| - 1], trace[|log|].next)
    requires Step(trace[|log|], e).value.next == trace[|log|].next + if e.Taken? then 1 else 0
    ensures Kept(log + [e], trace + [Step(trace[|log|], e).value], history, when + [|history| - 1])
  {
    hide Step, Track, TrueOf, Witnessed;
    WitnessGrows(log, history, when, e);
    CommandsGrow(log, e);
    hide Commands;
    var log', trace' := log + [e], trace + [Step(trace[|log|], e).value];
    forall k | 0 <= k < |log'| ensures Step(trace'[k], log'[k]) == Some(trace'[k + 1]) {
      if k < |log| { assert Step(trace[k], log[k]) == Some(trace[k + 1]); }
    }
  }

  lemma KeptLater(log: seq<Event>, trace: seq<Monitor>, history: seq<Shared>, when: seq<nat>, s: Shared)
    requires Kept(log, trace, history, when) && history != [] && Evolves(history[|history| - 1], s)
    ensures Kept(log, trace, history + [s], when)
  {
    hide Witnessed, Accepted, Commands;
    HistoryGrows(log, history, when, s);
  }

  lemma NothingKept(s: Shared)
    ensures Kept([], [Monitor(0, Idle)], [s], [])
  {}

  class Worker {
    // Written by clients and by the main loop.
    var sent: seq<Command>
    var clientsGone: bool
    var cancelled: bool
    var dispatch: nat
    var invalidation: nat
    ghost var history: seq<Shared>  // all they ever were, up to now
    // Written by the worker only.
    var taken: nat
    var pending: Option<Command>
    var log: seq<Event>
    ghost var trace: seq<Monitor>   // the acceptor's states along `log`
    ghost var when: seq<nat>        // the moments in `history` of its events

    ghost function Now(): Shared
      reads this
    {
      Shared(sent, clientsGone, cancelled, dispatch, invalidation)
    }

    ghost predicate Valid() reads this {
      && |trace| == |log| + 1 && trace[|log|].next == taken <= |sent|
      && history != [] && history[|history| - 1] == Now() && Kept(log, trace, history, when)
    }

    ghost function State(): Monitor
      reads this
      requires Valid()
    {
      trace[|log|]
    }

    ghost function Phase(): WorkerProtocol.Phase
      reads this
      requires Valid()
    {
      State().phase
    }

    constructor ()
      ensures Valid() && Phase() == Idle && pending == None && log == []
    {
      sent, taken, pending, log := [], 0, None, [];
      clientsGone, cancelled, dispatch, invalidation := false, false, 0, 0;
      trace, when := [Monitor(0, Idle)], [];
      history := [Shared([], false, false, 0, 0)];
      new;
      hide Kept;
      NothingKept(Now());
    }

    /** At every moment the log is safe, every read in it is true of the shared state at its moment, and
        the worker has taken a prefix of what was sent. */
    lemma Explained()
      requires Valid()
      ensures Track(log) == Some(State()) && Safe(log) && Commands(log) == sent[..taken]
      ensures Consistent(Commands(log), State()) && Witnessed(log, history, when)
    {
      hide Safe, Step;
      AcceptedTracks(log, trace);
      AcceptedIsSafe(log);
      PhaseConsistent(log);
      TakenAreSent(log, history, when, |log|);
      assert log[..|log|] == log;
      if log != [] { assert Evolves(history[when[|log| - 1]], history[|history| - 1]); }
    }

    /** Anything other threads can do: queue commands, hang up, change the shared state. */
    method Interfere()
      requires Valid()
      modifies `sent, `clientsGone, `cancelled, `dispatch, `invalidation, `history
      ensures Valid() && old(sent) <= sent && |history| == |old(history)| + 1
      ensures forall t :: 0 <= t < |old(history)| ==> history[t] == old(history)[t]
      ensures old(clientsGone) ==> clientsGone && sent == old(sent)
    {
      hide Kept;
      ghost var before := Now();
      if !clientsGone {
        var more: seq<Command> := *;
        sent := sent + more;
        clientsGone := *;
      }
      cancelled := *;
      dispatch := *;
      invalidation := *;
      assert Evolves(before, Now());
      KeptLater(log, trace, history, when, Now());
      history := history + [Now()];
    }

    method Emit(e: Event)
      requires Valid() && !e.Taken? && Step(State(), e).Some? && Step(State(), e).value.next == taken
      requires TrueOf(e, Now(), taken)
      modifies `log, `trace, `when
      ensures Valid() && log == old(log) + [e] && State() == Step(old(State()), e).value
    {
      hide Step, TrueOf, Kept;
      KeptGrows(log, trace, history, when, e);
      Record(e);
    }

    /** Adds an event to the log; its moment is now. */
    method Record(e: Event)
      requires |trace| == |log| + 1 && history != [] && Step(trace[|log|], e).Some?
      modifies `log, `trace, `when
      ensures log == old(log) + [e] && trace == old(trace) + [Step(old(trace[|log|]), e).value]
      ensures when == old(when) + [|history| - 1]
    {
      trace := trace + [Step(trace[|log|], e).value];
      when := when + [|history| - 1];
      log := log + [e];
    }

    ghost predicate MayTake()
      reads this
      requires Valid()
    {
      Phase().Idle? || (Phase().Fading? && MayLook(Phase()))
    }

    method TryRecv() returns (r: Received)
      requires Valid() && MayTake()
      modifies `sent, `clientsGone, `cancelled, `dispatch, `invalidation, `history, `taken, `log, `trace, `when
      ensures Valid()
      ensures match r
              case Got(cmd) =>
                && taken == old(taken) + 1 && taken <= |sent| && cmd == sent[old(taken)]
                && log == old(log) + [Taken(old(taken), cmd)]
                && State() == Step(old(State()), Taken(old(taken), cmd)).value
              case _ =>
                && taken == old(taken) == |sent| && log == old(log) && State() == old(State())
                && r.Disconnected? == clientsGone
    {
      hide Kept;
      Interfere();
      if taken < |sent| {
        var cmd := sent[taken];
        KeptGrows(log, trace, history, when, Taken(taken, cmd));
        Record(Taken(taken, cmd));
        taken := taken + 1;
        return Got(cmd);
      }
      return if clientsGone then Disconnected else Empty;
    }

    /** Drops the entries of one window, in order; says whether there were any. */
    method DropTarget(i: nat, entries: seq<Entry>, window: nat) returns (rest: seq<Entry>, hit: bool)
      requires Valid() && Phase().Fading? && Phase().i == i && Phase().cmd.Crossfade?
      requires Phase().owned == multiset(entries) && Phase().stage == Sweeping(window, false)
      modifies `log, `trace, `when
      ensures Valid()
      ensures rest == Named(entries, window, false) && hit == (Named(entries, window, true) != [])
      ensures log == old(log) + Releases(i, Named(entries, window, true))
      ensures State() == old(State()).(phase := old(Phase()).(owned := multiset(rest), stage := Sweeping(window, hit)))
    {
      hide Kept, Step, Named, Releases, Owns, MayLook, MayDraw, MayClose, Sweep;
      rest, hit := [], false;
      ghost var start, gone := State(), [];
      var k := 0;
      NamedAll(entries, window);
      SweepFromStart(start, entries, window);
      assert Releases(i, []) == [] by { NoReleases(i); }
      while k < |entries|
        invariant 0 <= k <= |entries| && Valid()
        invariant rest == Named(entries[..k], window, false) && gone == Named(entries[..k], window, true)
        invariant hit == (gone != []) && log == old(log) + Releases(i, gone)
        invariant State() == Sweep(start, rest, entries[k..], window, hit)
      {
        var en := entries[k];
        NamedStep(entries, k, window, true);
        NamedStep(entries, k, window, false);
        NextLeft(entries, k);
        if en.window == window {
          SweepStep(start, i, rest, entries[k + 1..], en, hit);
          SweepFades(start, rest, entries[k + 1..], window, true);
          SweepFades(start, rest, entries[k..], window, hit);
          ReleasesLast(i, gone, en);
          Emit(Released(i, en));
          hit, gone := true, gone + [en];
        } else {
          SweepSkips(start, rest, entries[k + 1..], en, window, hit);
          rest := rest + [en];
        }
        k := k + 1;
      }
      SweepOver(start, rest, window, hit);
    }

    /** Carries out a drop meant for this fade and reports it if it released anything. */
    method CarryOut(i: nat, cmd: Command, entries: seq<Entry>, n: nat, window: nat) returns (rest: seq<Entry>)
      requires cmd.Crossfade? && n < cmd.frames && Running(i, cmd, entries, n, Sweeping(window, false))
      modifies `log, `trace, `when
      ensures rest == Named(entries, window, false) && log == old(log) + Dropped(i, cmd.epoch, entries, window)
      ensures Drawing(i, cmd, rest, n)
    {
      hide Kept, Step, Named, Owns, Releases;
      var hit;
      rest, hit := DropTarget(i, entries, window);
      OthersKept(entries, window);
      if hit {
        ReportStep(State(), i, cmd, window);
        Emit(TargetDropped(i, cmd.epoch, window));
      }
    }

    /** Redraws every remaining entry at the opacity of the iteration. */
    method UpdateAll(i: nat, entries: seq<Entry>, opacity: int)
      requires Valid() && Phase().Fading? && Phase().i == i && MayDraw(Phase())
      requires Phase().owned == multiset(entries) && Phase().shown == multiset{}
      requires opacity == Curves.CrossfadeOpacity(Phase().drawn + 1, Phase().cmd.frames)
      modifies `log, `trace, `when
      ensures Valid() && log == old(log) + Redraws(i, entries, opacity)
      ensures State() == old(State()).(phase := old(Phase()).(
                shown := multiset(entries), stage := if entries == [] then old(Phase()).stage else Polled))
    {
      hide Kept, Curves.CrossfadeOpacity, Step, MayDraw;
      assert entries[..0] == [];
      var k := 0;
      while k < |entries|
        invariant 0 <= k <= |entries| && Valid() && log == old(log) + Redraws(i, entries[..k], opacity)
        invariant State() == old(State()).(phase := old(Phase()).(
                    shown := multiset(entries[..k]), stage := if k == 0 then old(Phase()).stage else Polled))
        invariant MayDraw(Phase())
      {
        UpdateStep(State(), i, entries, k, opacity);
        assert Redraws(i, entries[..k + 1], opacity) ==
               Redraws(i, entries[..k], opacity) + [Updated(i, entries[k], opacity)];
        Emit(Updated(i, entries[k], opacity));
        k := k + 1;
      }
      assert entries[..k] == entries;
    }

    /** Drops whatever the fade still owns, in order. */
    method DropAll(i: nat, owned: seq<Entry>)
      requires Valid() && Phase().Fading? && Phase().i == i && MayClose(Phase())
      requires Phase().owned == multiset(owned)
      modifies `log, `trace, `when
      ensures Valid() && log == old(log) + Releases(i, owned)
      ensures State() == old(State()).(phase := old(Phase()).(owned := multiset{}))
    {
      hide Kept, Step, Owing, Releases, MayClose;
      ghost var start := State();
      OwingEnds(start, owned);
      NoReleases(i);
      var k := 0;
      while k < |owned|
        invariant 0 <= k <= |owned| && Valid() && log == old(log) + Releases(i, owned[..k])
        invariant State() == Owing(start, owned[k..])
      {
        CloseStep(start, i, owned, k);
        Emit(Released(i, owned[k]));
        k := k + 1;
      }
    }

    /** How many commands have left the channel and the buffer. */
    ghost function Handled(): int
      reads this
    {
      taken - if pending.Some? then 1 else 0
    }

    /** Between two commands: nothing is half done, and a preempting command waits in `pending`. */
    ghost predicate Ready()
      reads this
    {
      && Valid()
      && (if pending.Some? then 0 < taken && Phase() == Holding(taken - 1, pending.value) else Phase() == Idle)
    }

    /** Fade `i` has drawn `n` iterations, owns exactly `entries`, and is at `stage`. */
    ghost predicate Running(i: nat, cmd: Command, entries: seq<Entry>, n: nat, stage: Stage)
      reads this
    {
      && Valid() && cmd.Crossfade? && pending == None
      && Phase() == Fading(i, cmd, multiset(entries), n, multiset{}, stage, None)
    }

    /** The same, and about to draw. */
    ghost predicate Drawing(i: nat, cmd: Command, entries: seq<Entry>, n: nat)
      reads this
    {
      && Valid() && cmd.Crossfade? && pending == None
      && Phase().Fading? && MayDraw(Phase())
      && Phase() == Fading(i, cmd, multiset(entries), n, multiset{}, Phase().stage, None)
    }

    /** Fade `i` has drawn for the last time and still owns exactly `entries`. */
    ghost predicate Ending(i: nat, cmd: Command, entries: seq<Entry>)
      reads this
    {
      && Valid() && cmd.Crossfade? && Phase().Fading? && Phase().i == i && Phase().cmd == cmd
      && MayClose(Phase()) && Phase().owned == multiset(entries) && Phase().stash == pending
      && (pending.Some? ==> 0 < taken)
    }

    /** Reads the fade's token, if it has one. */
    method ReadToken(i: nat, cmd: Command, entries: seq<Entry>, n: nat) returns (good: bool, ghost token: nat)
      requires cmd.Crossfade? && n < cmd.frames && Running(i, cmd, entries, n, Top)
      modifies this
      ensures token == invalidation && good == TokenGood(cmd, token) && log == old(log) + Reads(i, cmd, token)
      ensures taken == old(taken)
      ensures Running(i, cmd, entries, n, if cmd.expected.None? then Top else if good then Fresh else Closing)
    {
      hide Kept;
      Interfere();
      token := invalidation;
      if cmd.expected.None? {
        return true, token;
      }
      Emit(TokenRead(i, invalidation));
      good := invalidation == cmd.expected.value;
    }

    /** Looks for a command between two iterations, and says whether the fade goes on. */
    method Poll(i: nat, cmd: Command, entries: seq<Entry>, n: nat)
      returns (rest: seq<Entry>, go: bool, ghost r: Received)
      requires cmd.Crossfade? && n < cmd.frames
      requires Running(i, cmd, entries, n, if cmd.expected.None? then Top else Fresh)
      modifies this
      ensures go == GoesOn(cmd, r) && rest == Left(cmd, entries, r)
      ensures log == old(log) + Polls(i, cmd, old(taken), entries, r)
      ensures r.Got? ==> taken == old(taken) + 1 && taken <= |sent| && r.cmd == sent[old(taken)]
      ensures !r.Got? ==> taken == old(taken) == |sent| && r.Disconnected? == clientsGone
      ensures pending == if r.Got? && !FadeOnly(r.cmd) then Some(r.cmd) else None
      ensures if go then Drawing(i, cmd, rest, n) else Ending(i, cmd, rest)
    {
      hide Kept, Named, Dropped;
      rest := entries;
      var received := TryRecv();
      r := received;
      match received {
        case Got(DropCrossfadeTarget(epoch, window)) =>
          if epoch == cmd.epoch {
            rest := CarryOut(i, cmd, entries, n, window);
          }
          go := true;
        case Got(AbortCrossfade(epoch)) =>
          go := epoch != cmd.epoch;
        case Got(other) =>
          pending := Some(other);
          go := false;
        case Empty =>
          Emit(FoundEmpty(i));
          go := true;
        case Disconnected =>
          Emit(HungUp(i));
          go := false;
      }
    }

    /** One iteration of the fade, the `n`-th from 0: token, channel, redraw. */
    method Iterate(i: nat, cmd: Command, entries: seq<Entry>, n: nat)
      returns (rest: seq<Entry>, go: bool, ghost token: nat, ghost r: Received)
      requires cmd.Crossfade? && n < cmd.frames && Running(i, cmd, entries, n, Top)
      modifies this
      ensures go == (TokenGood(cmd, token) && GoesOn(cmd, r))
      ensures rest == if TokenGood(cmd, token) then Left(cmd, entries, r) else entries
      ensures log == old(log) + Iteration(i, cmd, old(taken), entries, n, token, r)
      ensures old(taken) <= Handled()
      ensures if go then Running(i, cmd, rest, n + 1, Top) else Ending(i, cmd, rest)
    {
      hide Kept, Step, Polls, Reads, Redraws, Left, Curves.CrossfadeOpacity;
      var good;
      good, token := ReadToken(i, cmd, entries, n);
      if !good {
        return entries, false, token, Empty;
      }
      rest, go, r := Poll(i, cmd, entries, n);
      if go {
        UpdateAll(i, rest, Curves.CrossfadeOpacity(n + 1, cmd.frames));
        FlushStep(State(), i);
        Emit(Flushed(i));
      }
    }

    /** Runs the fade, command number `i`. A command other than a drop or an abort preempts
        it and is left in `pending`. All iterations are drawn unless the fade was told to end. */
    method RunCrossfade(i: nat, cmd: Command)
      requires Valid() && cmd.Crossfade? && Phase() == Holding(i, cmd) && pending == None
      modifies this
      ensures Ready() && old(taken) <= Handled() && old(log) <= log
      ensures log != [] && log[|log| - 1] == Completed(i, cmd.epoch)
      ensures Flushes(log, i) <= cmd.frames
      ensures Flushes(log, i) < cmd.frames <==> EndedEarly(log[..|log| - 1], i, cmd)
    {
      hide Kept, Step, Flushes, EndedEarly, Commands;
      HeldCommand(i, cmd);
      BeganStep(State(), i, cmd);
      ghost var before := log;
      Emit(Began(i));
      var entries := IterateAll(i, cmd);
      FinishFade(i, cmd, entries);
      CommandsWithin(before, log);
      Counted(i, cmd);
    }

    /** The iterations of a fade, until all are drawn or it is told to end. */
    method IterateAll(i: nat, cmd: Command) returns (entries: seq<Entry>)
      requires cmd.Crossfade? && Running(i, cmd, cmd.entries, 0, Top)
      modifies this
      ensures Ending(i, cmd, entries) && old(taken) <= Handled() && old(log) <= log
    {
      hide Kept, Step, Reads, Polls, Redraws, Iteration;
      entries := cmd.entries;
      var going, n := true, 0;
      while going && n < cmd.frames
        invariant n <= cmd.frames && old(taken) <= Handled() && old(log) <= log
        invariant going ==> Running(i, cmd, entries, n, Top)
        invariant !going ==> Ending(i, cmd, entries)
        decreases cmd.frames - n
      {
        ghost var token: nat, received: Received;
        entries, going, token, received := Iterate(i, cmd, entries, n);
        n := n + 1;
      }
    }

    lemma HeldCommand(i: nat, cmd: Command)
      requires Valid() && Phase() == Holding(i, cmd)
      ensures i < |Commands(log)| && Commands(log)[i] == cmd
    {
      hide Safe, Kept, Witnessed;
      Explained();
    }

    /** The last completed fade drew all its iterations unless it was told to end early. */
    lemma Counted(i: nat, cmd: Command)
      requires Valid() && cmd.Crossfade? && log != [] && log[|log| - 1] == Completed(i, cmd.epoch)
      requires i < |Commands(log)| && Commands(log)[i] == cmd
      ensures Flushes(log, i) <= cmd.frames
      ensures Flushes(log, i) < cmd.frames <==> EndedEarly(log[..|log| - 1], i, cmd)
    {
      AcceptedTracks(log, trace);
      CountedIn(log, i, cmd);
    }

    /** Drops what is left, then announces completion. */
    method FinishFade(i: nat, cmd: Command, entries: seq<Entry>)
      requires Ending(i, cmd, entries)
      modifies `log, `trace, `when
      ensures Ready() && log == old(log) + Releases(i, entries) + [Completed(i, cmd.epoch)]
    {
      hide Kept;
      DropAll(i, entries);
      Emit(Completed(i, cmd.epoch));
    }

    /** One animation frame: it reads its flag and counters one after the other until one disowns it, moves
        windows exactly if none does, and reports. The moments of the reads lie within the call. Says
        whether the report could be delivered. */
    method RunFrame(i: nat, cmd: Command) returns (delivered: bool, ghost t: nat, ghost u: nat, ghost v: nat)
      requires Valid() && cmd.Frame? && Phase() == Holding(i, cmd)
      modifies `sent, `clientsGone, `cancelled, `dispatch, `invalidation, `history, `log, `trace, `when
      ensures Valid() && Phase() == if delivered then Idle else Leaving
      ensures |old(history)| <= t <= u <= v < |history|
      ensures log == old(log) + Asks(i, cmd, history[t], history[u], history[v]) +
                     (if Agrees(cmd, history[t], history[u], history[v]) then [Moved(i, cmd.request)] else []) +
                     [Reported(i, cmd.request, cmd.invalidation, delivered)]
    {
      hide Kept, Step, Asks, Agrees;
      var agrees;
      agrees, t, u, v := AskFrame(i, cmd);
      if agrees {
        MovedStep(State(), i, cmd);
        Emit(Moved(i, cmd.request));
      }
      Interfere();
      delivered := *;
      ReportedStep(State(), i, cmd, delivered);
      Emit(Reported(i, cmd.request, cmd.invalidation, delivered));
    }

    /** The reads of a frame, each at its own moment; says whether all agree with it. */
    method AskFrame(i: nat, cmd: Command) returns (agrees: bool, ghost t: nat, ghost u: nat, ghost v: nat)
      requires Valid() && cmd.Frame? && Phase() == Holding(i, cmd)
      modifies `sent, `clientsGone, `cancelled, `dispatch, `invalidation, `history, `log, `trace, `when
      ensures Valid() && Phase() == Framing(i, cmd, if agrees then Current else Disowned)
      ensures |old(history)| <= t <= u <= v < |history|
      ensures log == old(log) + Asks(i, cmd, history[t], history[u], history[v])
      ensures agrees == Agrees(cmd, history[t], history[u], history[v])
    {
      hide Kept, Step;
      Interfere();
      t := |history| - 1;
      u, v := t, t;
      CancelStep(State(), i, cmd, cancelled);
      Emit(CancelRead(i, cancelled));
      agrees := false;
      if !cancelled {
        agrees, u, v := AskCounters(i, cmd);
      }
    }

    /** The reads of the two counters, the second only if the first agrees. */
    method AskCounters(i: nat, cmd: Command) returns (agrees: bool, ghost u: nat, ghost v: nat)
      requires Valid() && cmd.Frame? && Phase() == Framing(i, cmd, Uncancelled)
      modifies `sent, `clientsGone, `cancelled, `dispatch, `invalidation, `history, `log, `trace, `when
      ensures Valid() && Phase() == Framing(i, cmd, if agrees then Current else Disowned)
      ensures |old(history)| <= u <= v < |history|
      ensures forall t :: 0 <= t < |old(history)| ==> history[t] == old(history)[t]
      ensures log == old(log) + [DispatchRead(i, history[u].dispatch)] +
                     if history[u].dispatch != cmd.request then []
                     else [InvalidationRead(i, history[v].invalidation)]
      ensures agrees == (history[u].dispatch == cmd.request && history[v].invalidation == cmd.invalidation)
    {
      hide Kept, Step;
      Interfere();
      u := |history| - 1;
      v := u;
      DispatchStep(State(), i, cmd, dispatch);
      Emit(DispatchRead(i, dispatch));
      agrees := false;
      if dispatch == cmd.request {
        Interfere();
        v := |history| - 1;
        InvalidationStep(State(), i, cmd, invalidation);
        Emit(InvalidationRead(i, invalidation));
        agrees := invalidation == cmd.invalidation;
      }
    }

    /** Executes command number `i`; says whether the loop goes on. It does unless told to shut down or a
        frame's report could not be delivered. */
    method Execute(i: nat, cmd: Command) returns (go: bool)
      requires Valid() && pending == None && Phase() == Holding(i, cmd)
      modifies this
      ensures Valid() && old(log) <= log
      ensures old(taken) <= Handled()
      ensures if go then Ready() else Phase() == Gone && pending == None
      ensures cmd.Shutdown? ==> !go
      ensures !go && !cmd.Shutdown? ==>
                cmd.Frame? && |log| >= 2 && log[|log| - 2] == Reported(i, cmd.request, cmd.invalidation, false)
      ensures Simple(cmd) ==> log == old(log) + [Done(i, cmd)]
    {
      hide Kept;
      go := true;
      match cmd {
        case Shutdown =>
          Emit(Exited);
          go := false;
        case ClearCache =>
          Emit(Cleared(i));
        case Barrier =>
          Emit(Acknowledged(i));
        case Crossfade(_, _, _, _) =>
          RunCrossfade(i, cmd);
        case AbortCrossfade(_) =>
          Emit(Ignored(i));
        case DropCrossfadeTarget(_, _) =>
          Emit(Ignored(i));
        case Frame(_, _) =>
          ghost var t, u, v;
          go, t, u, v := RunFrame(i, cmd);
          if !go { Emit(Exited); }
      }
    }

    /** The next command of the outer loop: the one in the buffer, else the oldest in the channel. */
    method Receive() returns (r: Received)
      requires Ready()
      modifies this
      ensures Valid() && pending == None && old(log) <= log
      ensures match r
              case Got(cmd) => 0 < taken && Phase() == Holding(taken - 1, cmd) && Handled() == old(Handled()) + 1
              case _ => Phase() == Idle && taken == |sent| && r.Disconnected? == clientsGone && log == old(log)
      ensures old(pending).Some? ==> r == Got(old(pending).value) && log == old(log)
    {
      hide Kept;
      if pending.Some? {
        r := Got(pending.value);
        pending := None;
      } else {
        r := TryRecv();
      }
    }

    /** Leaves the outer loop: every client is gone. */
    method Depart()
      requires Ready() && pending == None && taken == |sent| && clientsGone
      modifies `log, `trace, `when
      ensures Valid() && Phase() == Gone && log == old(log) + [ChannelClosed, Exited]
    {
      hide Kept;
      Emit(ChannelClosed);
      Emit(Exited);
    }

    /** Runs `commands` commands of the outer loop, unless the worker exits or nothing is queued;
        every finite run of the worker is a run of this method. */
    method WorkerLoop(commands: nat)
      requires Ready()
      modifies this
      ensures Valid() && Safe(log) && old(log) <= log
      ensures Ready() || (Phase() == Gone && pending == None)
      ensures Phase() == Gone || (pending == None && taken == |sent|) || old(Handled()) + commands <= Handled()
    {
      hide Kept, Safe, Track, Consistent, Witnessed, Step, Simple, Done;
      var left, go := commands, true;
      while go && left > 0
        invariant Valid() && old(log) <= log && left <= commands
        invariant Ready() || (!go && Phase() == Gone && pending == None)
        invariant go ==> Ready() && old(Handled()) + commands - left <= Handled()
        invariant !go ==> Phase() == Gone || (pending == None && taken == |sent|)
        decreases left, go
      {
        var r := Receive();
        match r {
          case Got(cmd) =>
            go := Execute(taken - 1, cmd);
          case Disconnected =>
            Depart();
            go := false;
          case Empty =>
            go := false;
        }
        left := left - 1;
      }
      Explained();
    }
  }
}
