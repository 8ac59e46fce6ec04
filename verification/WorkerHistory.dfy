/** What the worker reads is what other threads wrote: each event of its log is tied to a moment of
    the history of the state they share. */
module WorkerHistory {
  import opened Prelude
  import opened WorkerProtocol
  import opened WorkerSafety

  /** Everything queued so far, whether every client has hung up, and the counters, at one moment. */
  datatype Shared = Shared(sent: seq<Command>, clientsGone: bool, cancelled: bool, dispatch: nat, invalidation: nat)

  /** An event that reads the shared state tells the truth about it; `taken` commands were received
      before. */
  predicate TrueOf(e: Event, s: Shared, taken: nat) {
    match e
    case Taken(i, cmd) => i == taken < |s.sent| && s.sent[i] == cmd
    case FoundEmpty(_) => taken == |s.sent| && !s.clientsGone
    case HungUp(_) => taken == |s.sent| && s.clientsGone
    case ChannelClosed => taken == |s.sent| && s.clientsGone
    case TokenRead(_, value) => value == s.invalidation
    case CancelRead(_, cancelled) => cancelled == s.cancelled
    case DispatchRead(_, dispatch) => dispatch == s.dispatch
    case InvalidationRead(_, value) => value == s.invalidation
    case _ => true
  }

  /** What other threads can do to the shared state: queue commands until they hang up, and write the
      counters as they please. */
  predicate Evolves(s: Shared, s': Shared) {
    s.sent <= s'.sent && (s.clientsGone ==> s'.clientsGone && s'.sent == s.sent)
  }

  /** The log is the worker's, along this history: event `p` happened at moment `when[p]`. */
  ghost predicate Witnessed(log: seq<Event>, history: seq<Shared>, when: seq<nat>) {
    && |when| == |log| && (forall p :: 0 <= p < |log| ==> when[p] < |history|)
    && (forall p, q :: 0 <= p <= q < |log| ==> when[p] <= when[q])
    && (forall t, u :: 0 <= t <= u < |history| ==> Evolves(history[t], history[u]))
    && (forall p {:trigger when[p]} :: 0 <= p < |log| ==> TrueOf(log[p], history[when[p]], |Commands(log[..p])|))
  }

  lemma WitnessGrows(log: seq<Event>, history: seq<Shared>, when: seq<nat>, e: Event)
    requires Witnessed(log, history, when) && history != []
    requires TrueOf(e, history[|history| - 1], |Commands(log)|)
    ensures Witnessed(log + [e], history, when + [|history| - 1])
  {
    hide TrueOf, Evolves, Commands;
    var log', when' := log + [e], when + [|history| - 1];
    forall p | 0 <= p < |log'| ensures TrueOf(log'[p], history[when'[p]], |Commands(log'[..p])|) {
      assert log'[..p] == log[..p];
      if p == |log| { assert log[..p] == log; }
    }
  }

  lemma HistoryGrows(log: seq<Event>, history: seq<Shared>, when: seq<nat>, s: Shared)
    requires Witnessed(log, history, when) && history != [] && Evolves(history[|history| - 1], s)
    ensures Witnessed(log, history + [s], when)
  {
    hide TrueOf;
    var history' := history + [s];
    forall t, u | 0 <= t <= u < |history'| ensures Evolves(history'[t], history'[u]) {
      assert Evolves(history[if t < |history| then t else |history| - 1], history[|history| - 1]);
    }
  }

  // ------------------------------------------------------------------- frames

  /** A read of the shared state `s` that disowns frame `cmd`. */
  predicate Objects(e: Event, s: Shared, cmd: Command)
    requires cmd.Frame?
  {
    || (e.CancelRead? && s.cancelled)
    || (e.DispatchRead? && s.dispatch != cmd.request)
    || (e.InvalidationRead? && s.invalidation != cmd.invalidation)
  }

  /** Before event `q` the frame read the shutdown flag, the dispatched request and the invalidation
      counter, in this order, and at those moments each of them was as the frame needs it. */
  ghost predicate AgreedThen(log: seq<Event>, history: seq<Shared>, when: seq<nat>, q: nat, cmd: Command)
    requires cmd.Frame? && |when| == |log| && forall p :: 0 <= p < |log| ==> when[p] < |history|
  {
    && 3 <= q < |log| && log[q - 3].CancelRead? && log[q - 2].DispatchRead? && log[q - 1].InvalidationRead?
    && !history[when[q - 3]].cancelled && history[when[q - 2]].dispatch == cmd.request
    && history[when[q - 1]].invalidation == cmd.invalidation
  }

  /** A frame moves windows only when the shared state agreed with it at the moments it read it. */
  lemma MovedWhenCurrent(log: seq<Event>, history: seq<Shared>, when: seq<nat>, q: nat)
    requires Track(log).Some? && Witnessed(log, history, when) && q < |log| && log[q].Moved?
    ensures log[q].i < |Commands(log)| && Commands(log)[log[q].i].Frame?
    ensures AgreedThen(log, history, when, q, Commands(log)[log[q].i])
    ensures log[q].request == Commands(log)[log[q].i].request
  {
    hide Step, Track, Commands;
    FramesAreHonest(log);
    assert FrameHonest(Commands(log), log, q);
    AgreedReads(log, q, log[q].i, Commands(log)[log[q].i]);
    hide Agreed;
    assert TrueOf(log[q - 3], history[when[q - 3]], |Commands(log[..q - 3])|);
    assert TrueOf(log[q - 2], history[when[q - 2]], |Commands(log[..q - 2])|);
    assert TrueOf(log[q - 1], history[when[q - 1]], |Commands(log[..q - 1])|);
  }

  lemma AgreedReads(log: seq<Event>, q: nat, i: nat, cmd: Command)
    requires cmd.Frame? && Agreed(log, q, 3, i, cmd)
    ensures log[q - 3] == CancelRead(i, false) && log[q - 2] == DispatchRead(i, cmd.request)
    ensures log[q - 1] == InvalidationRead(i, cmd.invalidation)
  {
    var r := Agreeing(i, cmd);
    assert log[q - 3] == r[0] && log[q - 2] == r[1] && log[q - 1] == r[2];
  }

  /** A frame that reports moved its windows exactly when none of what it read disagreed with it: else
      its last read did, at its moment. */
  lemma ReportedExactly(log: seq<Event>, history: seq<Shared>, when: seq<nat>, q: nat)
    requires Track(log).Some? && Witnessed(log, history, when) && q < |log| && log[q].Reported?
    ensures log[q].i < |Commands(log)| && Commands(log)[log[q].i] == Frame(log[q].request, log[q].invalidation)
    ensures 1 <= q
    ensures if log[q - 1] == Moved(log[q].i, log[q].request)
            then AgreedThen(log, history, when, q - 1, Commands(log)[log[q].i])
            else Objects(log[q - 1], history[when[q - 1]], Commands(log)[log[q].i]) && log[q - 1].i == log[q].i
  {
    hide Step, Track, Commands;
    FramesAreHonest(log);
    assert FrameHonest(Commands(log), log, q);
    assert TrueOf(log[q - 1], history[when[q - 1]], |Commands(log[..q - 1])|);
    if log[q - 1] == Moved(log[q].i, log[q].request) { MovedWhenCurrent(log, history, when, q - 1); }
  }

  /** The shared state agreed with frame `cmd` when it read the flag, the request and the counter. */
  predicate Agrees(cmd: Command, atFlag: Shared, atRequest: Shared, atCounter: Shared)
    requires cmd.Frame?
  {
    !atFlag.cancelled && atRequest.dispatch == cmd.request && atCounter.invalidation == cmd.invalidation
  }

  /** The reads of frame `cmd`, number `i`: they stop at the first disagreement. */
  function Asks(i: nat, cmd: Command, atFlag: Shared, atRequest: Shared, atCounter: Shared): seq<Event>
    requires cmd.Frame?
  {
    [CancelRead(i, atFlag.cancelled)] +
    (if atFlag.cancelled then [] else [DispatchRead(i, atRequest.dispatch)]) +
    if atFlag.cancelled || atRequest.dispatch != cmd.request then [] else [InvalidationRead(i, atCounter.invalidation)]
  }

  /** The counter of dispatched requests never falls. */
  ghost predicate DispatchGrows(history: seq<Shared>) {
    forall t, u :: 0 <= t <= u < |history| ==> history[t].dispatch <= history[u].dispatch
  }

  /** When the shared dispatch counter only grows, windows never move back to an older request. */
  lemma MovedRequestsGrow(log: seq<Event>, history: seq<Shared>, when: seq<nat>, p: nat, q: nat)
    requires Track(log).Some? && Witnessed(log, history, when) && DispatchGrows(history)
    requires p < q < |log| && log[p].Moved? && log[q].Moved?
    ensures log[p].request <= log[q].request
  {
    MovedWhenCurrent(log, history, when, p);
    MovedWhenCurrent(log, history, when, q);
    assert when[p - 2] <= when[q - 2];
  }

  // ------------------------------------------------------------ fades and exits

  /** Event `p` is a real reason to end fade `cmd`, number `i`, early: a matching abort or a command for
      the outer loop is next in the queue, the fade's token has changed, or the clients are gone and
      have left nothing behind. */
  ghost predicate Reason(log: seq<Event>, history: seq<Shared>, when: seq<nat>, p: nat, i: nat, cmd: Command)
    requires cmd.Crossfade? && |when| == |log| && forall k :: 0 <= k < |log| ==> when[k] < |history|
  {
    && p < |log| && DuringFade(log, p, i)
    && var s, taken := history[when[p]], |Commands(log[..p])|;
       || (taken < |s.sent| && (s.sent[taken] == AbortCrossfade(cmd.epoch) || !FadeOnly(s.sent[taken])))
       || (cmd.expected.Some? && s.invalidation != cmd.expected.value)
       || (s.clientsGone && taken == |s.sent|)
  }

  /** A fade that completes without having drawn all its iterations had a real reason to. */
  lemma EarlyEndsHaveReasons(log: seq<Event>, history: seq<Shared>, when: seq<nat>, q: nat) returns (p: nat)
    requires Track(log).Some? && Witnessed(log, history, when) && q < |log| && log[q].Completed?
    ensures log[q].i < |Commands(log)| && Commands(log)[log[q].i].Crossfade?
    ensures Flushes(log[..q], log[q].i) < Commands(log)[log[q].i].frames ==>
              p < q && Reason(log, history, when, p, log[q].i, Commands(log)[log[q].i])
  {
    FadesRun(log);
    assert RanItsCourse(log, q);
    var i, cmd, before := log[q].i, Commands(log)[log[q].i], log[..q];
    p := 0;
    if Flushes(before, i) < cmd.frames {
      p :| 0 <= p < |before| && DuringFade(before, p, i) && Ends(cmd, i, before[p]);
      DuringPrefix(log, q, p, i);
      assert TrueOf(log[p], history[when[p]], |Commands(log[..p])|);
      if log[p].TokenRead? { TokenExpected(log, p); }
    }
  }

  /** Only fades that have a token read it. */
  lemma TokenExpected(log: seq<Event>, p: nat)
    requires Track(log).Some? && p < |log| && log[p].TokenRead?
    ensures log[p].i < |Commands(log)| && Commands(log)[log[p].i].Crossfade? && Commands(log)[log[p].i].expected.Some?
  {
    FadingWhen(log, p);
  }

  lemma {:induction false} TakenAreSent(log: seq<Event>, history: seq<Shared>, when: seq<nat>, n: nat)
    requires Witnessed(log, history, when) && n <= |log|
    ensures n > 0 ==> Commands(log[..n]) <= history[when[n - 1]].sent
  {
    if n > 0 {
      var front := log[..n - 1];
      TakenAreSent(log, history, when, n - 1);
      assert log[..n][..n - 1] == front;
      assert TrueOf(log[n - 1], history[when[n - 1]], |Commands(front)|);
      if n > 1 { assert Evolves(history[when[n - 2]], history[when[n - 1]]); }
      assert front == [] ==> Commands(front) == [];
    }
  }

  /** A worker that exits was told to shut down, could not deliver a report, or found every client gone;
      and in that case every command ever sent had been taken and dealt with in full. */
  lemma ExitsHaveReasons(log: seq<Event>, history: seq<Shared>, when: seq<nat>, q: nat)
    requires Track(log).Some? && Witnessed(log, history, when) && q < |log| && log[q].Exited?
    ensures
      var cmds := Commands(log[..q]);
      || (cmds != [] && cmds[|cmds| - 1] == Shutdown)
      || (1 <= q && log[q - 1].Reported? && !log[q - 1].delivered)
      || (&& 1 <= q && history[when[q - 1]].clientsGone && history[|history| - 1].sent == cmds
          && forall k :: 0 <= k < |cmds| ==> Concluded(log[..q], k))
  {
    hide Step, Track, Concluded, InHand, Witnessed, Commands;
    ExitReason(log, q);
    if 1 <= q && log[q - 1].ChannelClosed? { ClosedLeavesNothing(log, history, when, q); }
  }

  lemma ExitReason(log: seq<Event>, q: nat)
    requires Track(log).Some? && q < |log| && log[q].Exited?
    ensures
      var cmds := Commands(log[..q]);
      || (cmds != [] && cmds[|cmds| - 1] == Shutdown)
      || (1 <= q && log[q - 1].Reported? && !log[q - 1].delivered)
      || (1 <= q && log[q - 1].ChannelClosed?)
  {
    hide Step, Track, Commands;
    ExitsAreExplained(log);
  }

  lemma ClosedLeavesNothing(log: seq<Event>, history: seq<Shared>, when: seq<nat>, q: nat)
    requires Track(log).Some? && Witnessed(log, history, when) && 1 <= q <= |log| && log[q - 1].ChannelClosed?
    ensures history[when[q - 1]].clientsGone && history[|history| - 1].sent == Commands(log[..q])
    ensures forall k :: 0 <= k < |Commands(log[..q])| ==> Concluded(log[..q], k)
  {
    hide Step, Track, Concluded, InHand;
    ClosedTakesAll(log, history, when, q);
    LeftAlone(log, q);
    hide Commands, Witnessed;
    forall k | 0 <= k < |Commands(log[..q])| ensures Concluded(log[..q], k) { NothingLost(log[..q], k); }
  }

  /** A channel is found closed once every command ever sent was taken. */
  lemma ClosedTakesAll(log: seq<Event>, history: seq<Shared>, when: seq<nat>, q: nat)
    requires Witnessed(log, history, when) && 1 <= q <= |log| && log[q - 1].ChannelClosed?
    ensures history[when[q - 1]].clientsGone && history[|history| - 1].sent == Commands(log[..q])
  {
    TakenAreSent(log, history, when, q);
    assert TrueOf(log[q - 1], history[when[q - 1]], |Commands(log[..q - 1])|);
    assert Evolves(history[when[q - 1]], history[|history| - 1]);
    assert log[..q][..q - 1] == log[..q - 1];
  }

  /** Nothing is in hand once the channel is found closed. */
  lemma LeftAlone(log: seq<Event>, q: nat)
    requires Track(log).Some? && 1 <= q <= |log| && log[q - 1].ChannelClosed?
    ensures Track(log[..q]).Some? && forall k :: !InHand(Track(log[..q]).value, k)
  {
    LeavingBefore(log, q);
  }
}
