/** Safety of the animation worker over every accepted log: order, ownership, barriers and
    frame staleness. */
module WorkerSafety {
  import opened Prelude
  import opened WorkerProtocol
  import Curves = Animation

  // ------------------------------------------------------------------- order

  predicate Active(m: Monitor) { m.phase.Fading? || m.phase.Framing? }

  lemma StepBound(cmds: seq<Command>, m: Monitor, e: Event)
    requires Consistent(cmds, m) && Step(m, e).Some?
    ensures
      var m' := Step(m, e).value;
      && Bound(m) <= Bound(m')
      && (Active(m) ==> Active(m') || Bound(m) < Bound(m'))
      && (Effect(e) ==>
            && Bound(m) <= e.i <= Bound(m')
            && (e.i == Bound(m') ==> Active(m'))
            && (Start(e) ==> e.i == Bound(m) && !Active(m))
            && (Finish(e) ==> e.i < Bound(m')))
  {
    hide Curves.CrossfadeOpacity;
    match e
    case Taken(_, _) =>
    case _ =>
  }

  ghost predicate Ordered(log: seq<Event>, m: Monitor) {
    forall p :: 0 <= p < |log| && Effect(log[p]) ==>
      && log[p].i <= Bound(m)
      && (log[p].i == Bound(m) ==> Active(m))
      && (Finish(log[p]) ==> log[p].i < Bound(m))
  }

  lemma {:induction false} EffectsBounded(log: seq<Event>)
    requires Track(log).Some?
    ensures Ordered(log, Track(log).value)
  {
    if log != [] {
      var front, e := log[..|log| - 1], log[|log| - 1];
      EffectsBounded(front);
      PhaseConsistent(front);
      var m := Track(front).value;
      StepBound(Commands(front), m, e);
      var m' := Step(m, e).value;
      forall p | 0 <= p < |log| && Effect(log[p])
        ensures log[p].i <= Bound(m')
        ensures log[p].i == Bound(m') ==> Active(m')
        ensures Finish(log[p]) ==> log[p].i < Bound(m')
      {
        if p < |front| { assert log[p] == front[p]; }
      }
    }
  }

  /** Effects happen in send order; a started command has no earlier effect and a finished
      one no later. So a fade or frame starts once, finishes at most once, and a completed
      fade touches nothing more. */
  ghost predicate InSendOrder(log: seq<Event>) {
    forall p, q :: 0 <= p < q < |log| && Effect(log[p]) && Effect(log[q]) ==>
      && log[p].i <= log[q].i
      && (Finish(log[p]) || Start(log[q]) ==> log[p].i < log[q].i)
  }

  lemma OrderExtends(front: seq<Event>, e: Event, bound: nat, active: bool)
    requires InSendOrder(front)
    requires forall p :: 0 <= p < |front| && Effect(front[p]) ==>
               && front[p].i <= bound
               && (Finish(front[p]) || !active ==> front[p].i < bound)
    requires Effect(e) ==> bound <= e.i && (Start(e) ==> !active)
    ensures InSendOrder(front + [e])
  {}

  lemma {:induction false} EffectsInSendOrder(log: seq<Event>)
    requires Track(log).Some?
    ensures InSendOrder(log)
  {
    if log != [] {
      var front, e := log[..|log| - 1], log[|log| - 1];
      EffectsInSendOrder(front);
      EffectsBounded(front);
      PhaseConsistent(front);
      var m := Track(front).value;
      assert Effect(e) ==> Bound(m) <= e.i && (Start(e) ==> !Active(m)) by {
        StepBound(Commands(front), m, e);
      }
      OrderExtends(front, e, Bound(m), Active(m));
      assert front + [e] == log;
    }
  }

  // --------------------------------------------------------------- ownership

  ghost function Total(cmds: seq<Command>, i: nat): multiset<Entry> {
    if i < |cmds| && cmds[i].Crossfade? then multiset(cmds[i].entries) else multiset{}
  }

  /** What fade `i` has still to release. */
  ghost function Owed(cmds: seq<Command>, m: Monitor, i: nat): multiset<Entry> {
    if m.phase.Fading? && m.phase.i == i then m.phase.owned
    else if i < Bound(m) then multiset{}
    else Total(cmds, i)
  }

  lemma CompletedOwed(cmds: seq<Command>, m: Monitor, j: nat, epoch: nat, i: nat)
    requires Consistent(cmds, m) && Step(m, Completed(j, epoch)).Some?
    ensures Owed(cmds, Step(m, Completed(j, epoch)).value, i) == Owed(cmds, m, i)
  {
    if i == m.phase.i {
      assert Owed(cmds, m, i) == multiset{};
    } else if m.phase.i < i < m.next {
      assert Total(cmds, i) == multiset{} || i + 1 == m.next;
    }
  }

  lemma QuietFade(f: Phase, e: Event)
    requires f.Fading? && f.cmd.Crossfade? && FadeStep(f, e).Some? && !e.Released?
    ensures FadeStep(f, e).value.Fading? && FadeStep(f, e).value.owned == f.owned && FadeStep(f, e).value.i == f.i
  {
    hide Curves.CrossfadeOpacity, Owns;
  }

  /** Only receiving a command and releasing an entry change what a fade owes. */
  lemma QuietOwed(cmds: seq<Command>, m: Monitor, e: Event, i: nat)
    requires Consistent(cmds, m) && Step(m, e).Some?
    requires !e.Taken? && !e.Released? && !e.Completed?
    ensures Owed(cmds, Step(m, e).value, i) == Owed(cmds, m, i)
  {
    hide Curves.CrossfadeOpacity, FadeStep, MayLook, MayDraw, MayClose, Owns;
    if FadeEvent(e) {
      QuietFade(m.phase, e);
    } else {
      QuietElse(cmds, m, e, i);
    }
  }

  lemma QuietElse(cmds: seq<Command>, m: Monitor, e: Event, i: nat)
    requires Consistent(cmds, m) && Step(m, e).Some? && !FadeEvent(e) && !e.Taken? && !e.Completed?
    ensures Owed(cmds, Step(m, e).value, i) == Owed(cmds, m, i)
  {
    hide FadeStep;
    var m' := Step(m, e).value;
    if e.Began? {
      assert Owed(cmds, m', i) == if i == m.phase.i then multiset(m.phase.cmd.entries) else Owed(cmds, m, i);
    } else {
      assert !m.phase.Fading? && !m'.phase.Fading?;
      assert Bound(m) < m.next ==> !cmds[Bound(m)].Crossfade? || m' == m;
    }
  }

  lemma ReleaseShrinks(f: Phase, en: Entry)
    requires f.Fading? && en in f.owned
    ensures Release(f, en).Fading? && Release(f, en).i == f.i
    ensures f.owned == Release(f, en).owned + multiset{en}
  {}

  lemma ReleasedOwed(cmds: seq<Command>, m: Monitor, en: Entry, i: nat)
    requires m.phase.Fading? && en in m.phase.owned
    ensures
      var delta := if m.phase.i == i then multiset{en} else multiset{};
      Owed(cmds, m, i) == Owed(cmds, m.(phase := Release(m.phase, en)), i) + delta
  {
    ReleaseShrinks(m.phase, en);
    var m' := m.(phase := Release(m.phase, en));
    if m.phase.i == i {
      assert Owed(cmds, m', i) == m'.phase.owned;
    } else {
      assert Owed(cmds, m', i) == Owed(cmds, m, i);
    }
  }

  lemma TakenOwed(cmds: seq<Command>, m: Monitor, cmd: Command, i: nat)
    requires Consistent(cmds, m) && Step(m, Taken(m.next, cmd)).Some?
    ensures
      var m' := Step(m, Taken(m.next, cmd)).value;
      && (i < m.next ==> Owed(cmds + [cmd], m', i) == Owed(cmds, m, i) && Total(cmds + [cmd], i) == Total(cmds, i))
      && (i >= m.next ==> Owed(cmds + [cmd], m', i) == Total(cmds + [cmd], i) && Owed(cmds, m, i) == Total(cmds, i))
  {
    var m' := Step(m, Taken(m.next, cmd)).value;
    TakenPhase(m, cmd);
    hide Step;
    if i < m.next { assert (cmds + [cmd])[i] == cmds[i]; }
  }

  lemma TakenPhase(m: Monitor, cmd: Command)
    requires Step(m, Taken(m.next, cmd)).Some?
    ensures
      var m' := Step(m, Taken(m.next, cmd)).value;
      && m'.next == m.next + 1
      && if m.phase.Idle? then m'.phase == Holding(m.next, cmd)
         else m.phase.Fading? && m'.phase.Fading? && m'.phase.i == m.phase.i && m'.phase.owned == m.phase.owned
  {}

  ghost predicate Conserves(released: multiset<Entry>, cmds: seq<Command>, m: Monitor, i: nat) {
    released + Owed(cmds, m, i) == Total(cmds, i)
  }

  lemma StepConserves(released: multiset<Entry>, cmds: seq<Command>, m: Monitor, e: Event, i: nat)
    requires Consistent(cmds, m) && Step(m, e).Some? && Conserves(released, cmds, m, i)
    ensures
      Conserves(released + if e.Released? && e.i == i then multiset{e.entry} else multiset{},
                cmds + if e.Taken? then [e.cmd] else [], Step(m, e).value, i)
  {
    hide Owed, Consistent;
    if e.Taken? {
      TakenOwed(cmds, m, e.cmd, i);
    } else {
      assert cmds + [] == cmds;
      if e.Released? {
        ReleasedOwed(cmds, m, e.entry, i);
      } else if e.Completed? {
        CompletedOwed(cmds, m, e.i, e.epoch, i);
      } else {
        QuietOwed(cmds, m, e, i);
      }
    }
  }

  /** At every moment each fade's entries are exactly those released plus those still owned. */
  lemma {:induction false} EntriesConserved(log: seq<Event>, i: nat)
    requires Track(log).Some?
    ensures Conserves(ReleasedBy(log, i), Commands(log), Track(log).value, i)
  {
    if log != [] {
      var front := log[..|log| - 1];
      EntriesConserved(front, i);
      PhaseConsistent(front);
      StepConserves(ReleasedBy(front, i), Commands(front), Track(front).value, log[|log| - 1], i);
    }
  }

  lemma {:induction false} ReleasedCounted(log: seq<Event>, p: nat)
    requires p < |log| && log[p].Released?
    ensures log[p].entry in ReleasedBy(log, log[p].i)
  {
    if p < |log| - 1 { ReleasedCounted(log[..|log| - 1], p); }
  }

  /** A fade announces completion only once every entry it was given has been released,
      each as often as it was given. */
  ghost predicate CompletedReleased(log: seq<Event>) {
    forall p :: 0 <= p < |log| && log[p].Completed? ==>
      var cmds := Commands(log);
      && log[p].i < |cmds| && cmds[log[p].i].Crossfade?
      && cmds[log[p].i].epoch == log[p].epoch
      && ReleasedBy(log[..p], log[p].i) == multiset(cmds[log[p].i].entries)
  }

  lemma CompletedHasReleased(log: seq<Event>)
    requires Track(log).Some?
    ensures CompletedReleased(log)
  {
    forall p | 0 <= p < |log| && log[p].Completed?
      ensures var cmds := Commands(log);
              && log[p].i < |cmds| && cmds[log[p].i].Crossfade?
              && cmds[log[p].i].epoch == log[p].epoch
              && ReleasedBy(log[..p], log[p].i) == multiset(cmds[log[p].i].entries)
    {
      Before(log, p);
      EntriesConserved(log[..p], log[p].i);
    }
  }

  ghost predicate DistinctHandles(entries: seq<Entry>) {
    forall a, b :: 0 <= a < b < |entries| && entries[a].handle != 0 ==> entries[a].handle != entries[b].handle
  }

  lemma HandleIdentifies(entries: seq<Entry>, x: Entry)
    requires DistinctHandles(entries) && x in multiset(entries) && x.handle != 0
    ensures multiset(entries)[x] == 1
    ensures forall y :: y in multiset(entries) && y.handle == x.handle ==> y == x
  {
    var a :| 0 <= a < |entries| && entries[a] == x;
    var before, after := entries[..a], entries[a + 1..];
    assert entries == before + [x] + after;
    assert multiset(entries) == multiset(before) + multiset{x} + multiset(after);
    assert x !in before;
    assert x !in after by {
      forall b | 0 <= b < |after| ensures after[b] != x { assert after[b] == entries[a + 1 + b]; }
    }
    forall y | y in multiset(entries) && y.handle == x.handle ensures y == x {
      var b :| 0 <= b < |entries| && entries[b] == y;
    }
  }

  /** No thumbnail is redrawn after it was unregistered, provided the fade was given distinct
      live handles. */
  ghost predicate NoUseAfterRelease(log: seq<Event>) {
    forall p, q :: 0 <= p < q < |log| && log[p].Released? && log[q].Updated? && log[p].i == log[q].i ==>
      && log[p].i < |Commands(log)| && Commands(log)[log[p].i].Crossfade?
      && (DistinctHandles(Commands(log)[log[p].i].entries) && log[p].entry.handle != 0 ==>
            log[q].entry.handle != log[p].entry.handle)
  }

  lemma ReleasedNotUsed(log: seq<Event>)
    requires Track(log).Some?
    ensures NoUseAfterRelease(log)
  {
    forall p, q | 0 <= p < q < |log| && log[p].Released? && log[q].Updated? && log[p].i == log[q].i
      ensures log[p].i < |Commands(log)| && Commands(log)[log[p].i].Crossfade?
      ensures DistinctHandles(Commands(log)[log[p].i].entries) && log[p].entry.handle != 0 ==>
                log[q].entry.handle != log[p].entry.handle
    {
      var i, prior := log[q].i, log[..q];
      Before(log, q);
      EntriesConserved(prior, i);
      assert prior[p] == log[p];
      ReleasedCounted(prior, p);
      var f := Track(prior).value.phase;
      var y := log[q].entry;
      if DistinctHandles(f.cmd.entries) && log[p].entry.handle != 0 {
        assert log[p].entry in multiset(f.cmd.entries);
        HandleIdentifies(f.cmd.entries, log[p].entry);
        assert y in multiset(f.cmd.entries);
      }
    }
  }

  // ------------------------------------------------------------- a fade's course

  /** Fade `i` received `cmds[k]` while it ran. */
  ghost predicate TakenDuring(log: seq<Event>, k: nat, i: nat) {
    exists p :: 0 <= p < |log| && k < |Commands(log)| && log[p] == Taken(k, Commands(log)[k]) && DuringFade(log, p, i)
  }

  /** What the log says of the fade that is running. */
  ghost predicate FadeKnown(log: seq<Event>, m: Monitor) {
    m.phase.Fading? && m.phase.cmd.Crossfade? ==>
      var f := m.phase;
      && DuringFade(log, |log|, f.i)
      && f.drawn == Flushes(log, f.i) && f.shown == Redrawn(log, f.i)
      && (f.stage.Closing? <==> EndedEarly(log, f.i, f.cmd))
      && forall k :: f.i < k < m.next ==> TakenDuring(log, k, f.i)
  }

  lemma DuringExtends(front: seq<Event>, e: Event, p: nat, i: nat)
    requires p <= |front|
    ensures DuringFade(front + [e], p, i) <==> DuringFade(front, p, i)
  {
    assert (front + [e])[..p] == front[..p];
  }

  lemma FlushesExtend(front: seq<Event>, e: Event, i: nat)
    ensures Flushes(front + [e], i) == Flushes(front, i) + if e == Flushed(i) then 1 else 0
  {
    assert (front + [e])[..|front|] == front;
  }

  lemma RedrawnExtends(front: seq<Event>, e: Event, i: nat)
    ensures Redrawn(front + [e], i) ==
            if e == Flushed(i) then multiset{}
            else Redrawn(front, i) + if e.Updated? && e.i == i then multiset{e.entry} else multiset{}
  {
    assert (front + [e])[..|front|] == front;
  }

  /** One more event ends a fade early or it does not. */
  lemma EndedExtends(front: seq<Event>, e: Event, i: nat, cmd: Command)
    requires cmd.Crossfade?
    ensures EndedEarly(front + [e], i, cmd) <==>
            EndedEarly(front, i, cmd) || (DuringFade(front, |front|, i) && Ends(cmd, i, e))
  {
    var log := front + [e];
    DuringExtends(front, e, |front|, i);
    if EndedEarly(front, i, cmd) {
      var p :| 0 <= p < |front| && DuringFade(front, p, i) && Ends(cmd, i, front[p]);
      DuringExtends(front, e, p, i);
      assert log[p] == front[p];
    }
    if EndedEarly(log, i, cmd) {
      var p :| 0 <= p < |log| && DuringFade(log, p, i) && Ends(cmd, i, log[p]);
      DuringExtends(front, e, p, i);
      if p < |front| { assert log[p] == front[p]; }
    }
    assert log[|front|] == e;
  }

  lemma TakenDuringExtends(front: seq<Event>, e: Event, k: nat, i: nat)
    requires TakenDuring(front, k, i)
    ensures TakenDuring(front + [e], k, i)
  {
    var log := front + [e];
    assert log[..|log| - 1] == front;
    var p :| && 0 <= p < |front| && k < |Commands(front)|
             && front[p] == Taken(k, Commands(front)[k]) && DuringFade(front, p, i);
    DuringExtends(front, e, p, i);
    assert log[p] == front[p] && Commands(log)[k] == Commands(front)[k];
  }

  /** A fade that has not begun has left no trace. */
  lemma {:induction false} NotBegun(log: seq<Event>, i: nat)
    requires forall p :: 0 <= p < |log| && Effect(log[p]) ==> log[p].i < i
    ensures Flushes(log, i) == 0 && Redrawn(log, i) == multiset{}
  {
    if log != [] {
      var front := log[..|log| - 1];
      assert forall p :: 0 <= p < |front| ==> front[p] == log[p];
      NotBegun(front, i);
    }
  }

  lemma BeganKnown(front: seq<Event>, m: Monitor, i: nat)
    requires Track(front) == Some(m) && Step(m, Began(i)).Some?
    ensures FadeKnown(front + [Began(i)], Step(m, Began(i)).value)
  {
    var log, cmd := front + [Began(i)], m.phase.cmd;
    PhaseConsistent(front);
    EffectsBounded(front);
    NotBegun(front, i);
    FlushesExtend(front, Began(i), i);
    RedrawnExtends(front, Began(i), i);
    assert log[|front|] == Began(i);
    assert Began(i) !in front;
    forall p | 0 <= p < |log| ensures !DuringFade(log, p, i) {
      assert forall x :: x in log[..p] ==> x in front;
    }
  }

  /** What is redrawn of the iteration at hand after an event of the fade. */
  ghost function ShownAfter(f: Phase, e: Event): multiset<Entry>
    requires f.Fading?
  {
    if e == Flushed(f.i) then multiset{}
    else f.shown + if e.Updated? && e.i == f.i then multiset{e.entry} else multiset{}
  }

  /** What a fade's own event does to its course. */
  lemma FadeStepGoesOn(f: Phase, e: Event)
    requires f.Fading? && f.cmd.Crossfade? && FadeStep(f, e).Some? && e.i == f.i
    ensures
      var f' := FadeStep(f, e).value;
      && f'.Fading? && f'.i == f.i && f'.cmd == f.cmd && FadeEvent(e)
      && f'.drawn == f.drawn + (if e == Flushed(f.i) then 1 else 0)
      && f'.shown == ShownAfter(f, e)
      && (f'.stage.Closing? <==> f.stage.Closing? || Ends(f.cmd, f.i, e))
  {
    FadeStepShows(f, e);
    FadeStepCloses(f, e);
    hide FadeStep, Ends, ShownAfter;
  }

  lemma FadeStepShows(f: Phase, e: Event)
    requires f.Fading? && f.cmd.Crossfade? && FadeStep(f, e).Some? && e.i == f.i
    ensures
      var f' := FadeStep(f, e).value;
      && f'.Fading? && f'.i == f.i && f'.cmd == f.cmd && FadeEvent(e)
      && f'.drawn == f.drawn + (if e == Flushed(f.i) then 1 else 0)
      && f'.shown == ShownAfter(f, e)
  {
    hide MayUpdate, MayDraw, MayLook, MayRelease, MayClose, Owns;
    if !e.Updated? && !e.Flushed? { assert f.shown + multiset{} == f.shown; }
  }

  lemma FadeStepCloses(f: Phase, e: Event)
    requires f.Fading? && f.cmd.Crossfade? && FadeStep(f, e).Some? && e.i == f.i
    ensures FadeStep(f, e).value.Fading?
    ensures FadeStep(f, e).value.stage.Closing? <==> f.stage.Closing? || Ends(f.cmd, f.i, e)
  {
    hide Curves.CrossfadeOpacity, Owns;
  }

  lemma InterruptGoesOn(f: Phase, i: nat, cmd: Command)
    requires f.Fading? && f.cmd.Crossfade? && MayLook(f)
    ensures
      var f' := Interrupt(f, cmd);
      && f'.Fading? && f'.i == f.i && f'.cmd == f.cmd && f'.drawn == f.drawn && f'.shown == f.shown
      && (f'.stage.Closing? <==> f.stage.Closing? || Ends(f.cmd, f.i, Taken(i, cmd)))
  {}

  /** A fade that goes on: the event is its own, or a command it receives. */
  lemma FadeGoesOn(m: Monitor, e: Event)
    requires Step(m, e).Some? && Step(m, e).value.phase.Fading? && !e.Began?
    ensures m.phase.Fading? && m.phase.cmd.Crossfade?
    ensures Step(m, e).value.phase.i == m.phase.i && Step(m, e).value.phase.cmd == m.phase.cmd
    ensures e.Taken? || (FadeEvent(e) && e.i == m.phase.i)
    ensures Step(m, e).value.phase.drawn == m.phase.drawn + if e == Flushed(m.phase.i) then 1 else 0
    ensures Step(m, e).value.phase.shown == ShownAfter(m.phase, e)
    ensures Step(m, e).value.phase.stage.Closing? <==> m.phase.stage.Closing? || Ends(m.phase.cmd, m.phase.i, e)
    ensures Step(m, e).value.next == m.next + if e.Taken? then 1 else 0
  {
    hide FadeStep, Interrupt, MayLook, MayClose, Ends;
    match e
    case Taken(i, cmd) => LookingFade(m.phase); InterruptGoesOn(m.phase, i, cmd);
    case _ => FadeStepGoesOn(m.phase, e);
  }

  lemma LookingFade(f: Phase)
    ensures f.Fading? && MayLook(f) ==> f.cmd.Crossfade?
  {}

  lemma GoesOnKnown(front: seq<Event>, m: Monitor, e: Event)
    requires Track(front) == Some(m) && FadeKnown(front, m) && !e.Began?
    requires Step(m, e).Some? && Step(m, e).value.phase.Fading?
    ensures FadeKnown(front + [e], Step(m, e).value)
  {
    hide Step, Flushes, Redrawn, EndedEarly, TakenDuring, Ends;
    FadeGoesOn(m, e);
    var i, cmd := m.phase.i, m.phase.cmd;
    DuringGoesOn(front, e, i);
    FlushesExtend(front, e, i);
    RedrawnExtends(front, e, i);
    EndedExtends(front, e, i, cmd);
    TakenGoesOn(front, m, e);
  }

  lemma DuringGoesOn(front: seq<Event>, e: Event, i: nat)
    requires DuringFade(front, |front|, i) && !(e.Completed? && e.i == i)
    ensures DuringFade(front + [e], |front + [e]|, i)
  {
    DuringExtends(front, e, |front|, i);
    var log := front + [e];
    assert log[..|log|] == log && log[..|front|] == front[..|front|];
  }

  /** Whatever the fade has received was received while it ran. */
  lemma TakenGoesOn(front: seq<Event>, m: Monitor, e: Event)
    requires Track(front) == Some(m) && m.phase.Fading? && DuringFade(front, |front|, m.phase.i)
    requires Step(m, e).Some? && forall k :: m.phase.i < k < m.next ==> TakenDuring(front, k, m.phase.i)
    ensures forall k :: m.phase.i < k < Step(m, e).value.next ==> TakenDuring(front + [e], k, m.phase.i)
  {
    var i, log := m.phase.i, front + [e];
    PhaseConsistent(front);
    NextGrows(m, e);
    hide Step, TakenDuring;
    forall k | i < k < m.next ensures TakenDuring(log, k, i) { TakenDuringExtends(front, e, k, i); }
    if e.Taken? { TakenNow(front, m, e, i); }
  }

  lemma NextGrows(m: Monitor, e: Event)
    requires Step(m, e).Some?
    ensures Step(m, e).value.next == m.next + (if e.Taken? then 1 else 0) && (e.Taken? ==> e.i == m.next)
  {
    hide Curves.CrossfadeOpacity, Owns, FadeStep;
  }

  lemma TakenNow(front: seq<Event>, m: Monitor, e: Event, i: nat)
    requires |Commands(front)| == m.next && e.Taken? && e.i == m.next && DuringFade(front, |front|, i)
    ensures TakenDuring(front + [e], m.next, i)
  {
    var log := front + [e];
    DuringExtends(front, e, |front|, i);
    CommandsExtend(front, e);
    assert log[|front|] == e;
  }

  lemma {:induction false} FadeIsKnown(log: seq<Event>)
    requires Track(log).Some?
    ensures FadeKnown(log, Track(log).value)
  {
    hide FadeKnown, Step;
    if log == [] {
      NothingKnown();
    } else {
      var front, e := log[..|log| - 1], log[|log| - 1];
      assert log == front + [e];
      var m := Track(front).value;
      FadeIsKnown(front);
      if !Step(m, e).value.phase.Fading? {
        IdleKnown(log, Step(m, e).value);
      } else if e.Began? {
        BeganKnown(front, m, e.i);
      } else {
        GoesOnKnown(front, m, e);
      }
    }
  }

  lemma NothingKnown()
    ensures FadeKnown([], Monitor(0, Idle))
  {}

  lemma IdleKnown(log: seq<Event>, m: Monitor)
    requires !m.phase.Fading?
    ensures FadeKnown(log, m)
  {}

  /** While a fade lasts the worker runs it. */
  lemma {:induction false} DuringNow(log: seq<Event>, i: nat)
    requires Track(log).Some? && DuringFade(log, |log|, i)
    ensures Track(log).value.phase.Fading? && Track(log).value.phase.i == i
  {
    hide Step;
    assert log[..|log|] == log;
    var front, e := log[..|log| - 1], log[|log| - 1];
    assert log == front + [e] && front[..|front|] == front;
    if e == Began(i) {
      BeganFading(Track(front).value, i);
    } else {
      assert Began(i) in front;
      DuringNow(front, i);
      StillFading(Track(front).value, e);
    }
  }

  lemma BeganFading(m: Monitor, i: nat)
    requires Step(m, Began(i)).Some?
    ensures Step(m, Began(i)).value.phase.Fading? && Step(m, Began(i)).value.phase.i == i
  {}

  lemma DuringIsFading(log: seq<Event>, p: nat, i: nat)
    requires Track(log).Some? && p <= |log| && DuringFade(log, p, i)
    ensures Track(log[..p]).Some? && Track(log[..p]).value.phase.Fading? && Track(log[..p]).value.phase.i == i
  {
    PrefixTracks(log, p);
    DuringPrefix(log, p, p, i);
    DuringNow(log[..p], i);
  }

  lemma StillFading(m: Monitor, e: Event)
    requires Step(m, e).Some? && m.phase.Fading? && !(e.Completed? && e.i == m.phase.i)
    ensures Step(m, e).value.phase.Fading? && Step(m, e).value.phase.i == m.phase.i
  {
    hide Curves.CrossfadeOpacity, Owns;
  }

  /** What is known of a fade at any moment of its course. */
  lemma KnownDuring(log: seq<Event>, p: nat, i: nat)
    requires Track(log).Some? && p <= |log| && DuringFade(log, p, i)
    ensures Track(log[..p]).Some?
    ensures
      var m := Track(log[..p]).value;
      && m.phase.Fading? && m.phase.i == i && m.phase.cmd.Crossfade?
      && i < |Commands(log)| && Commands(log)[i] == m.phase.cmd
      && FadeKnown(log[..p], m) && Consistent(Commands(log[..p]), m)
  {
    DuringIsFading(log, p, i);
    FadeIsKnown(log[..p]);
    PhaseConsistent(log[..p]);
    PrefixCommands(log, p);
  }

  // ------------------------------------------------------- why and when fades end

  /** The state in which an event of fade `i` was accepted. */
  ghost predicate FadingAt(log: seq<Event>, p: nat, i: nat)
    requires p < |log|
  {
    && Track(log[..p]).Some? && Track(log[..p]).value.phase.Fading? && Track(log[..p]).value.phase.i == i
    && Track(log[..p]).value.phase.cmd.Crossfade?
    && i < |Commands(log)| && Commands(log)[i] == Track(log[..p]).value.phase.cmd
    && FadeKnown(log[..p], Track(log[..p]).value) && Consistent(Commands(log[..p]), Track(log[..p]).value)
    && Step(Track(log[..p]).value, log[p]).Some?
    && Commands(log[..p]) <= Commands(log)
  }

  lemma FadingWhen(log: seq<Event>, p: nat)
    requires Track(log).Some? && p < |log| && (FadeEvent(log[p]) || log[p].Completed?)
    ensures FadingAt(log, p, log[p].i)
  {
    hide Step, FadeKnown, Consistent;
    Before(log, p);
    FadeIsKnown(log[..p]);
    FadeEventFades(Track(log[..p]).value, log[p]);
    FadingCommand(Commands(log[..p]), Track(log[..p]).value);
  }

  lemma FadeEventFades(m: Monitor, e: Event)
    requires Step(m, e).Some? && (FadeEvent(e) || e.Completed?)
    ensures m.phase.Fading? && m.phase.i == e.i
  {
    hide Curves.CrossfadeOpacity, Owns;
  }

  lemma FadingCommand(cmds: seq<Command>, m: Monitor)
    requires Consistent(cmds, m) && m.phase.Fading?
    ensures m.phase.i < |cmds| && cmds[m.phase.i] == m.phase.cmd && m.phase.cmd.Crossfade?
  {}

  /** A completed fade drew all its iterations, unless and only unless it was told to end early: by
      a matching abort, a preempting command, a token that no longer matched, or the clients'
      leaving. Stale aborts and drops, and an empty channel, never end one. */
  ghost predicate RanItsCourse(log: seq<Event>, p: nat)
    requires p < |log| && log[p].Completed?
  {
    var i := log[p].i;
    && i < |Commands(log)| && Commands(log)[i].Crossfade?
    && Flushes(log[..p], i) <= Commands(log)[i].frames
    && (Flushes(log[..p], i) < Commands(log)[i].frames <==> EndedEarly(log[..p], i, Commands(log)[i]))
  }

  ghost predicate FadesRunTheirCourse(log: seq<Event>) {
    forall p :: 0 <= p < |log| && log[p].Completed? ==> RanItsCourse(log, p)
  }

  lemma FadesRun(log: seq<Event>)
    requires Track(log).Some?
    ensures FadesRunTheirCourse(log)
  {
    forall p | 0 <= p < |log| && log[p].Completed? ensures RanItsCourse(log, p) { FadingWhen(log, p); }
  }

  /** Event `p` tells fade `i` to end early. */
  ghost predicate ToldToEnd(log: seq<Event>, p: nat, i: nat)
    requires p < |log|
  {
    && DuringFade(log, p, i) && i < |Commands(log)| && Commands(log)[i].Crossfade?
    && Ends(Commands(log)[i], i, log[p])
  }

  /** Once told to end early, a fade draws nothing more, receives nothing more and reports no drop. */
  ghost predicate EndedFadesStop(log: seq<Event>) {
    forall p: nat, q: nat, i: nat :: p < q < |log| && ToldToEnd(log, p, i) && DuringFade(log, q, i) ==>
      log[q].Released? || log[q].Completed?
  }

  lemma EndedStop(log: seq<Event>)
    requires Track(log).Some?
    ensures EndedFadesStop(log)
  {
    forall p: nat, q: nat, i: nat | p < q < |log| && ToldToEnd(log, p, i) && DuringFade(log, q, i)
      ensures log[q].Released? || log[q].Completed?
    {
      KnownDuring(log, q, i);
      Before(log, q);
      DuringPrefix(log, q, p, i);
      assert log[..q][p] == log[p];
      ClosingOnlyReleases(Track(log[..q]).value, log[q]);
    }
  }

  lemma DuringPrefix(log: seq<Event>, q: nat, p: nat, i: nat)
    requires p <= q <= |log|
    ensures DuringFade(log[..q], p, i) <==> DuringFade(log, p, i)
  {
    assert log[..q][..p] == log[..p];
    assert forall k :: 0 <= k < p ==> log[..q][k] == log[k];
  }

  lemma ClosingOnlyReleases(m: Monitor, e: Event)
    requires m.phase.Fading? && m.phase.stage.Closing? && Step(m, e).Some?
    ensures e.Released? || e.Completed?
  {
    hide Curves.CrossfadeOpacity, Owns;
  }

  /** A command that is not for this fade changes nothing that an empty channel would not. */
  lemma StaleChangesNothing(m: Monitor, cmd: Command)
    requires m.phase.Fading? && m.phase.cmd.Crossfade? && FadeOnly(cmd) && cmd.epoch != m.phase.cmd.epoch
    requires Step(m, Taken(m.next, cmd)).Some?
    ensures Step(m, FoundEmpty(m.phase.i)).Some?
    ensures Step(m, Taken(m.next, cmd)).value.phase == Step(m, FoundEmpty(m.phase.i)).value.phase
  {}

  /** Each redraw has the opacity of the iteration it belongs to. */
  ghost predicate OpacityFollowsCurve(log: seq<Event>) {
    forall p :: 0 <= p < |log| && log[p].Updated? ==> OnCurve(log, p)
  }

  ghost predicate OnCurve(log: seq<Event>, p: nat)
    requires p < |log| && log[p].Updated?
  {
    var i := log[p].i;
    && i < |Commands(log)| && Commands(log)[i].Crossfade? && Flushes(log[..p], i) < Commands(log)[i].frames
    && log[p].opacity == Curves.CrossfadeOpacity(Flushes(log[..p], i) + 1, Commands(log)[i].frames)
  }

  lemma RedrawsFollowCurve(log: seq<Event>)
    requires Track(log).Some?
    ensures OpacityFollowsCurve(log)
  {
    hide OnCurve, Step;
    forall p | 0 <= p < |log| && log[p].Updated? ensures OnCurve(log, p) { RedrawOnCurve(log, p); }
  }

  lemma RedrawOnCurve(log: seq<Event>, p: nat)
    requires Track(log).Some? && p < |log| && log[p].Updated?
    ensures OnCurve(log, p)
  {
    hide Curves.CrossfadeOpacity, Step, Track, FadeKnown, Consistent, Flushes, Commands;
    FadingWhen(log, p);
    KnownFlushes(log[..p], Track(log[..p]).value);
    UpdatedStep(Track(log[..p]).value, log[p]);
  }

  lemma KnownFlushes(log: seq<Event>, m: Monitor)
    requires FadeKnown(log, m) && m.phase.Fading? && m.phase.cmd.Crossfade?
    ensures m.phase.drawn == Flushes(log, m.phase.i)
  {}

  lemma UpdatedStep(m: Monitor, e: Event)
    requires Step(m, e).Some? && e.Updated?
    ensures m.phase.Fading? && m.phase.cmd.Crossfade? && m.phase.drawn < m.phase.cmd.frames
    ensures e.opacity == Curves.CrossfadeOpacity(m.phase.drawn + 1, m.phase.cmd.frames)
  {
    hide Curves.CrossfadeOpacity;
  }

  /** Every iteration handed over has redrawn exactly the entries still owned, each as often. */
  ghost predicate IterationsComplete(log: seq<Event>) {
    forall p :: 0 <= p < |log| && log[p].Flushed? ==>
      && log[p].i < |Commands(log)| && Commands(log)[log[p].i].Crossfade?
      && Redrawn(log[..p], log[p].i) + ReleasedBy(log[..p], log[p].i) == multiset(Commands(log)[log[p].i].entries)
  }

  lemma IterationsAreComplete(log: seq<Event>)
    requires Track(log).Some?
    ensures IterationsComplete(log)
  {
    forall p | 0 <= p < |log| && log[p].Flushed?
      ensures log[p].i < |Commands(log)| && Commands(log)[log[p].i].Crossfade?
      ensures Redrawn(log[..p], log[p].i) + ReleasedBy(log[..p], log[p].i) == multiset(Commands(log)[log[p].i].entries)
    {
      FadingWhen(log, p);
      FlushedStep(Track(log[..p]).value, log[p]);
      hide Step;
      EntriesConserved(log[..p], log[p].i);
    }
  }

  lemma FlushedStep(m: Monitor, e: Event)
    requires Step(m, e).Some? && e.Flushed?
    ensures m.phase.Fading? && m.phase.shown == m.phase.owned
  {}

  // ------------------------------------------------------------- target drops

  /** Fade `i` received a drop of `window` meant for it at `p`. */
  ghost predicate DropAt(log: seq<Event>, p: nat, i: nat, window: nat) {
    && p < |log| && DuringFade(log, p, i) && i < |Commands(log)| && Commands(log)[i].Crossfade?
    && log[p].Taken? && log[p].cmd == DropCrossfadeTarget(Commands(log)[i].epoch, window)
  }

  /** Since the drop at `p` nothing happened but the release of entries of its window. */
  ghost predicate SweepSince(log: seq<Event>, p: nat, i: nat, window: nat) {
    && DropAt(log, p, i, window)
    && forall k :: p < k < |log| ==> log[k].Released? && log[k].i == i && log[k].entry.window == window
  }

  /** A sweep goes back to the drop that asked for it. */
  ghost predicate SweepKnown(log: seq<Event>, m: Monitor) {
    m.phase.Fading? && m.phase.stage.Sweeping? ==>
      exists p: nat :: SweepSince(log, p, m.phase.i, m.phase.stage.window) && (m.phase.stage.hit <==> p + 1 < |log|)
  }

  lemma DropAtExtends(front: seq<Event>, e: Event, p: nat, i: nat, window: nat)
    requires p < |front| && DropAt(front, p, i, window)
    ensures DropAt(front + [e], p, i, window)
  {
    DuringExtends(front, e, p, i);
    assert (front + [e])[..|front|] == front && (front + [e])[p] == front[p];
  }

  /** What makes or keeps a sweep. */
  lemma SweepMade(m: Monitor, e: Event)
    requires Step(m, e).Some? && Step(m, e).value.phase.Fading? && Step(m, e).value.phase.stage.Sweeping?
    ensures m.phase.Fading? && m.phase.cmd.Crossfade? && Step(m, e).value.phase.i == m.phase.i
    ensures
      var s := Step(m, e).value.phase.stage;
      if s.hit then e.Released? && e.i == m.phase.i && e.entry.window == s.window && m.phase.stage.Sweeping?
                    && m.phase.stage.window == s.window
      else e.Taken? && e.cmd == DropCrossfadeTarget(m.phase.cmd.epoch, s.window)
  {
    hide Curves.CrossfadeOpacity, Owns;
  }

  lemma SweepStarts(front: seq<Event>, e: Event, i: nat, window: nat)
    requires DropAt(front + [e], |front|, i, window)
    ensures SweepSince(front + [e], |front|, i, window)
  {}

  lemma SweepGrows(front: seq<Event>, e: Event, p: nat, i: nat, window: nat)
    requires SweepSince(front, p, i, window) && e.Released? && e.i == i && e.entry.window == window
    ensures SweepSince(front + [e], p, i, window)
  {
    DropAtExtends(front, e, p, i, window);
    assert forall k :: 0 <= k < |front| ==> (front + [e])[k] == front[k];
  }

  lemma DropAtLast(front: seq<Event>, m: Monitor, e: Event)
    requires Track(front) == Some(m) && m.phase.Fading? && m.phase.cmd.Crossfade?
    requires e.Taken? && e.cmd.DropCrossfadeTarget? && e.cmd.epoch == m.phase.cmd.epoch
    ensures DropAt(front + [e], |front|, m.phase.i, e.cmd.window)
  {
    hide Step, Track, EndedEarly, TakenDuring, Flushes, DuringFade;
    FadeIsKnown(front);
    PhaseConsistent(front);
    DuringExtends(front, e, |front|, m.phase.i);
    CommandsExtend(front, e);
  }

  lemma CommandsExtend(front: seq<Event>, e: Event)
    requires e.Taken?
    ensures Commands(front + [e]) == Commands(front) + [e.cmd]
  {
    assert (front + [e])[..|front|] == front;
  }

  lemma {:induction false} SweepIsKnown(log: seq<Event>)
    requires Track(log).Some?
    ensures SweepKnown(log, Track(log).value)
  {
    hide Step, SweepSince, DropAt;
    if log != [] && Track(log).value.phase.Fading? && Track(log).value.phase.stage.Sweeping? {
      var front, e := log[..|log| - 1], log[|log| - 1];
      assert log == front + [e];
      var m, f := Track(front).value, Track(log).value.phase;
      SweepMade(m, e);
      if f.stage.hit {
        SweepIsKnown(front);
        var p: nat :| SweepSince(front, p, f.i, f.stage.window);
        SweepWithin(front, p, f.i, f.stage.window);
        SweepGrows(front, e, p, f.i, f.stage.window);
      } else {
        DropAtLast(front, m, e);
        SweepStarts(front, e, f.i, f.stage.window);
      }
    }
  }

  lemma SweepWithin(log: seq<Event>, p: nat, i: nat, window: nat)
    requires SweepSince(log, p, i, window)
    ensures p < |log|
  {}

  /** The other way round: a matching drop followed by nothing but releases is being swept. */
  lemma {:induction false} SweepGoesOn(log: seq<Event>, p: nat, i: nat, window: nat)
    requires Track(log).Some? && DropAt(log, p, i, window)
    requires forall k :: p < k < |log| ==> log[k].Released?
    ensures Track(log).value.phase.Fading? && Track(log).value.phase.i == i
    ensures Track(log).value.phase.stage == Sweeping(window, p + 1 < |log|)
    ensures SweepSince(log, p, i, window)
  {
    hide Step, SweepSince;
    assert p < |log|;
    var front, e := log[..|log| - 1], log[|log| - 1];
    assert log == front + [e];
    var m := Track(front).value;
    if p + 1 == |log| {
      KnownDuring(log, p, i);
      assert log[..p] == front;
      DropTaken(m, e);
      SweepStarts(front, e, i, window);
    } else {
      DropAtBefore(front, e, p, i, window);
      assert forall k :: 0 <= k < |front| ==> front[k] == log[k];
      SweepGoesOn(front, p, i, window);
      SweepReleases(m, e);
      SweepGrows(front, e, p, i, window);
    }
  }

  lemma DropAtBefore(front: seq<Event>, e: Event, p: nat, i: nat, window: nat)
    requires p < |front| && DropAt(front + [e], p, i, window) && Track(front + [e]).Some?
    ensures DropAt(front, p, i, window)
  {
    var log := front + [e];
    assert log[..|front|] == front && log[p] == front[p];
    DuringExtends(front, e, p, i);
    KnownDuring(log, p, i);
    Before(front, p);
    assert log[..p] == front[..p];
  }

  lemma DropTaken(m: Monitor, e: Event)
    requires m.phase.Fading? && m.phase.cmd.Crossfade? && Step(m, e).Some?
    requires e.Taken? && e.cmd.DropCrossfadeTarget? && e.cmd.epoch == m.phase.cmd.epoch
    ensures Step(m, e).value.phase == m.phase.(stage := Sweeping(e.cmd.window, false))
  {}

  lemma SweepReleases(m: Monitor, e: Event)
    requires m.phase.Fading? && m.phase.stage.Sweeping? && Step(m, e).Some? && e.Released?
    ensures e.i == m.phase.i && e.entry.window == m.phase.stage.window && e.entry in m.phase.owned
    ensures Step(m, e).value.phase.Fading? && Step(m, e).value.phase.i == m.phase.i
    ensures Step(m, e).value.phase.stage == Sweeping(m.phase.stage.window, true)
  {}

  /** A sweep ends with nothing of its window left, and is reported exactly if it released anything. */
  lemma SweepEnds(m: Monitor, e: Event)
    requires m.phase.Fading? && m.phase.cmd.Crossfade? && m.phase.stage.Sweeping? && Step(m, e).Some? && !e.Released?
    ensures !Owns(m.phase.owned, m.phase.stage.window)
    ensures e == TargetDropped(m.phase.i, m.phase.cmd.epoch, m.phase.stage.window) <==> m.phase.stage.hit
    ensures m.phase.stage.hit ==> e.TargetDropped?
  {
    hide Curves.CrossfadeOpacity;
  }

  /** What follows a matching drop: releases of its window's entries until none is left, and then a
      report exactly if there were any, before anything else happens. */
  ghost predicate SweptAt(log: seq<Event>, p: nat, q: nat, i: nat, window: nat)
    requires p < q < |log| && i < |Commands(log)| && Commands(log)[i].Crossfade?
  {
    var cmd := Commands(log)[i];
    && SweepSince(log[..q], p, i, window) && AllReleased(log[..q], i, cmd, window)
    && (log[q] == TargetDropped(i, cmd.epoch, window) <==> !AllReleased(log[..p], i, cmd, window))
  }

  ghost predicate DropsSwept(log: seq<Event>) {
    forall p: nat, q: nat, i: nat, window: nat ::
      (p < q < |log| && DropAt(log, p, i, window) && (forall k :: p < k < q ==> log[k].Released?) && !log[q].Released?)
      ==> SweptAt(log, p, q, i, window)
  }

  lemma DropAtPrefix(log: seq<Event>, q: nat, p: nat, i: nat, window: nat)
    requires Track(log).Some? && p < q <= |log| && DropAt(log, p, i, window)
    ensures DropAt(log[..q], p, i, window)
  {
    KnownDuring(log, p, i);
    DuringPrefix(log, q, p, i);
    PrefixCommands(log, q);
    PrefixCommands(log[..q], p);
    assert log[..q][..p] == log[..p] && log[..q][p] == log[p];
  }

  lemma NoneLeft(released: multiset<Entry>, owned: multiset<Entry>, window: nat)
    requires !Owns(owned, window)
    ensures forall en: Entry :: en.window == window ==> released[en] == (released + owned)[en]
  {
    forall en: Entry | en.window == window ensures released[en] == (released + owned)[en] {
      assert en !in owned;
    }
  }

  /** Nothing of `window` is owned once everything of it was released. */
  lemma AllReleasedWhen(log: seq<Event>, i: nat, cmd: Command, window: nat)
    requires Track(log).Some? && Track(log).value.phase.Fading? && Track(log).value.phase.i == i
    requires cmd.Crossfade? && i < |Commands(log)| && Commands(log)[i] == cmd
    requires !Owns(Track(log).value.phase.owned, window)
    ensures AllReleased(log, i, cmd, window)
  {
    EntriesConserved(log, i);
    NoneLeft(ReleasedBy(log, i), Track(log).value.phase.owned, window);
  }

  /** A release shows that not everything had been released before. */
  lemma ReleaseWasOwed(log: seq<Event>, p: nat, i: nat, cmd: Command, window: nat)
    requires Track(log).Some? && p + 1 < |log| && log[p].Taken?
    requires log[p + 1].Released? && log[p + 1].i == i && log[p + 1].entry.window == window
    requires cmd.Crossfade? && i < |Commands(log[..p])| && Commands(log[..p])[i] == cmd
    ensures !AllReleased(log[..p], i, cmd, window)
  {
    var en, upTo := log[p + 1].entry, log[..p + 2];
    PrefixTracks(log, p + 2);
    EntriesConserved(upTo, i);
    assert upTo[..p + 1] == log[..p + 1] && log[..p + 1][..p] == log[..p];
    assert ReleasedBy(upTo, i) == ReleasedBy(log[..p], i) + multiset{en};
    PrefixCommands(upTo, p);
    assert upTo[..p] == log[..p];
    assert (ReleasedBy(upTo, i) + Owed(Commands(upTo), Track(upTo).value, i))[en] == multiset(cmd.entries)[en];
  }

  lemma SweptHolds(log: seq<Event>, p: nat, q: nat, i: nat, window: nat)
    requires Track(log).Some? && p < q < |log| && DropAt(log, p, i, window)
    requires (forall k :: p < k < q ==> log[k].Released?) && !log[q].Released?
    ensures SweptAt(log, p, q, i, window)
  {
    hide Step, Track, Consistent, FadeKnown, Owns, AllReleased;
    var cmd, before := Commands(log)[i], log[..q];
    DropAtPrefix(log, q, p, i, window);
    Before(log, q);
    assert forall k :: 0 <= k < q ==> before[k] == log[k];
    SweepGoesOn(before, p, i, window);
    KnownDuring(log, p, i);
    CommandKept(log, p, q, i);
    SweepEnds(Track(before).value, log[q]);
    AllReleasedWhen(before, i, cmd, window);
    if p + 1 == q {
      assert log[..q] == before && log[..p] == before[..p];
      QuietTaking(log, p, i, cmd, window);
    } else {
      assert before[..p] == log[..p];
      ReleaseWasOwed(before, p, i, cmd, window);
    }
  }

  /** Receiving a command releases nothing. */
  lemma QuietTaking(log: seq<Event>, p: nat, i: nat, cmd: Command, window: nat)
    requires cmd.Crossfade? && p < |log| && log[p].Taken?
    ensures AllReleased(log[..p + 1], i, cmd, window) <==> AllReleased(log[..p], i, cmd, window)
  {
    assert log[..p + 1][..p] == log[..p];
  }

  /** A fade's command is in hand, and the fade known, from its beginning on. */
  lemma CommandKept(log: seq<Event>, p: nat, q: nat, i: nat)
    requires Track(log).Some? && p <= q <= |log| && DuringFade(log, p, i)
    ensures i < |Commands(log[..p])| && Commands(log[..p]) <= Commands(log[..q]) <= Commands(log)
    ensures Track(log[..q]).Some? && Consistent(Commands(log[..q]), Track(log[..q]).value)
    ensures Track(log[..q]).value.phase.Fading? && Track(log[..q]).value.phase.i == i ==>
              Track(log[..q]).value.phase.cmd == Commands(log)[i] && Commands(log)[i].Crossfade?
  {
    KnownDuring(log, p, i);
    PrefixTracks(log, q);
    PhaseConsistent(log[..q]);
    PrefixCommands(log, q);
    PrefixCommands(log[..q], p);
    assert log[..q][..p] == log[..p];
  }

  lemma DropsAreSwept(log: seq<Event>)
    requires Track(log).Some?
    ensures DropsSwept(log)
  {
    forall p: nat, q: nat, i: nat, window: nat |
      p < q < |log| && DropAt(log, p, i, window) && (forall k :: p < k < q ==> log[k].Released?) && !log[q].Released?
      ensures SweptAt(log, p, q, i, window)
    {
      SweptHolds(log, p, q, i, window);
    }
  }

  /** Why an entry may be released: a matching drop of its window is being carried out, or the fade
      drew all its iterations, or it was told to end early. So stale drops and aborts release
      nothing, and a drop releases nothing of another window. */
  ghost predicate ReleaseJustified(log: seq<Event>, p: nat)
    requires p < |log| && log[p].Released?
  {
    var i := log[p].i;
    && i < |Commands(log)| && Commands(log)[i].Crossfade?
    && (|| (exists d :: SweepSince(log[..p], d, i, log[p].entry.window))
        || Flushes(log[..p], i) == Commands(log)[i].frames
        || EndedEarly(log[..p], i, Commands(log)[i]))
  }

  ghost predicate OthersUntouched(log: seq<Event>) {
    forall p :: 0 <= p < |log| && log[p].Released? ==> ReleaseJustified(log, p)
  }

  lemma ReleaseCases(m: Monitor, e: Event)
    requires Step(m, e).Some? && e.Released?
    ensures m.phase.Fading? && m.phase.cmd.Crossfade?
    ensures
      || (m.phase.stage.Sweeping? && m.phase.stage.window == e.entry.window)
      || m.phase.stage.Closing?
      || m.phase.drawn == m.phase.cmd.frames
  {}

  lemma DropsTouchNoOthers(log: seq<Event>)
    requires Track(log).Some?
    ensures OthersUntouched(log)
  {
    hide Step;
    forall p | 0 <= p < |log| && log[p].Released? ensures ReleaseJustified(log, p) {
      FadingWhen(log, p);
      ReleaseCases(Track(log[..p]).value, log[p]);
      SweepIsKnown(log[..p]);
    }
  }

  /** A reported target drop was asked for in this epoch, released something, and left nothing of its
      window. */
  ghost predicate DropsReportedAfterRelease(log: seq<Event>) {
    forall q :: 0 <= q < |log| && log[q].TargetDropped? ==>
      && log[q].i < |Commands(log)| && Commands(log)[log[q].i].Crossfade?
      && Commands(log)[log[q].i].epoch == log[q].epoch
      && exists p: nat :: p < q && DropAt(log, p, log[q].i, log[q].window) &&
                        SweptAt(log, p, q, log[q].i, log[q].window)
  }

  lemma ReportCases(m: Monitor, e: Event)
    requires Step(m, e).Some? && e.TargetDropped?
    ensures m.phase.Fading? && m.phase.cmd.Crossfade? && m.phase.cmd.epoch == e.epoch
    ensures m.phase.stage == Sweeping(e.window, true)
  {}

  lemma DropsReported(log: seq<Event>)
    requires Track(log).Some?
    ensures DropsReportedAfterRelease(log)
  {
    hide Step, SweptAt;
    forall q | 0 <= q < |log| && log[q].TargetDropped?
      ensures log[q].i < |Commands(log)| && Commands(log)[log[q].i].Crossfade?
      ensures Commands(log)[log[q].i].epoch == log[q].epoch
      ensures exists p: nat ::
                p < q && DropAt(log, p, log[q].i, log[q].window) && SweptAt(log, p, q, log[q].i, log[q].window)
    {
      var before, i, window := log[..q], log[q].i, log[q].window;
      FadingWhen(log, q);
      ReportCases(Track(before).value, log[q]);
      SweepIsKnown(before);
      var p: nat :| SweepSince(before, p, i, window);
      DropAtLater(log, q, p, i, window);
      assert forall k :: 0 <= k < q ==> before[k] == log[k];
      SweptHolds(log, p, q, i, window);
    }
  }

  lemma DropAtLater(log: seq<Event>, q: nat, p: nat, i: nat, window: nat)
    requires Track(log).Some? && q <= |log| && DropAt(log[..q], p, i, window)
    ensures DropAt(log, p, i, window)
  {
    PrefixCommands(log, q);
    DuringPrefix(log, q, p, i);
  }

  // ------------------------------------------------- completion and barriers

  lemma {:induction false} TakenRecorded(log: seq<Event>, i: nat)
    requires Track(log).Some? && i < |Commands(log)|
    ensures Taken(i, Commands(log)[i]) in log
  {
    var front, e := log[..|log| - 1], log[|log| - 1];
    PhaseConsistent(front);
    if i < |Commands(front)| {
      TakenRecorded(front, i);
    } else {
      assert e == Taken(i, Commands(log)[i]);
    }
  }

  lemma AnsweredStays(log: seq<Event>, r: nat, k: nat, i: nat, p: nat)
    requires Track(log).Some? && r <= |log| && AnsweredAt(log[..r], k, i, p)
    ensures AnsweredAt(log, k, i, p)
  {
    PrefixCommands(log, r);
    DuringPrefix(log, r, p, i);
    var cmd := Commands(log)[k];
    if cmd.DropCrossfadeTarget? && cmd.epoch == Commands(log)[i].epoch {
      var q :| p < q <= r && AllReleased(log[..r][..q], i, Commands(log)[i], cmd.window);
      assert log[..r][..q] == log[..q];
    }
  }

  lemma ConcludedStays(log: seq<Event>, r: nat, k: nat)
    requires Track(log).Some? && r <= |log| && Concluded(log[..r], k)
    ensures Concluded(log, k)
  {
    PrefixCommands(log, r);
    if p :| 0 <= p < r && Concludes(log[..r][p], k, Commands(log[..r])[k]) {
      assert log[p] == log[..r][p];
    } else {
      var i, p :| AnsweredAt(log[..r], k, i, p);
      AnsweredStays(log, r, k, i, p);
    }
  }

  /** Completion answers every abort and drop the fade received. */
  lemma CompletionAnswers(front: seq<Event>, m: Monitor, e: Event, k: nat)
    requires Track(front) == Some(m) && Consistent(Commands(front), m)
    requires e.Completed? && m.phase.Fading? && m.phase.i == e.i && m.phase.cmd.Crossfade?
    requires m.phase.cmd.epoch == e.epoch && m.phase.owned == multiset{}
    requires e.i < k < m.next && FadeOnly(Commands(front)[k])
    ensures Concluded(front + [e], k)
  {
    hide Step, EndedEarly;
    FadeIsKnown(front);
    assert TakenDuring(front, k, e.i);
    var p :| 0 <= p < |front| && front[p] == Taken(k, Commands(front)[k]) && DuringFade(front, p, e.i);
    forall window ensures AllReleased(front, e.i, m.phase.cmd, window) {
      AllReleasedWhen(front, e.i, m.phase.cmd, window);
    }
    hide AllReleased;
    AnswerComplete(front, e, k, p, m.phase.cmd);
  }

  lemma AnswerComplete(front: seq<Event>, e: Event, k: nat, p: nat, cmd: Command)
    requires e.Completed? && e.i < k < |Commands(front)| && p < |front|
    requires Commands(front)[e.i] == cmd && cmd.Crossfade? && cmd.epoch == e.epoch && FadeOnly(Commands(front)[k])
    requires front[p] == Taken(k, Commands(front)[k]) && DuringFade(front, p, e.i)
    requires forall window :: AllReleased(front, e.i, cmd, window)
    ensures Concluded(front + [e], k)
  {
    var log := front + [e];
    assert log[..|log| - 1] == front && log[..|front|] == front;
    assert Commands(log) == Commands(front) && log[p] == front[p] && log[|front|] == e;
    DuringExtends(front, e, p, e.i);
    assert e in log;
    hide AllReleased, DuringFade;
    assert AnsweredAt(log, k, e.i, p);
  }

  lemma CompletedStep(m: Monitor, e: Event)
    requires Step(m, e).Some? && e.Completed?
    ensures m.phase.Fading? && m.phase.i == e.i && m.phase.cmd.Crossfade?
    ensures m.phase.cmd.epoch == e.epoch && m.phase.owned == multiset{}
    ensures m.phase.stash.Some? && 0 < m.next ==> Step(m, e).value.phase == Holding(m.next - 1, m.phase.stash.value)
    ensures Step(m, e).value.next == m.next
  {}

  /** Outside the completion of a fade, a command in hand stays there until it is concluded. */
  lemma StepConcludes(cmds: seq<Command>, m: Monitor, e: Event, k: nat)
    requires Consistent(cmds, m) && Step(m, e).Some? && !e.Completed?
    requires k < |cmds| + if e.Taken? then 1 else 0
    ensures
      var all := cmds + if e.Taken? then [e.cmd] else [];
      || InHand(Step(m, e).value, k)
      || Concludes(e, k, all[k])
      || (k < m.next && !InHand(m, k))
  {
    hide Curves.CrossfadeOpacity, Owns;
    match e
    case Taken(_, _) =>
    case _ =>
  }

  /** Every command taken is in the worker's hands or has been dealt with in full: aborts and drops
      included, whose effect on the running fade is part of that. */
  lemma {:induction false} NothingLost(log: seq<Event>, k: nat)
    requires Track(log).Some? && k < |Commands(log)|
    ensures InHand(Track(log).value, k) || Concluded(log, k)
  {
    hide Step;
    var front, e := log[..|log| - 1], log[|log| - 1];
    var m := Track(front).value;
    PhaseConsistent(front);
    if k < |Commands(front)| {
      NothingLost(front, k);
      if Concluded(front, k) { ConcludedStays(log, |log| - 1, k); }
    }
    if e.Completed? {
      CompletedStep(m, e);
      if InHand(m, k) {
        assert log == front + [e];
        CompletionConcludes(front, m, e, k);
      }
    } else {
      StepConcludes(Commands(front), m, e, k);
    }
  }

  lemma ConcludedByLast(log: seq<Event>, k: nat)
    requires log != [] && k < |Commands(log)| && Concludes(log[|log| - 1], k, Commands(log)[k])
    ensures Concluded(log, k)
  {}

  /** What a completion leaves in hand is the command that preempted the fade. */
  lemma CompletionHands(cmds: seq<Command>, m: Monitor, e: Event, k: nat)
    requires Consistent(cmds, m) && e.Completed? && Step(m, e).Some? && InHand(m, k)
    ensures m.phase.Fading? && m.phase.i == e.i <= k < |cmds| == m.next
    ensures k == e.i || FadeOnly(cmds[k]) || InHand(Step(m, e).value, k)
    ensures k == e.i ==> Concludes(e, k, cmds[k])
  {}

  lemma CompletionConcludes(front: seq<Event>, m: Monitor, e: Event, k: nat)
    requires Track(front) == Some(m) && Step(m, e).Some? && Consistent(Commands(front), m)
    requires e.Completed? && InHand(m, k)
    ensures InHand(Step(m, e).value, k) || Concluded(front + [e], k)
  {
    hide Step, Concluded, Consistent, InHand, Concludes;
    CompletionHands(Commands(front), m, e, k);
    if k == e.i {
      SameCommands(front, e);
      ConcludedByLast(front + [e], k);
    } else if FadeOnly(Commands(front)[k]) {
      CompletedStep(m, e);
      CompletionAnswers(front, m, e, k);
    }
  }

  lemma SameCommands(front: seq<Event>, e: Event)
    requires !e.Taken?
    ensures Commands(front + [e]) == Commands(front)
  {
    assert (front + [e])[..|front|] == front;
  }

  /** A barrier is acknowledged only when every command sent before it has been dealt with. */
  ghost predicate BarriersSound(log: seq<Event>) {
    forall p, i :: 0 <= p < |log| && log[p].Acknowledged? && 0 <= i < log[p].i ==> Concluded(log[..p], i)
  }

  lemma BarriersAreSound(log: seq<Event>)
    requires Track(log).Some?
    ensures BarriersSound(log)
  {
    forall p, i | 0 <= p < |log| && log[p].Acknowledged? && 0 <= i < log[p].i
      ensures Concluded(log[..p], i)
    {
      Before(log, p);
      NothingLost(log[..p], i);
    }
  }

  /** The client's side of a barrier, which fails to queue only once the worker has returned:
      either that, or barrier number `j` was acknowledged before the deadline. */
  ghost predicate WaitForBarrier(log: seq<Event>, j: nat) { Exited in log || Acknowledged(j) in log }

  /** `sent` is everything queued so far, of which the worker has taken a prefix. */
  lemma BarrierWaitSound(sent: seq<Command>, log: seq<Event>, j: nat, i: nat)
    requires Track(log).Some? && Commands(log) <= sent
    requires j < |sent| && sent[j] == Barrier && i < j
    requires WaitForBarrier(log, j)
    ensures || (Exited in log && Acknowledged(j) !in log)
            || (Concluded(log, i) && Commands(log)[i] == sent[i] && sent[i] != Shutdown)
  {
    if Acknowledged(j) in log {
      var p :| 0 <= p < |log| && log[p] == Acknowledged(j);
      BarriersAreSound(log);
      hide Step, AnsweredAt;
      ConcludedStays(log, p, i);
      if sent[i] == Shutdown {
        Before(log, p);
        var q :| 0 <= q < p && log[..p][q] == Exited by { ShutdownExits(log[..p], i); }
        GoneIsFinal(log[..p], q);
        GoneAcceptsNothing(Track(log[..p]).value, log[p]);
      }
    }
  }

  lemma ShutdownExits(log: seq<Event>, i: nat)
    requires Concluded(log, i) && Commands(log)[i] == Shutdown
    ensures exists q :: 0 <= q < |log| && log[q] == Exited
  {}

  lemma GoneAcceptsNothing(m: Monitor, e: Event)
    requires m.phase == Gone
    ensures Step(m, e).None?
  {}

  lemma {:induction false} GoneIsFinal(log: seq<Event>, p: nat)
    requires Track(log).Some? && p < |log| && log[p] == Exited
    ensures p == |log| - 1 && Track(log).value.phase == Gone
  {
    if p < |log| - 1 { GoneIsFinal(log[..|log| - 1], p); }
  }

  /** Why the worker leaves: every client is gone, or a frame's report could not be delivered. */
  predicate Leaves(e: Event) { e.ChannelClosed? || (e.Reported? && !e.delivered) }

  /** The worker exits only on a shutdown command, or right after the channel closed or a report could
      not be delivered; and then it does nothing else first. */
  ghost predicate ExitsExplained(log: seq<Event>) {
    forall p :: 0 <= p < |log| ==>
      && (log[p].Exited? ==>
            || (1 <= p && Leaves(log[p - 1]))
            || (Commands(log[..p]) != [] && Commands(log[..p])[|Commands(log[..p])| - 1] == Shutdown))
      && (1 <= p && Leaves(log[p - 1]) ==> log[p].Exited?)
  }

  lemma LeavingStep(m: Monitor, e: Event)
    requires Step(m, e).Some?
    ensures Step(m, e).value.phase.Leaving? <==> Leaves(e)
  {
    hide Curves.CrossfadeOpacity, Owns;
  }

  lemma ExitStep(m: Monitor, e: Event)
    requires Step(m, e).Some?
    ensures e.Exited? ==> m.phase.Leaving? || (m.phase.Holding? && m.phase.cmd.Shutdown?)
    ensures m.phase.Leaving? ==> e.Exited?
  {
    hide Curves.CrossfadeOpacity, Owns;
  }

  lemma ExitsAreExplained(log: seq<Event>)
    requires Track(log).Some?
    ensures ExitsExplained(log)
  {
    hide Step, Commands;
    forall p | 0 <= p < |log|
      ensures log[p].Exited? ==>
                || (1 <= p && Leaves(log[p - 1]))
                || (Commands(log[..p]) != [] && Commands(log[..p])[|Commands(log[..p])| - 1] == Shutdown)
      ensures 1 <= p && Leaves(log[p - 1]) ==> log[p].Exited?
    {
      Before(log, p);
      ExitStep(Track(log[..p]).value, log[p]);
      if 1 <= p { LeavingBefore(log, p); } else { assert log[..p] == []; }
    }
  }

  lemma LeavingBefore(log: seq<Event>, p: nat)
    requires Track(log).Some? && 1 <= p <= |log|
    ensures Track(log[..p]).Some? && (Track(log[..p]).value.phase.Leaving? <==> Leaves(log[p - 1]))
  {
    hide Step;
    PrefixTracks(log, p);
    LastStep(log[..p], log[..p - 1], log[p - 1]);
    LeavingStep(Track(log[..p - 1]).value, log[p - 1]);
    assert log[..p][..p - 1] == log[..p - 1];
  }

  // ------------------------------------------------------------------ frames

  /** Three reads that all agree with frame `cmd`, number `i`. */
  function Agreeing(i: nat, cmd: Command): (r: seq<Event>)
    requires cmd.Frame?
    ensures |r| == 3
  {
    [CancelRead(i, false), DispatchRead(i, cmd.request), InvalidationRead(i, cmd.invalidation)]
  }

  /** Just before event `n` came the first `k` of those reads. */
  ghost predicate Agreed(log: seq<Event>, n: nat, k: nat, i: nat, cmd: Command)
    requires cmd.Frame?
  {
    k <= 3 && k <= n <= |log| && forall j :: 0 <= j < k ==> log[n - k + j] == Agreeing(i, cmd)[j]
  }

  /** Event `n` is the read that disowned the frame: those before it agreed, and it does not. */
  ghost predicate DisownedAt(log: seq<Event>, n: nat, i: nat, cmd: Command)
    requires cmd.Frame?
  {
    && n < |log|
    && match log[n]
       case CancelRead(j, cancelled) => i == j && cancelled
       case DispatchRead(j, dispatch) => i == j && dispatch != cmd.request && Agreed(log, n, 1, i, cmd)
       case InvalidationRead(j, value) => i == j && value != cmd.invalidation && Agreed(log, n, 2, i, cmd)
       case _ => false
  }

  /** What the last events say of the frame in hand. */
  ghost predicate CheckKnown(log: seq<Event>, i: nat, cmd: Command, check: Check)
    requires cmd.Frame?
  {
    var n := |log|;
    match check
    case Uncancelled => Agreed(log, n, 1, i, cmd)
    case Newest => Agreed(log, n, 2, i, cmd)
    case Current => Agreed(log, n, 3, i, cmd)
    case Placed => 1 <= n && log[n - 1] == Moved(i, cmd.request) && Agreed(log, n - 1, 3, i, cmd)
    case Disowned => 1 <= n && DisownedAt(log, n - 1, i, cmd)
  }

  ghost predicate FrameKnown(log: seq<Event>, m: Monitor) {
    m.phase.Framing? && m.phase.cmd.Frame? ==> CheckKnown(log, m.phase.i, m.phase.cmd, m.phase.check)
  }

  /** What makes a frame's state what it is. */
  lemma FrameStepBack(m: Monitor, e: Event)
    requires Step(m, e).Some? && Step(m, e).value.phase.Framing?
    ensures
      var f := Step(m, e).value.phase;
      && f.cmd.Frame? && (!e.CancelRead? ==> m.phase.Framing? && m.phase.i == f.i && m.phase.cmd == f.cmd)
      && match f.check
         case Uncancelled => e == CancelRead(f.i, false)
         case Newest => m.phase.check == Uncancelled && e == DispatchRead(f.i, f.cmd.request)
         case Current => m.phase.check == Newest && e == InvalidationRead(f.i, f.cmd.invalidation)
         case Placed => m.phase.check == Current && e == Moved(f.i, f.cmd.request)
         case Disowned =>
           || e == CancelRead(f.i, true)
           || (m.phase.check == Uncancelled && e.DispatchRead? && e.i == f.i && e.dispatch != f.cmd.request)
           || (m.phase.check == Newest && e.InvalidationRead? && e.i == f.i && e.value != f.cmd.invalidation)
  {
    hide Curves.CrossfadeOpacity, Owns;
  }

  lemma AgreedExtends(front: seq<Event>, e: Event, n: nat, k: nat, i: nat, cmd: Command)
    requires cmd.Frame? && Agreed(front, n, k, i, cmd)
    ensures Agreed(front + [e], n, k, i, cmd)
    ensures n == |front| && k < 3 && e == Agreeing(i, cmd)[k] ==> Agreed(front + [e], n + 1, k + 1, i, cmd)
  {}

  lemma FrameGrows(front: seq<Event>, m: Monitor, e: Event, m': Monitor)
    requires Step(m, e) == Some(m') && m'.phase.Framing? && FrameKnown(front, m)
    ensures FrameKnown(front + [e], m')
  {
    FrameStepBack(m, e);
    hide Step, Agreed;
    var i, cmd, n := m'.phase.i, m'.phase.cmd, |front|;
    assert (front + [e])[n] == e;
    match m'.phase.check
    case Uncancelled => AgreedFirst(front, e, i, cmd);
    case Newest => AgreedExtends(front, e, n, 1, i, cmd);
    case Current => AgreedExtends(front, e, n, 2, i, cmd);
    case Placed => AgreedExtends(front, e, n, 3, i, cmd);
    case Disowned =>
      if e.DispatchRead? { AgreedExtends(front, e, n, 1, i, cmd); }
      if e.InvalidationRead? { AgreedExtends(front, e, n, 2, i, cmd); }
  }

  lemma AgreedFirst(front: seq<Event>, e: Event, i: nat, cmd: Command)
    requires cmd.Frame? && e == CancelRead(i, false)
    ensures Agreed(front + [e], |front| + 1, 1, i, cmd)
  {}

  lemma {:induction false} FrameIsKnown(log: seq<Event>)
    requires Track(log).Some?
    ensures FrameKnown(log, Track(log).value)
  {
    hide Step;
    if log != [] && Track(log).value.phase.Framing? {
      var front, e := log[..|log| - 1], log[|log| - 1];
      FrameIsKnown(front);
      assert log == front + [e];
      FrameGrows(front, Track(front).value, e, Track(log).value);
    }
  }

  /** A frame reads one counter after the other for as long as they agree with it. Windows move only
      right after three reads that agree, and a frame reports its own ids, right after moving windows or
      right after a read that disowned it. */
  ghost predicate FrameHonest(cmds: seq<Command>, log: seq<Event>, p: nat)
    requires p < |log|
  {
    && (FrameEvent(log[p]) ==> log[p].i < |cmds| && cmds[log[p].i].Frame?)
    && (log[p].DispatchRead? ==> Agreed(log, p, 1, log[p].i, cmds[log[p].i]))
    && (log[p].InvalidationRead? ==> Agreed(log, p, 2, log[p].i, cmds[log[p].i]))
    && (log[p].Moved? ==> log[p].request == cmds[log[p].i].request && Agreed(log, p, 3, log[p].i, cmds[log[p].i]))
    && (log[p].Reported? ==>
          && cmds[log[p].i] == Frame(log[p].request, log[p].invalidation) && 1 <= p
          && (log[p - 1] == Moved(log[p].i, log[p].request) || DisownedAt(log, p - 1, log[p].i, cmds[log[p].i])))
  }

  predicate FrameRead(e: Event) { e.CancelRead? || e.DispatchRead? || e.InvalidationRead? }

  predicate FrameEvent(e: Event) { FrameRead(e) || e.Moved? || e.Reported? }

  ghost predicate FramesHonest(log: seq<Event>) {
    forall p :: 0 <= p < |log| ==> FrameHonest(Commands(log), log, p)
  }

  lemma FrameEventFrames(m: Monitor, e: Event)
    requires Step(m, e).Some? && FrameEvent(e)
    ensures if e.CancelRead? then m.phase.Holding? && m.phase.i == e.i && m.phase.cmd.Frame?
            else m.phase.Framing? && m.phase.i == e.i && m.phase.cmd.Frame?
    ensures
      match e
      case DispatchRead(_, _) => m.phase.check == Uncancelled
      case InvalidationRead(_, _) => m.phase.check == Newest
      case Moved(i, request) => m.phase.check == Current && request == m.phase.cmd.request
      case Reported(_, request, invalidation, _) =>
        (m.phase.check.Disowned? || m.phase.check.Placed?) && m.phase.cmd == Frame(request, invalidation)
      case _ => true
  {}

  lemma FramesAreHonest(log: seq<Event>)
    requires Track(log).Some?
    ensures FramesHonest(log)
  {
    hide Step;
    forall p | 0 <= p < |log| ensures FrameHonest(Commands(log), log, p) {
      if FrameEvent(log[p]) {
        Before(log, p);
        FrameIsKnown(log[..p]);
        FrameEventFrames(Track(log[..p]).value, log[p]);
        KnownBefore(log, p, Track(log[..p]).value);
      }
    }
  }

  lemma AgreedPrefix(log: seq<Event>, p: nat, n: nat, k: nat, i: nat, cmd: Command)
    requires cmd.Frame? && n <= p <= |log| && Agreed(log[..p], n, k, i, cmd)
    ensures Agreed(log, n, k, i, cmd)
  {}

  lemma KnownBefore(log: seq<Event>, p: nat, m: Monitor)
    requires p < |log| && FrameKnown(log[..p], m) && (m.phase.Framing? ==> m.phase.cmd.Frame?)
    ensures m.phase.Framing? ==>
      var i, cmd := m.phase.i, m.phase.cmd;
      match m.phase.check
      case Uncancelled => Agreed(log, p, 1, i, cmd)
      case Newest => Agreed(log, p, 2, i, cmd)
      case Current => Agreed(log, p, 3, i, cmd)
      case Placed => 1 <= p && log[p - 1] == Moved(i, cmd.request)
      case Disowned => 1 <= p && DisownedAt(log, p - 1, i, cmd)
  {
    if m.phase.Framing? {
      var i, cmd := m.phase.i, m.phase.cmd;
      assert forall k :: 0 <= k < p ==> log[..p][k] == log[k];
    }
  }

  /** The read with which a frame started, some events before event `p`. */
  lemma FrameStart(log: seq<Event>, p: nat) returns (s: nat)
    requires FramesHonest(log) && p < |log| && (FrameRead(log[p]) || log[p].Moved?)
    ensures s <= p && log[s].CancelRead? && log[s].i == log[p].i && p == s + ReadsBefore(log[p])
  {
    assert FrameHonest(Commands(log), log, p);
    s := p - ReadsBefore(log[p]);
    var i := log[p].i;
    assert !log[p].CancelRead? ==> Agreeing(i, Commands(log)[i])[0] == CancelRead(i, false);
  }

  /** How many reads of the same frame come before this event of it. */
  function ReadsBefore(e: Event): nat {
    match e
    case CancelRead(_, _) => 0
    case DispatchRead(_, _) => 1
    case InvalidationRead(_, _) => 2
    case _ => 3
  }

  /** A frame that any of its reads disowned never moves a window, then or later. */
  lemma StaleFrameMovesNothing(log: seq<Event>, p: nat, q: nat)
    requires Track(log).Some? && p < |log| && q < |log| && FrameRead(log[p]) && log[q].Moved?
    requires log[p].i == log[q].i
    ensures p < q && log[p].i < |Commands(log)| && Commands(log)[log[p].i].Frame?
    ensures log[p] in Agreeing(log[p].i, Commands(log)[log[p].i])
  {
    FramesAreHonest(log);
    EffectsInSendOrder(log);
    assert FrameHonest(Commands(log), log, q);
    var s := FrameStart(log, p);
    var t := FrameStart(log, q);
    assert s == t;
    assert log[p] == Agreeing(log[q].i, Commands(log)[log[q].i])[p - s];
  }

  // -------------------------------------------------------------- everything

  ghost predicate Safe(log: seq<Event>) {
    && InSendOrder(log) && CompletedReleased(log) && NoUseAfterRelease(log)
    && FadesRunTheirCourse(log) && EndedFadesStop(log) && OpacityFollowsCurve(log)
    && IterationsComplete(log) && OthersUntouched(log) && DropsSwept(log) && DropsReportedAfterRelease(log)
    && BarriersSound(log) && FramesHonest(log) && ExitsExplained(log)
  }

  lemma AcceptedIsSafe(log: seq<Event>)
    requires Track(log).Some?
    ensures Safe(log)
  {
    hide Track, InSendOrder, CompletedReleased, NoUseAfterRelease, FadesRunTheirCourse, EndedFadesStop;
    hide OpacityFollowsCurve, OthersUntouched, DropsSwept, DropsReportedAfterRelease, BarriersSound, FramesHonest;
    hide IterationsComplete, ExitsExplained;
    EffectsInSendOrder(log);
    CompletedHasReleased(log);
    ReleasedNotUsed(log);
    FadesRun(log);
    EndedStop(log);
    RedrawsFollowCurve(log);
    IterationsAreComplete(log);
    ExitsAreExplained(log);
    DropsTouchNoOthers(log);
    DropsAreSwept(log);
    DropsReported(log);
    BarriersAreSound(log);
    FramesAreHonest(log);
  }

  /** A fade that began either is still running or has announced completion. */
  lemma FadeCompletes(log: seq<Event>, p: nat)
    requires Track(log).Some? && p < |log| && log[p].Began?
    requires !(Track(log).value.phase.Fading? && Track(log).value.phase.i == log[p].i)
    ensures log[p].i < |Commands(log)| && Commands(log)[log[p].i].Crossfade?
    ensures Completed(log[p].i, Commands(log)[log[p].i].epoch) in log
  {
    Before(log, p);
    EffectsBounded(log);
    PhaseConsistent(log);
    hide Step;
    NothingLost(log, log[p].i);
  }
}
