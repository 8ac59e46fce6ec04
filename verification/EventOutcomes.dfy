/** What the two modes with workspace state forward and how they end, whatever comes in: told from the
    grammar of the stream, and not from the recogniser. */
module EventOutcomes {
  import opened Prelude
  import opened EventStream
  import opened EventLanguage

  // ------------------------------------------------------------------ the grammar

  /** The beginning of a snapshot, its chunks and its end, all of one revision. */
  predicate IsSnapshot(events: seq<Event>) {
    |events| >= 2 && events[0].Begin? && Ends(events[1..], events[0].revision, |events| - 2)
  }

  /** What completes a stream that has the given snapshot open: a query waits for one snapshot, a
      subscription for ordinary events and whole snapshots. */
  ghost predicate Completing(mode: Mode, open: Option<nat>, events: seq<Event>) {
    if mode.Live? then Completes(events, open)
    else
      match open
      case None => IsSnapshot(events)
      case Some(r) => events != [] && Ends(events, r, |events| - 1)
  }

  /** These events can be continued to a complete stream. */
  ghost predicate Viable(mode: Mode, open: Option<nat>, events: seq<Event>) {
    exists suffix: seq<Event> {:trigger events + suffix} :: Completing(mode, open, events + suffix)
  }

  /** The first `n` frames parse and are viable, and one more is not. */
  ghost predicate Longest(mode: Mode, parse: Parser, frames: seq<Frame>, open: Option<nat>, n: nat) {
    && n <= |frames| && AllParse(parse, frames[..n]) && Viable(mode, open, Events(parse, frames[..n]))
    && (n < |frames| ==>
          parse(frames[n]).None? ||
          (AllParse(parse, frames[..n + 1]) && !Viable(mode, open, Events(parse, frames[..n + 1]))))
  }

  /** What is forwarded, and how it ends, if the first `n` frames are all that is viable: those frames, and
      a snapshot error or a lag notice that follows them; no frame that is mismatched or does not
      parse. */
  ghost function Answer(mode: Mode, parse: Parser, frames: seq<Frame>, why: Ending, open: Option<nat>,
      n: nat): (seq<Frame>, Outcome)
    requires n <= |frames| && AllParse(parse, frames[..n])
  {
    var complete := Completing(mode, open, Events(parse, frames[..n]));
    if mode.Query? && complete then (frames[..n], Done)
    else if n == |frames| then
      (frames, if why != Finished then Failed(Unreadable(why))
               else if mode.Live? && complete then Done else Failed(Disconnected))
    else
      match parse(frames[n])
      case None => (frames[..n], Failed(Unparseable))
      case Some(SnapshotError) => (frames[..n + 1], Failed(SnapshotFailed))
      case Some(Lagged) =>
        if mode.Live? then (frames[..n + 1], Failed(FellBehind)) else (frames[..n], Failed(Mismatched))
      case _ => (frames[..n], Failed(Mismatched))
  }

  // ---------------------------------------------------------------- one event more

  /** The recogniser's verdict on one event decides whether a stream that starts with it is complete. */
  lemma CompletingStep(mode: Mode, open: Option<nat>, e: Event, rest: seq<Event>)
    requires !mode.Plain?
    ensures
      Completing(mode, open, [e] + rest) <==>
        match Judge(mode, open, Some(e))
        case Pass(open') => Completing(mode, open', rest)
        case Stop(outcome) => outcome == Done && rest == []
        case _ => false
  {
    var events := [e] + rest;
    assert events[0] == e && events[1..] == rest;
    if mode.Live? {
      CompletesStep(events, open);
    } else if open.Some? {
      QueryStep(e, rest, open.value);
    }
  }

  lemma QueryStep(e: Event, rest: seq<Event>, r: nat)
    ensures Ends([e] + rest, r, |rest|) <==>
            (e == Chunk(r) && rest != [] && Ends(rest, r, |rest| - 1)) || (e == End(r) && rest == [])
  {
    var events := [e] + rest;
    assert forall i :: 1 <= i < |events| ==> events[i] == rest[i - 1];
    assert events[0] == e;
    if e == Chunk(r) && rest != [] && Ends(rest, r, |rest| - 1) {
      assert forall i :: 1 <= i < |rest| ==> events[i] == rest[i - 1] == Chunk(r);
    }
    if Ends(events, r, |rest|) && rest != [] {
      assert forall i :: 0 <= i < |rest| - 1 ==> rest[i] == events[i + 1];
    }
  }

  /** Nothing is ruled out before the first event. */
  lemma NothingViable(mode: Mode, open: Option<nat>)
    requires !mode.Plain?
    ensures Viable(mode, open, [])
  {
    var suffix := if open.Some? then [End(open.value)] else if mode.Live? then [] else [Begin(0), End(0)];
    if mode.Live? {
      assert Whole([]);
      if open.Some? { assert Ends(suffix, open.value, 0) && suffix[0 + 1..] == []; }
    }
    assert Completing(mode, open, suffix);
    assert [] + suffix == suffix;
  }

  lemma ViableStep(mode: Mode, open: Option<nat>, e: Event, rest: seq<Event>)
    requires !mode.Plain?
    ensures
      Viable(mode, open, [e] + rest) <==>
        match Judge(mode, open, Some(e))
        case Pass(open') => Viable(mode, open', rest)
        case Stop(outcome) => outcome == Done && rest == []
        case _ => false
  {
    hide Completing, Judge;
    forall suffix: seq<Event>
      ensures [e] + rest + suffix == [e] + (rest + suffix)
      ensures Completing(mode, open, [e] + rest + suffix) <==>
                match Judge(mode, open, Some(e))
                case Pass(open') => Completing(mode, open', rest + suffix)
                case Stop(outcome) => outcome == Done && rest + suffix == []
                case _ => false
    {
      assert [e] + rest + suffix == [e] + (rest + suffix);
      CompletingStep(mode, open, e, rest + suffix);
    }
    if Judge(mode, open, Some(e)).Stop? && rest == [] { assert [e] + rest + [] == [e] + rest; }
    var verdict := Judge(mode, open, Some(e));
    if verdict.Pass? && Viable(mode, verdict.open, rest) {
      var suffix :| Completing(mode, verdict.open, rest + suffix);
      assert Completing(mode, open, [e] + rest + suffix);
    }
    if verdict.Stop? && verdict.outcome == Done && rest == [] {
      assert Completing(mode, open, [e] + rest + []) by { CompletingStep(mode, open, e, []); }
    }
  }

  // ------------------------------------------------------------- the whole stream

  lemma {:induction false} LongestExists(mode: Mode, parse: Parser, frames: seq<Frame>, open: Option<nat>)
    returns (n: nat)
    requires !mode.Plain?
    ensures Longest(mode, parse, frames, open, n)
  {
    hide Viable;
    n := 0;
    assert Events(parse, frames[..0]) == [];
    NothingViable(mode, open);
    while n < |frames| && parse(frames[n]).Some? && Viable(mode, open, Events(parse, frames[..n + 1]))
      invariant n <= |frames| && AllParse(parse, frames[..n]) && Viable(mode, open, Events(parse, frames[..n]))
      decreases |frames| - n
    {
      n := n + 1;
    }
  }

  lemma EventsFirst(parse: Parser, frames: seq<Frame>, n: nat)
    requires 0 < n <= |frames|
    ensures frames[..n] == [frames[0]] + frames[1..][..n - 1]
    ensures AllParse(parse, frames[..n]) <==> parse(frames[0]).Some? && AllParse(parse, frames[1..][..n - 1])
    ensures AllParse(parse, frames[..n]) ==>
              Events(parse, frames[..n]) == [parse(frames[0]).value] + Events(parse, frames[1..][..n - 1])
  {
    var front := frames[..n];
    assert front[1..] == frames[1..][..n - 1];
    EventsTail(parse, front);
  }

  /** Passing one frame on leaves the rest of the stream to be judged as before. */
  lemma LongestTail(mode: Mode, parse: Parser, frames: seq<Frame>, open: Option<nat>, n: nat)
    requires !mode.Plain? && frames != [] && parse(frames[0]).Some? && Longest(mode, parse, frames, open, n)
    requires Judge(mode, open, parse(frames[0])).Pass?
    ensures 0 < n && Longest(mode, parse, frames[1..], Judge(mode, open, parse(frames[0])).open, n - 1)
  {
    hide Viable, Judge;
    var e, rest, open' := parse(frames[0]).value, frames[1..], Judge(mode, open, parse(frames[0])).open;
    if n == 0 {
      EventsFirst(parse, frames, 1);
      assert rest[..0] == [] && Events(parse, []) == [];
      ViableStep(mode, open, e, []);
      NothingViable(mode, open');
    } else {
      EventsFirst(parse, frames, n);
      ViableStep(mode, open, e, Events(parse, rest[..n - 1]));
      if n < |frames| {
        EventsFirst(parse, frames, n + 1);
        if parse(frames[n]).Some? { ViableStep(mode, open, e, Events(parse, rest[..n])); }
      }
    }
  }

  lemma AnswerTail(mode: Mode, parse: Parser, frames: seq<Frame>, why: Ending, open: Option<nat>, n: nat)
    requires !mode.Plain? && 0 < n <= |frames| && AllParse(parse, frames[..n])
    requires parse(frames[0]).Some? && Judge(mode, open, parse(frames[0])).Pass?
    requires AllParse(parse, frames[1..][..n - 1])
    ensures
      var (more, outcome) :=
        Answer(mode, parse, frames[1..], why, Judge(mode, open, parse(frames[0])).open, n - 1);
      Answer(mode, parse, frames, why, open, n) == ([frames[0]] + more, outcome)
  {
    hide Completing, Judge;
    EventsFirst(parse, frames, n);
    CompletingStep(mode, open, parse(frames[0]).value, Events(parse, frames[1..][..n - 1]));
    if n < |frames| { EventsFirst(parse, frames, n + 1); }
    assert [frames[0]] + frames[1..] == frames;
  }

  /** Where the viable frames end if the first is not passed on. */
  lemma LongestHere(mode: Mode, parse: Parser, frames: seq<Frame>, open: Option<nat>, n: nat)
    requires !mode.Plain? && frames != [] && Longest(mode, parse, frames, open, n)
    requires !Judge(mode, open, parse(frames[0])).Pass?
    ensures n == if Judge(mode, open, parse(frames[0])) == Stop(Done) then 1 else 0
  {
    hide Viable, Judge;
    if n > 0 {
      assert frames[..n][0] == frames[0];
      EventsFirst(parse, frames, n);
      ViableStep(mode, open, parse(frames[0]).value, Events(parse, frames[1..][..n - 1]));
    } else if parse(frames[0]).Some? {
      EventsFirst(parse, frames, 1);
      assert frames[1..][..0] == [] && Events(parse, []) == [];
      ViableStep(mode, open, parse(frames[0]).value, []);
    } else {
      Unparsed(mode, open);
    }
  }

  lemma Unparsed(mode: Mode, open: Option<nat>)
    requires !mode.Plain?
    ensures Judge(mode, open, None) == Refuse(Unparseable)
  {}

  /** A first frame that is not passed on ends the stream as the grammar says. */
  lemma AnswerHere(mode: Mode, parse: Parser, frames: seq<Frame>, why: Ending, open: Option<nat>, n: nat)
    requires !mode.Plain? && frames != [] && Longest(mode, parse, frames, open, n)
    requires !Judge(mode, open, parse(frames[0])).Pass?
    ensures Answer(mode, parse, frames, why, open, n) == Plan(mode, parse, frames, why, open)
  {
    LongestHere(mode, parse, frames, open, n);
    NotYetComplete(mode, parse, frames, open);
    if n == 1 {
      EventsFirst(parse, frames, 1);
      assert frames[1..][..0] == [];
      CompletingStep(mode, open, parse(frames[0]).value, []);
    }
    hide Viable, Completing;
    assert frames[..1] == [frames[0]];
  }

  /** Before the first event nothing is complete but an idle subscription. */
  lemma NotYetComplete(mode: Mode, parse: Parser, frames: seq<Frame>, open: Option<nat>)
    requires !mode.Plain?
    ensures frames[..0] == [] && Events(parse, []) == []
    ensures Completing(mode, open, []) <==> mode.Live? && open.None?
  {
    assert Whole([]);
  }

  lemma {:induction false} PlanAnswers(mode: Mode, parse: Parser, frames: seq<Frame>, why: Ending, open: Option<nat>,
      n: nat)
    requires !mode.Plain? && Longest(mode, parse, frames, open, n)
    ensures Plan(mode, parse, frames, why, open) == Answer(mode, parse, frames, why, open, n)
    decreases |frames|
  {
    hide Longest, Answer, Judge;
    if frames == [] {
      EmptyAnswer(mode, parse, why, open, n);
    } else {
      var verdict := Judge(mode, open, parse(frames[0]));
      if verdict.Pass? {
        PassedParses(mode, open, parse(frames[0]));
        LongestTail(mode, parse, frames, open, n);
        PlanAnswers(mode, parse, frames[1..], why, verdict.open, n - 1);
        LongestParses(mode, parse, frames, open, n);
        LongestParses(mode, parse, frames[1..], verdict.open, n - 1);
        AnswerTail(mode, parse, frames, why, open, n);
      } else {
        AnswerHere(mode, parse, frames, why, open, n);
      }
    }
  }

  lemma PassedParses(mode: Mode, open: Option<nat>, parsed: Option<Event>)
    requires !mode.Plain? && Judge(mode, open, parsed).Pass?
    ensures parsed.Some?
  {}

  lemma LongestParses(mode: Mode, parse: Parser, frames: seq<Frame>, open: Option<nat>, n: nat)
    requires Longest(mode, parse, frames, open, n)
    ensures n <= |frames| && AllParse(parse, frames[..n])
  {}

  lemma EmptyAnswer(mode: Mode, parse: Parser, why: Ending, open: Option<nat>, n: nat)
    requires !mode.Plain? && Longest(mode, parse, [], open, n)
    ensures Plan(mode, parse, [], why, open) == Answer(mode, parse, [], why, open, n)
  {
    NotYetComplete(mode, parse, [], open);
  }

  // -------------------------------------------------------------------- theorems

  /** Whatever comes in, both modes with workspace state forward exactly the viable frames, and an error
      event that follows them, and end as the first thing that is not viable says, if every write
      succeeds; else they stop at the failing write. */
  lemma StateModesExactly(mode: Mode, parse: Parser, rest: seq<Byte>, broken: bool, limits: Limits, written: seq<Byte>,
      n: nat)
    requires !mode.Plain? && Longest(mode, parse, Framed(rest, broken).0, None, n)
    ensures
      var (frames, why) := Framed(rest, broken);
      var (kept, ending) := Answer(mode, parse, frames, why, None, n);
      var (output, outcome) := Forwarded(mode, parse, rest, broken, None, limits, written);
      && written <= output <= written + Concat(kept)
      && ((outcome == ending && output == written + Concat(kept))
          || outcome == Failed(NotWritten) || outcome == Failed(NotFlushed))
      && (outcome == ending <==> kept == [] || Fits(limits, |written| + |Concat(kept)|))
  {
    hide Framed, Answer, Plan, Deliver, Fits, Concat, Viable, Events;
    var (frames, why) := Framed(rest, broken);
    PlanAnswers(mode, parse, frames, why, None, n);
    NeverAWriteFailure(mode, parse, frames, why, None, n);
    var (kept, ending) := Answer(mode, parse, frames, why, None, n);
    FramesNotEmpty(rest, broken, kept);
    DeliveredExactly(limits, written, kept, ending);
  }

  lemma FramesNotEmpty(rest: seq<Byte>, broken: bool, kept: seq<Frame>)
    requires kept <= Framed(rest, broken).0
    ensures forall i :: 0 <= i < |kept| ==> kept[i] != []
  {
    FramesPartition(rest, broken);
    hide Framed, Concat, NextFrame;
    forall i | 0 <= i < |kept| ensures kept[i] != [] { assert IsFrame(Framed(rest, broken).0[i]); }
  }

  /** What writing frames leaves in the output, and when it is all of them. */
  lemma DeliveredExactly(limits: Limits, written: seq<Byte>, kept: seq<Frame>, ending: Outcome)
    requires ending != Failed(NotWritten) && ending != Failed(NotFlushed)
    requires forall i :: 0 <= i < |kept| ==> kept[i] != []
    ensures
      var (output, outcome) := Deliver(limits, written, kept, ending);
      && written <= output <= written + Concat(kept)
      && ((outcome == ending && output == written + Concat(kept))
          || outcome == Failed(NotWritten) || outcome == Failed(NotFlushed))
      && (outcome == ending <==> kept == [] || Fits(limits, |written| + |Concat(kept)|))
  {
    DeliverPrefix(limits, written, kept, ending);
    if kept != [] { DeliverFits(limits, written, kept, ending); }
  }

  lemma NeverAWriteFailure(mode: Mode, parse: Parser, frames: seq<Frame>, why: Ending, open: Option<nat>, n: nat)
    requires n <= |frames| && AllParse(parse, frames[..n])
    ensures
      var (kept, ending) := Answer(mode, parse, frames, why, open, n);
      kept <= frames && ending != Failed(NotWritten) && ending != Failed(NotFlushed)
  {}

  /** A snapshot so far: its beginning, then chunks of the same revision, and its end at most as the last
      event. */
  predicate SnapshotSoFar(events: seq<Event>) {
    events != [] ==>
      && events[0].Begin?
      && var r := events[0].revision;
         forall i :: 1 <= i < |events| ==> events[i] == Chunk(r) || (events[i] == End(r) && i == |events| - 1)
  }

  /** Exactly the beginnings of a snapshot can be continued to one. */
  lemma QueryViable(events: seq<Event>)
    ensures Viable(Query, None, events) <==> SnapshotSoFar(events)
  {
    if Viable(Query, None, events) && events != [] {
      var suffix :| Completing(Query, None, events + suffix);
      var all := events + suffix;
      assert forall i :: 0 <= i < |events| ==> events[i] == all[i];
      assert forall i :: 1 <= i < |all| ==> all[i] == all[1..][i - 1];
    }
    if SnapshotSoFar(events) {
      if events == [] {
        NothingViable(Query, None);
      } else {
        var r := events[0].revision;
        var ended := |events| >= 2 && events[|events| - 1] == End(r);
        var suffix := if ended then [] else [End(r)];
        var all := events + suffix;
        assert forall i :: 1 <= i < |all| ==> all[1..][i - 1] == all[i];
        assert forall i :: 0 <= i < |all| - 2 ==> all[1..][i] == Chunk(r);
        assert Completing(Query, None, events + suffix);
      }
    }
  }

  /** Whatever ends a query, what it forwards is the beginning of one snapshot, apart from a final
      snapshot error; no frame that is mismatched or does not parse is ever written. */
  lemma QueryForwardsLegal(parse: Parser, rest: seq<Byte>, broken: bool, limits: Limits, written: seq<Byte>)
    returns (kept: seq<Frame>)
    ensures kept <= Framed(rest, broken).0 && AllParse(parse, kept)
    ensures
      var (output, outcome) := Forwarded(Query, parse, rest, broken, None, limits, written);
      var events := Events(parse, kept);
      && written <= output <= written + Concat(kept)
      && (SnapshotSoFar(events) || (events != [] && events[|events| - 1] == SnapshotError
                                   && SnapshotSoFar(events[..|events| - 1])))
      && (outcome == Done ==> IsSnapshot(events) && output == written + Concat(kept))
  {
    var (frames, why) := Framed(rest, broken);
    var n := LongestExists(Query, parse, frames, None);
    StateModesExactly(Query, parse, rest, broken, limits, written, n);
    kept := Answer(Query, parse, frames, why, None, n).0;
    KeptLegal(parse, frames, why, n);
    hide Viable, Framed, Longest, Answer, Forwarded, Events, SnapshotSoFar, IsSnapshot, Fits;
  }

  lemma KeptLegal(parse: Parser, frames: seq<Frame>, why: Ending, n: nat)
    requires Longest(Query, parse, frames, None, n)
    ensures
      var (kept, ending) := Answer(Query, parse, frames, why, None, n);
      && kept <= frames && AllParse(parse, kept) && ending != Failed(NotWritten) && ending != Failed(NotFlushed)
      && var events := Events(parse, kept);
         && (SnapshotSoFar(events) || (events != [] && events[|events| - 1] == SnapshotError
                                      && SnapshotSoFar(events[..|events| - 1])))
         && (ending == Done ==> IsSnapshot(events))
  {
    QueryViable(Events(parse, frames[..n]));
    NeverAWriteFailure(Query, parse, frames, why, None, n);
    hide Viable, SnapshotSoFar, IsSnapshot;
    var kept := Answer(Query, parse, frames, why, None, n).0;
    if |kept| == n + 1 { assert Events(parse, kept)[..n] == Events(parse, frames[..n]); }
    if n == |frames| { assert frames[..n] == frames; }
  }
}
