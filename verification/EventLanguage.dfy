/** What the event forwarder accepts, and that what it forwards is faithful to its input. */
module EventLanguage {
  import opened Prelude
  import opened EventStream

  // ------------------------------------------------------------------ fidelity

  /** The output only grows, by a prefix of the frames; all of them unless a write fails. */
  lemma {:induction false} DeliverPrefix(limits: Limits, written: seq<Byte>, frames: seq<Frame>, outcome: Outcome)
    ensures
      var (output, result) := Deliver(limits, written, frames, outcome);
      && written <= output <= written + Concat(frames)
      && ((result == outcome && output == written + Concat(frames))
          || result == Failed(NotWritten) || result == Failed(NotFlushed))
    decreases |frames|
  {
    if frames != [] {
      var (written', failure) := Emit(limits, written, frames[0]);
      Regroup(written, frames[0], Concat(frames[1..]), Accepted(limits, |written|, frames[0]));
      if failure.None? {
        DeliverPrefix(limits, written', frames[1..], outcome);
      }
    }
  }

  lemma Regroup(a: seq<Byte>, f: seq<Byte>, b: seq<Byte>, n: nat)
    requires n <= |f|
    ensures a + f[..n] <= a + (f + b) && f[..|f|] == f && (a + f) + b == a + (f + b)
  {
    assert a + (f + b) == a + f[..n] + (f[n..] + b);
  }

  /** Enough room for everything is exactly what it takes to deliver everything. */
  lemma {:induction false} DeliverFits(limits: Limits, written: seq<Byte>, frames: seq<Frame>, outcome: Outcome)
    requires frames != [] && outcome != Failed(NotWritten) && outcome != Failed(NotFlushed)
    requires forall i :: 0 <= i < |frames| ==> frames[i] != []
    ensures Deliver(limits, written, frames, outcome).1 == outcome <==> Fits(limits, |written| + |Concat(frames)|)
    decreases |frames|
  {
    var written' := Emit(limits, written, frames[0]).0;
    assert |Concat(frames)| == |frames[0]| + |Concat(frames[1..])|;
    if frames[1..] != [] && Emit(limits, written, frames[0]).1.None? {
      DeliverFits(limits, written', frames[1..], outcome);
    }
  }

  lemma {:induction false} PlanKeepsPrefix(mode: Mode, parse: Parser, frames: seq<Frame>, why: Ending,
      open: Option<nat>)
    requires !mode.Plain?
    ensures Plan(mode, parse, frames, why, open).0 <= frames
    decreases |frames|
  {
    if frames != [] {
      var verdict := Judge(mode, open, parse(frames[0]));
      if verdict.Pass? {
        PlanKeepsPrefix(mode, parse, frames[1..], why, verdict.open);
        assert frames == [frames[0]] + frames[1..];
      }
    }
  }

  lemma {:induction false} ConcatPrefix(a: seq<Frame>, b: seq<Frame>)
    requires a <= b
    ensures Concat(a) <= Concat(b)
    decreases |a|
  {
    if a != [] { ConcatPrefix(a[1..], b[1..]); }
  }

  /** With workspace state, whatever happens the output is a byte prefix of the input. */
  lemma StateModesCopyBytes(mode: Mode, parse: Parser, rest: seq<Byte>, broken: bool, limits: Limits,
      written: seq<Byte>)
    requires !mode.Plain?
    ensures written <= Forwarded(mode, parse, rest, broken, None, limits, written).0 <= written + rest
  {
    var frames, why := Framed(rest, broken).0, Framed(rest, broken).1;
    var kept, outcome := Plan(mode, parse, frames, why, None).0, Plan(mode, parse, frames, why, None).1;
    FramesPartition(rest, broken);
    PlanKeepsPrefix(mode, parse, frames, why, None);
    ConcatPrefix(kept, frames);
    DeliverPrefix(limits, written, kept, outcome);
  }

  function Parseable(parse: Parser, frames: seq<Frame>): seq<Frame> {
    if frames == [] then []
    else if parse(frames[0]).None? then Parseable(parse, frames[1..])
    else [frames[0]] + Parseable(parse, frames[1..])
  }

  lemma {:induction false} PlainPlan(parse: Parser, frames: seq<Frame>, why: Ending, open: Option<nat>)
    ensures Plan(Plain, parse, frames, why, open) == (Parseable(parse, frames), AtEnd(Plain, open, why))
    decreases |frames|
  {
    if frames != [] { PlainPlan(parse, frames[1..], why, open); }
  }

  /** Without workspace state exactly the parseable frames come out, in order; it succeeds exactly
      when the stream is cleanly framed to its end and the output takes them all. */
  lemma PlainForwardsParseable(parse: Parser, rest: seq<Byte>, broken: bool, limits: Limits, written: seq<Byte>)
    ensures
      var (output, outcome) := Forwarded(Plain, parse, rest, broken, None, limits, written);
      var frames := Framed(rest, broken).0;
      var wanted := written + Concat(Parseable(parse, frames));
      && written <= output <= wanted
      && (outcome == Done ==> output == wanted)
      && (outcome == Done || outcome == Failed(Unreadable(Framed(rest, broken).1))
          || outcome == Failed(NotWritten) || outcome == Failed(NotFlushed))
      && (outcome == Done <==>
            && Concat(frames) == rest && !broken
            && (Parseable(parse, frames) != [] ==> Fits(limits, |wanted|)))
  {
    var frames, why := Framed(rest, broken).0, Framed(rest, broken).1;
    var kept := Parseable(parse, frames);
    FramesPartition(rest, broken);
    PlainPlan(parse, frames, why, None);
    DeliverPrefix(limits, written, kept, AtEnd(Plain, None, why));
    ParseableAreFrames(parse, frames);
    if kept != [] { DeliverFits(limits, written, kept, AtEnd(Plain, None, why)); }
  }

  lemma {:induction false} ParseableAreFrames(parse: Parser, frames: seq<Frame>)
    requires forall i :: 0 <= i < |frames| ==> IsFrame(frames[i])
    ensures forall i :: 0 <= i < |Parseable(parse, frames)| ==> IsFrame(Parseable(parse, frames)[i])
    decreases |frames|
  {
    if frames != [] { ParseableAreFrames(parse, frames[1..]); }
  }

  // ----------------------------------------------------------------- languages

  /** Chunks of `r`, then its end at `k`. */
  predicate Closes(parse: Parser, frames: seq<Frame>, r: nat, k: nat) {
    k < |frames| && parse(frames[k]) == Some(End(r)) && forall i :: 0 <= i < k ==> parse(frames[i]) == Some(Chunk(r))
  }

  lemma ClosesShift(parse: Parser, frames: seq<Frame>, r: nat, k: nat)
    requires frames != [] && parse(frames[0]) == Some(Chunk(r))
    ensures Closes(parse, frames, r, k + 1) <==> Closes(parse, frames[1..], r, k)
    ensures k < |frames| ==> frames[..k + 1] == [frames[0]] + frames[1..][..k]
  {
    assert forall i :: 1 <= i < |frames| ==> frames[i] == frames[1..][i - 1];
    if Closes(parse, frames, r, k + 1) {
      assert forall i :: 0 <= i < k ==> frames[1..][i] == frames[i + 1];
    }
  }

  /** Forwarding the rest of a snapshot of revision `r` succeeds exactly when it is closed, and then
      forwards it whole. */
  lemma {:induction false} QueryRest(parse: Parser, frames: seq<Frame>, why: Ending, r: nat) returns (k: nat)
    ensures Plan(Query, parse, frames, why, Some(r)).1 == Done ==> Closes(parse, frames, r, k)
    decreases |frames|
  {
    k := 0;
    if frames != [] {
      var verdict := Judge(Query, Some(r), parse(frames[0]));
      if verdict.Pass? {
        var j := QueryRest(parse, frames[1..], why, r);
        ClosesShift(parse, frames, r, j);
        k := j + 1;
      }
    }
  }

  lemma {:induction false} QueryCloses(parse: Parser, frames: seq<Frame>, why: Ending, r: nat, k: nat)
    requires Closes(parse, frames, r, k)
    ensures Plan(Query, parse, frames, why, Some(r)) == (frames[..k + 1], Done)
    decreases k
  {
    if k == 0 {
      assert frames[..1] == [frames[0]];
    } else {
      ClosesShift(parse, frames, r, k - 1);
      ClosesShift(parse, frames, r, k);
      QueryCloses(parse, frames[1..], why, r, k - 1);
    }
  }

  /** The first `k` frames are one snapshot: its beginning, chunks, and its end, of one revision. */
  ghost predicate Snapshot(parse: Parser, frames: seq<Frame>, k: nat) {
    && 2 <= k <= |frames|
    && exists r :: parse(frames[0]) == Some(Begin(r)) && Closes(parse, frames[1..], r, k - 2)
  }

  lemma QueryPlan(parse: Parser, frames: seq<Frame>, why: Ending, k: nat)
    requires Snapshot(parse, frames, k)
    ensures Plan(Query, parse, frames, why, None) == (frames[..k], Done)
  {
    var r :| parse(frames[0]) == Some(Begin(r)) && Closes(parse, frames[1..], r, k - 2);
    QueryCloses(parse, frames[1..], why, r, k - 2);
    assert frames[..k] == [frames[0]] + frames[1..][..k - 1];
  }

  lemma QueryPlanned(parse: Parser, frames: seq<Frame>, why: Ending) returns (k: nat)
    requires Plan(Query, parse, frames, why, None).1 == Done
    ensures Snapshot(parse, frames, k)
  {
    var r := parse(frames[0]).value.revision;
    var j := QueryRest(parse, frames[1..], why, r);
    k := j + 2;
  }

  /** A query succeeds exactly when the stream starts with one whole snapshot that fits the output,
      and then the output gains exactly that snapshot's bytes. */
  lemma QueryLanguage(parse: Parser, rest: seq<Byte>, broken: bool, limits: Limits, written: seq<Byte>)
    ensures
      var (output, outcome) := Forwarded(Query, parse, rest, broken, None, limits, written);
      var frames := Framed(rest, broken).0;
      && (outcome == Done <==>
            exists k: nat :: Snapshot(parse, frames, k) && Fits(limits, |written| + |Concat(frames[..k])|))
      && (outcome == Done ==> exists k: nat :: Snapshot(parse, frames, k) && output == written + Concat(frames[..k]))
  {
    var frames, why := Framed(rest, broken).0, Framed(rest, broken).1;
    FramesPartition(rest, broken);
    var kept, planned := Plan(Query, parse, frames, why, None).0, Plan(Query, parse, frames, why, None).1;
    DeliverPrefix(limits, written, kept, planned);
    hide Framed;
    if planned == Done {
      var k := QueryPlanned(parse, frames, why);
      QueryPlan(parse, frames, why, k);
      DeliverFits(limits, written, kept, planned);
    }
    forall k: nat | Snapshot(parse, frames, k) && Fits(limits, |written| + |Concat(frames[..k])|)
      ensures Deliver(limits, written, kept, planned).1 == Done
    {
      QueryPlan(parse, frames, why, k);
      DeliverFits(limits, written, kept, planned);
    }
  }

  // ------------------------------------------------- ordinary events and snapshots

  /** Chunks of `r` up to its end at `k`. */
  predicate Ends(events: seq<Event>, r: nat, k: nat) {
    k < |events| && events[k] == End(r) && forall i :: 0 <= i < k ==> events[i] == Chunk(r)
  }

  /** Ordinary events and whole snapshots, one after the other. */
  ghost predicate Whole(events: seq<Event>)
    decreases |events|
  {
    || events == []
    || (events[0] == Ordinary && Whole(events[1..]))
    || (events[0].Begin? && exists k: nat :: Ends(events[1..], events[0].revision, k) && Whole(events[1..][k + 1..]))
  }

  /** What completes a stream that has the given snapshot open. */
  ghost predicate Completes(events: seq<Event>, open: Option<nat>) {
    match open
    case None => Whole(events)
    case Some(r) => exists k: nat :: Ends(events, r, k) && Whole(events[k + 1..])
  }

  /** The recogniser reads the grammar one event at a time. */
  lemma CompletesStep(events: seq<Event>, open: Option<nat>)
    requires events != []
    ensures
      var verdict := JudgeLive(open, events[0]);
      Completes(events, open) <==> verdict.Pass? && Completes(events[1..], verdict.open)
  {
    if open.Some? {
      OpenStep(events, open.value);
    }
  }

  lemma OpenStep(events: seq<Event>, r: nat)
    requires events != []
    ensures Completes(events, Some(r)) <==>
            (events[0] == Chunk(r) && Completes(events[1..], Some(r))) || (events[0] == End(r) && Whole(events[1..]))
  {
    var rest := events[1..];
    assert forall i :: 1 <= i < |events| ==> events[i] == rest[i - 1];
    if events[0] == Chunk(r) {
      if Completes(events, Some(r)) {
        var k: nat :| Ends(events, r, k) && Whole(events[k + 1..]);
        assert Ends(rest, r, k - 1) by { assert forall i :: 0 <= i < |rest| ==> rest[i] == events[i + 1]; }
        assert rest[k - 1 + 1..] == events[k + 1..];
      }
      if Completes(rest, Some(r)) {
        var k: nat :| Ends(rest, r, k) && Whole(rest[k + 1..]);
        assert Ends(events, r, k + 1);
        assert rest[k + 1..] == events[k + 1 + 1..];
      }
    } else {
      assert forall k: nat :: Ends(events, r, k) ==> k == 0;
      if events[0] == End(r) { assert Ends(events, r, 0) && events[0 + 1..] == rest; }
    }
  }

  predicate AllParse(parse: Parser, frames: seq<Frame>) {
    forall i :: 0 <= i < |frames| ==> parse(frames[i]).Some?
  }

  function Events(parse: Parser, frames: seq<Frame>): (events: seq<Event>)
    requires AllParse(parse, frames)
    ensures |events| == |frames| && forall i :: 0 <= i < |frames| ==> events[i] == parse(frames[i]).value
  {
    seq(|frames|, i requires 0 <= i < |frames| => parse(frames[i]).value)
  }

  lemma EventsTail(parse: Parser, frames: seq<Frame>)
    requires frames != []
    ensures AllParse(parse, frames) <==> parse(frames[0]).Some? && AllParse(parse, frames[1..])
    ensures AllParse(parse, frames) ==> Events(parse, frames)[1..] == Events(parse, frames[1..])
  {
    assert forall i :: 1 <= i < |frames| ==> frames[i] == frames[1..][i - 1];
    if parse(frames[0]).Some? && AllParse(parse, frames[1..]) {
      forall i | 0 <= i < |frames| ensures parse(frames[i]).Some? {
        if i > 0 { assert frames[i] == frames[1..][i - 1]; }
      }
    }
  }

  lemma {:induction false} LivePlan(parse: Parser, frames: seq<Frame>, why: Ending, open: Option<nat>)
    ensures
      var (kept, outcome) := Plan(Live, parse, frames, why, open);
      && (outcome == Done <==> why == Finished && AllParse(parse, frames) && Completes(Events(parse, frames), open))
      && (outcome == Done ==> kept == frames)
    decreases |frames|
  {
    if frames == [] {
      assert Whole([]);
      assert Events(parse, frames) == [];
    } else {
      EventsTail(parse, frames);
      var parsed := parse(frames[0]);
      if parsed.Some? {
        var verdict := JudgeLive(open, parsed.value);
        if AllParse(parse, frames) { CompletesStep(Events(parse, frames), open); }
        if verdict.Pass? {
          LivePlan(parse, frames[1..], why, verdict.open);
          assert [frames[0]] + frames[1..] == frames;
        }
      }
    }
  }

  /** A subscription with workspace state ends well exactly when the whole stream is cleanly framed,
      parses, consists of ordinary events and whole snapshots, and fits the output; and then the
      output gains every byte of it. */
  lemma LiveLanguage(parse: Parser, rest: seq<Byte>, broken: bool, limits: Limits, written: seq<Byte>)
    ensures
      var (output, outcome) := Forwarded(Live, parse, rest, broken, None, limits, written);
      var frames := Framed(rest, broken).0;
      && (outcome == Done <==>
            && Concat(frames) == rest && !broken
            && AllParse(parse, frames) && Whole(Events(parse, frames))
            && (rest != [] ==> Fits(limits, |written| + |rest|)))
      && (outcome == Done ==> output == written + rest)
  {
    var frames, why := Framed(rest, broken).0, Framed(rest, broken).1;
    FramesPartition(rest, broken);
    LivePlan(parse, frames, why, None);
    var kept, planned := Plan(Live, parse, frames, why, None).0, Plan(Live, parse, frames, why, None).1;
    DeliverPrefix(limits, written, kept, planned);
    hide Framed, Plan, Whole;
    if planned == Done && frames != [] {
      assert |Concat(frames)| == |frames[0]| + |Concat(frames[1..])|;
      DeliverFits(limits, written, kept, planned);
    }
  }

  /** The error events are forwarded before they end the stream. */
  predicate Fatal(outcome: Outcome) { outcome == Failed(SnapshotFailed) || outcome == Failed(FellBehind) }

  /** What was forwarded without a final error frame. */
  function Healthy(kept: seq<Frame>, outcome: Outcome): seq<Frame> {
    if Fatal(outcome) && kept != [] then kept[..|kept| - 1] else kept
  }

  lemma HealthyCons(f: Frame, more: seq<Frame>, outcome: Outcome)
    requires Fatal(outcome) ==> more != []
    ensures Healthy([f] + more, outcome) == [f] + Healthy(more, outcome)
  {}

  /** Appending `suffix` to what was forwarded, leaving out a final error frame, makes the stream
      whole. */
  ghost predicate Continues(parse: Parser, kept: seq<Frame>, outcome: Outcome, open: Option<nat>, suffix: seq<Event>) {
    && AllParse(parse, kept) && (Fatal(outcome) ==> kept != [])
    && AllParse(parse, Healthy(kept, outcome)) && Completes(Events(parse, Healthy(kept, outcome)) + suffix, open)
  }

  lemma ContinuesCons(parse: Parser, f: Frame, more: seq<Frame>, outcome: Outcome, open: Option<nat>,
      suffix: seq<Event>)
    requires parse(f).Some? && JudgeLive(open, parse(f).value).Pass?
    requires Continues(parse, more, outcome, JudgeLive(open, parse(f).value).open, suffix)
    ensures Continues(parse, [f] + more, outcome, open, suffix)
  {
    hide Completes, JudgeLive, Events, AllParse, Healthy;
    var v, tail := parse(f).value, Healthy(more, outcome);
    HealthyCons(f, more, outcome);
    EventsCons(parse, f, more);
    EventsCons(parse, f, tail);
    CompletesCons(v, Events(parse, tail) + suffix, open);
    assert [v] + Events(parse, tail) + suffix == [v] + (Events(parse, tail) + suffix);
  }

  lemma EventsCons(parse: Parser, f: Frame, more: seq<Frame>)
    requires parse(f).Some? && AllParse(parse, more)
    ensures AllParse(parse, [f] + more)
    ensures Events(parse, [f] + more) == [parse(f).value] + Events(parse, more)
  {}

  lemma CompletesCons(v: Event, rest: seq<Event>, open: Option<nat>)
    requires JudgeLive(open, v).Pass? && Completes(rest, JudgeLive(open, v).open)
    ensures Completes([v] + rest, open)
  {
    CompletesStep([v] + rest, open);
    assert ([v] + rest)[1..] == rest;
  }

  lemma {:induction false} LivePlanContinues(parse: Parser, frames: seq<Frame>, why: Ending, open: Option<nat>)
    returns (suffix: seq<Event>)
    ensures
      var (kept, outcome) := Plan(Live, parse, frames, why, open);
      Continues(parse, kept, outcome, open, suffix)
    decreases |frames|
  {
    suffix := if open.Some? then [End(open.value)] else [];
    NothingContinues(parse, frames, open);
    if frames != [] && parse(frames[0]).Some? {
      var verdict := JudgeLive(open, parse(frames[0]).value);
      if verdict.Pass? {
        hide Continues;
        suffix := LivePlanContinues(parse, frames[1..], why, verdict.open);
        var (more, outcome) := Plan(Live, parse, frames[1..], why, verdict.open);
        ContinuesCons(parse, frames[0], more, outcome, open, suffix);
      }
    }
  }

  /** Before anything is forwarded an open snapshot only needs its end. */
  lemma NothingContinues(parse: Parser, frames: seq<Frame>, open: Option<nat>)
    ensures Completes(Events(parse, []) + (if open.Some? then [End(open.value)] else []), open)
  {
    var suffix := if open.Some? then [End(open.value)] else [];
    assert Events(parse, []) + suffix == suffix;
    assert Whole([]);
    if open.Some? { assert Ends(suffix, open.value, 0) && suffix[0 + 1..] == []; }
  }

  /** Whatever ends a subscription, no frame is ever forwarded that breaks a snapshot: what was
      planned parses and, but for a final error frame, can be continued to a whole stream. */
  lemma LiveForwardsLegal(parse: Parser, rest: seq<Byte>, broken: bool, limits: Limits, written: seq<Byte>)
    ensures
      var frames, why := Framed(rest, broken).0, Framed(rest, broken).1;
      var (kept, outcome) := Plan(Live, parse, frames, why, None);
      && kept <= frames && (exists suffix :: Continues(parse, kept, outcome, None, suffix))
      && Forwarded(Live, parse, rest, broken, None, limits, written).0 <= written + Concat(kept)
  {
    var frames, why := Framed(rest, broken).0, Framed(rest, broken).1;
    var (kept, outcome) := Plan(Live, parse, frames, why, None);
    var suffix := LivePlanContinues(parse, frames, why, None);
    PlanKeepsPrefix(Live, parse, frames, why, None);
    DeliverPrefix(limits, written, kept, outcome);
  }
}
