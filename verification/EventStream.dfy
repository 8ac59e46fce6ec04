/** Forwarding the daemon's event stream: a bounded framer feeding a snapshot-transaction
    recogniser. Parsing a frame is a parameter; reads and writes may fail at any byte. */
module EventStream {
  import opened Prelude

  type Byte = b: int | 0 <= b < 256

  const NEWLINE: Byte := 10
  const MAX_MESSAGE := 65536

  type Frame = seq<Byte>

  // ------------------------------------------------------------------- framing

  /** Why no further frame could be read. */
  datatype Ending = Finished | ReadError | Oversized | Unterminated

  /** `n` bytes of `s` are one read: up to a newline, the limit or the end, whichever is first. */
  predicate IsLine(s: seq<Byte>, limit: nat, n: nat) {
    && n <= |s| && n <= limit && (forall i :: 0 <= i < n - 1 ==> s[i] != NEWLINE)
    && (n == |s| || n == limit || (n > 0 && s[n - 1] == NEWLINE))
  }

  function LineLength(s: seq<Byte>, limit: nat): (n: nat)
    ensures IsLine(s, limit, n)
  {
    if s == [] || limit == 0 then 0
    else if s[0] == NEWLINE then 1
    else
      var n := LineLength(s[1..], limit - 1);
      assert forall i :: 1 <= i < |s| ==> s[i] == s[1..][i - 1];
      n + 1
  }

  lemma LineUnique(s: seq<Byte>, limit: nat, m: nat, n: nat)
    requires IsLine(s, limit, m) && IsLine(s, limit, n)
    ensures m == n
  {}

  /** One bounded read; `broken` says whether the stream ends in an error rather than cleanly. */
  function NextFrame(rest: seq<Byte>, broken: bool): Result<Frame, Ending> {
    var n := LineLength(rest, MAX_MESSAGE + 1);
    var terminated := n > 0 && rest[n - 1] == NEWLINE;
    if !terminated && n <= MAX_MESSAGE && broken then Err(ReadError)
    else if n == 0 then Err(Finished)
    else if n > MAX_MESSAGE then Err(Oversized)
    else if !terminated then Err(Unterminated)
    else Ok(rest[..n])
  }

  /** At most the limit, with its only newline at the end. */
  predicate IsFrame(f: Frame) {
    0 < |f| <= MAX_MESSAGE && f[|f| - 1] == NEWLINE && forall i :: 0 <= i < |f| - 1 ==> f[i] != NEWLINE
  }

  /** The framer returns exactly the frame the stream starts with, if there is one. */
  lemma NextFrameExact(rest: seq<Byte>, broken: bool, f: Frame)
    ensures NextFrame(rest, broken) == Ok(f) <==> IsFrame(f) && f <= rest
  {
    var n := LineLength(rest, MAX_MESSAGE + 1);
    if IsFrame(f) && f <= rest {
      assert f == rest[..|f|];
      assert IsLine(rest, MAX_MESSAGE + 1, |f|) by {
        assert forall i :: 0 <= i < |f| ==> rest[i] == f[i];
      }
      LineUnique(rest, MAX_MESSAGE + 1, n, |f|);
    }
  }

  /** Why there is no frame: too many bytes before the newline, or none left to come, cleanly with nothing
      at all, cleanly within a frame, or through a failed read. */
  lemma EndingExact(rest: seq<Byte>, broken: bool, why: Ending)
    ensures
      NextFrame(rest, broken) == Err(why) <==>
        match why
        case Oversized => |rest| > MAX_MESSAGE && NEWLINE !in rest[..MAX_MESSAGE]
        case ReadError => |rest| <= MAX_MESSAGE && NEWLINE !in rest && broken
        case Finished => rest == [] && !broken
        case Unterminated => 0 < |rest| <= MAX_MESSAGE && NEWLINE !in rest && !broken
  {
    var n := LineLength(rest, MAX_MESSAGE + 1);
    if n > 0 && rest[n - 1] == NEWLINE && n <= MAX_MESSAGE {
      assert rest[n - 1] in rest;
      if |rest| > MAX_MESSAGE { assert rest[..MAX_MESSAGE][n - 1] == NEWLINE; }
    }
  }

  /** All frames up to the point where the framer gives up, and why it does. */
  function Framed(rest: seq<Byte>, broken: bool): (seq<Frame>, Ending)
    decreases |rest|
  {
    match NextFrame(rest, broken)
    case Err(why) => ([], why)
    case Ok(f) =>
      var (more, why) := Framed(rest[|f|..], broken);
      ([f] + more, why)
  }

  function Concat(frames: seq<Frame>): seq<Byte> {
    if frames == [] then [] else frames[0] + Concat(frames[1..])
  }

  /** The frames are the stream, cut after its newlines; nothing is left over exactly when the
      stream ends cleanly. */
  lemma {:induction false} FramesPartition(rest: seq<Byte>, broken: bool)
    ensures
      var (frames, why) := Framed(rest, broken);
      && Concat(frames) <= rest
      && (forall i :: 0 <= i < |frames| ==> IsFrame(frames[i]))
      && (why == Finished <==> Concat(frames) == rest && !broken)
      && NextFrame(rest[|Concat(frames)|..], broken) == Err(why)
    decreases |rest|
  {
    match NextFrame(rest, broken)
    case Err(why) =>
      assert rest[0..] == rest;
    case Ok(f) =>
      NextFrameExact(rest, broken, f);
      hide NextFrame, IsFrame;
      var tail := rest[|f|..];
      FramesPartition(tail, broken);
      var more := Framed(tail, broken).0;
      assert ([f] + more)[1..] == more;
      PrefixShift(f, rest, Concat(more));
  }

  lemma PrefixShift(f: seq<Byte>, rest: seq<Byte>, g: seq<Byte>)
    requires f <= rest && g <= rest[|f|..]
    ensures f + g <= rest && (f + g == rest <==> g == rest[|f|..])
    ensures rest[|f + g|..] == rest[|f|..][|g|..]
  {
    assert rest == f + rest[|f|..];
  }

  /** Where a stream is being read. */
  class Reader {
    const stream: seq<Byte>
    const broken: bool
    var pos: nat

    constructor (stream: seq<Byte>, broken: bool)
      ensures Valid() && this.stream == stream && this.broken == broken && Rest() == stream
    {
      this.stream, this.broken, pos := stream, broken, 0;
    }

    predicate Valid()
      reads this
    {
      pos <= |stream|
    }

    function Rest(): seq<Byte>
      requires Valid()
      reads this
    {
      stream[pos..]
    }

    method ReadBoundedFrame() returns (r: Result<Frame, Ending>)
      requires Valid()
      modifies this
      ensures Valid() && r == NextFrame(old(Rest()), broken)
      ensures old(pos) <= pos && (r.Ok? ==> r.value + Rest() == old(Rest()))
    {
      ghost var rest := Rest();
      var start := pos;
      var frame: Frame := [];
      while |frame| < MAX_MESSAGE + 1 && pos < |stream| && (frame == [] || frame[|frame| - 1] != NEWLINE)
        invariant start <= pos <= |stream| && frame == stream[start..pos] && |frame| <= MAX_MESSAGE + 1
        invariant forall i :: 0 <= i < |frame| - 1 ==> frame[i] != NEWLINE
        decreases |stream| - pos
      {
        frame := frame + [stream[pos]];
        pos := pos + 1;
      }
      assert frame == rest[..|frame|];
      LineUnique(rest, MAX_MESSAGE + 1, |frame|, LineLength(rest, MAX_MESSAGE + 1));
      var terminated := frame != [] && frame[|frame| - 1] == NEWLINE;
      if !terminated && |frame| <= MAX_MESSAGE && broken {
        return Err(ReadError);
      }
      if frame == [] {
        return Err(Finished);
      }
      if |frame| > MAX_MESSAGE {
        return Err(Oversized);
      }
      if !terminated {
        return Err(Unterminated);
      }
      r := Ok(frame);
    }
  }

  // ---------------------------------------------------------------- recognising

  datatype Event =
    | Begin(revision: nat)
    | Chunk(revision: nat)
    | End(revision: nat)
    | SnapshotError
    | Lagged
    | Ordinary

  /** Subscribing with or without workspace state, or asking for one snapshot. */
  datatype Mode = Plain | Live | Query

  datatype Failure =
    | Unreadable(why: Ending)
    | Disconnected
    | Unparseable
    | Mismatched
    | SnapshotFailed
    | FellBehind
    | NotWritten
    | NotFlushed

  datatype Outcome = Done | Failed(failure: Failure)

  /** What to do with a frame: drop it, refuse it, forward it and go on, or forward it and stop. */
  datatype Verdict = Drop | Refuse(failure: Failure) | Pass(open: Option<nat>) | Stop(outcome: Outcome)

  function JudgeQuery(open: Option<nat>, e: Event): Verdict {
    match e
    case Begin(r) => if open.None? then Pass(Some(r)) else Refuse(Mismatched)
    case Chunk(r) => if open == Some(r) then Pass(open) else Refuse(Mismatched)
    case End(r) => if open == Some(r) then Stop(Done) else Refuse(Mismatched)
    case SnapshotError => Stop(Failed(SnapshotFailed))
    case _ => Refuse(Mismatched)
  }

  function JudgeLive(open: Option<nat>, e: Event): Verdict {
    match e
    case Begin(r) => if open.None? then Pass(Some(r)) else Refuse(Mismatched)
    case Chunk(r) => if open == Some(r) then Pass(open) else Refuse(Mismatched)
    case End(r) => if open == Some(r) then Pass(None) else Refuse(Mismatched)
    case SnapshotError => Stop(Failed(SnapshotFailed))
    case Lagged => Stop(Failed(FellBehind))
    case Ordinary => if open.Some? then Refuse(Mismatched) else Pass(None)
  }

  function Judge(mode: Mode, open: Option<nat>, parsed: Option<Event>): Verdict {
    match parsed
    case None => if mode.Plain? then Drop else Refuse(Unparseable)
    case Some(e) =>
      match mode
      case Plain => Pass(open)
      case Live => JudgeLive(open, e)
      case Query => JudgeQuery(open, e)
  }

  function AtEnd(mode: Mode, open: Option<nat>, why: Ending): Outcome {
    if !why.Finished? then Failed(Unreadable(why))
    else if mode.Query? || (mode.Live? && open.Some?) then Failed(Disconnected)
    else Done
  }

  type Parser = Frame -> Option<Event>

  /** The frames to forward and how it ends, were every write to succeed. */
  function Plan(mode: Mode, parse: Parser, frames: seq<Frame>, why: Ending, open: Option<nat>): (seq<Frame>, Outcome) {
    if frames == [] then ([], AtEnd(mode, open, why))
    else
      match Judge(mode, open, parse(frames[0]))
      case Drop => Plan(mode, parse, frames[1..], why, open)
      case Refuse(failure) => ([], Failed(failure))
      case Pass(open') =>
        var (more, outcome) := Plan(mode, parse, frames[1..], why, open');
        ([frames[0]] + more, outcome)
      case Stop(outcome) => ([frames[0]], outcome)
  }

  // ------------------------------------------------------------------- writing

  /** An output that takes at most `room` bytes and cannot flush once it holds `stuck`. */
  datatype Limits = Limits(room: Option<nat>, stuck: Option<nat>)

  predicate Fits(limits: Limits, size: nat) {
    (limits.room.Some? ==> size <= limits.room.value) && (limits.stuck.Some? ==> size < limits.stuck.value)
  }

  function Accepted(limits: Limits, written: nat, f: Frame): (n: nat)
    ensures n <= |f|
  {
    if limits.room.None? || written + |f| <= limits.room.value then |f|
    else if written <= limits.room.value then limits.room.value - written
    else 0
  }

  /** Writing and flushing one frame. */
  function Emit(limits: Limits, written: seq<Byte>, f: Frame): (seq<Byte>, Option<Failure>) {
    var n := Accepted(limits, |written|, f);
    var written' := written + f[..n];
    (written', if n < |f| then Some(NotWritten)
               else if limits.stuck.Some? && |written'| >= limits.stuck.value then Some(NotFlushed)
               else None)
  }

  function Deliver(limits: Limits, written: seq<Byte>, frames: seq<Frame>, outcome: Outcome): (seq<Byte>, Outcome)
    decreases |frames|
  {
    if frames == [] then (written, outcome)
    else
      var (written', failure) := Emit(limits, written, frames[0]);
      match failure
      case Some(why) => (written', Failed(why))
      case None => Deliver(limits, written', frames[1..], outcome)
  }

  /** What forwarding leaves in the output, and how it ends. */
  function Forwarded(mode: Mode, parse: Parser, rest: seq<Byte>, broken: bool, open: Option<nat>, limits: Limits,
      written: seq<Byte>): (seq<Byte>, Outcome)
  {
    var (frames, why) := Framed(rest, broken);
    var (kept, outcome) := Plan(mode, parse, frames, why, open);
    Deliver(limits, written, kept, outcome)
  }

  class Output {
    const limits: Limits
    var written: seq<Byte>

    constructor (limits: Limits)
      ensures this.limits == limits && written == []
    {
      this.limits, written := limits, [];
    }

    method WriteAll(f: Frame) returns (failure: Option<Failure>)
      modifies this
      ensures (written, failure) == Emit(limits, old(written), f)
    {
      var n := Accepted(limits, |written|, f);
      written := written + f[..n];
      if n < |f| {
        return Some(NotWritten);
      }
      if limits.stuck.Some? && |written| >= limits.stuck.value {
        return Some(NotFlushed);
      }
      failure := None;
    }
  }

  /** One turn of the forwarding loop. */
  lemma ForwardedStep(mode: Mode, parse: Parser, rest: seq<Byte>, broken: bool, open: Option<nat>, limits: Limits,
      written: seq<Byte>)
    ensures
      Forwarded(mode, parse, rest, broken, open, limits, written) ==
        match NextFrame(rest, broken)
        case Err(why) => (written, AtEnd(mode, open, why))
        case Ok(f) =>
          match Judge(mode, open, parse(f))
          case Drop => Forwarded(mode, parse, rest[|f|..], broken, open, limits, written)
          case Refuse(failure) => (written, Failed(failure))
          case Pass(open') =>
            var (written', failure) := Emit(limits, written, f);
            (match failure
             case Some(why) => (written', Failed(why))
             case None => Forwarded(mode, parse, rest[|f|..], broken, open', limits, written'))
          case Stop(outcome) =>
            var (written', failure) := Emit(limits, written, f);
            (written', match failure case Some(why) => Failed(why) case None => outcome)
  {
    hide Emit, Judge;
    match NextFrame(rest, broken)
    case Err(_) =>
    case Ok(f) =>
      var more, why := Framed(rest[|f|..], broken).0, Framed(rest[|f|..], broken).1;
      assert ([f] + more)[1..] == more;
      match Judge(mode, open, parse(f))
      case Pass(open') =>
        var kept := Plan(mode, parse, more, why, open').0;
        assert ([f] + kept)[1..] == kept;
      case Drop =>
      case Refuse(_) =>
      case Stop(outcome) =>
        assert [f][1..] == [] && Plan(mode, parse, [f] + more, why, open) == ([f], outcome);
        assert Deliver(limits, Emit(limits, written, f).0, [], outcome) == (Emit(limits, written, f).0, outcome);
  }

  method ForwardEventFrames(reader: Reader, output: Output, mode: Mode, parse: Parser) returns (outcome: Outcome)
    requires reader.Valid()
    modifies reader, output
    ensures (output.written, outcome) ==
            Forwarded(mode, parse, old(reader.Rest()), reader.broken, None, output.limits, old(output.written))
  {
    hide Forwarded, NextFrame, Emit;
    var snapshotRevision: Option<nat> := None;
    while true
      invariant reader.Valid()
      invariant Forwarded(mode, parse, reader.Rest(), reader.broken, snapshotRevision, output.limits, output.written) ==
                Forwarded(mode, parse, old(reader.Rest()), reader.broken, None, output.limits, old(output.written))
      decreases |reader.stream| - reader.pos
    {
      ghost var rest := reader.Rest();
      ForwardedStep(mode, parse, rest, reader.broken, snapshotRevision, output.limits, output.written);
      var read := reader.ReadBoundedFrame();
      if read.Err? {
        return AtEnd(mode, snapshotRevision, read.error);
      }
      var frame := read.value;
      NextFrameExact(rest, reader.broken, frame);
      assert reader.Rest() == rest[|frame|..];
      match Judge(mode, snapshotRevision, parse(frame)) {
        case Drop =>
        case Refuse(failure) => return Failed(failure);
        case Pass(open) =>
          snapshotRevision := open;
          var failure := output.WriteAll(frame);
          if failure.Some? {
            return Failed(failure.value);
          }
        case Stop(result) =>
          var failure := output.WriteAll(frame);
          return if failure.Some? then Failed(failure.value) else result;
      }
    }
  }
}
