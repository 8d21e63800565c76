/**
 The guard over a streamed Bedrock Mantle body: it passes every chunk through unchanged while
 checking, frame by frame, that the events arrive in a permitted order and end properly.
 */
module StreamGuard {
  import opened Common
  import opened SseFraming
  import opened SseEvents

  const MAX_RESPONSE_BODY: nat := 32 * 1024 * 1024
  const MAX_STREAM_FRAME: nat := 4 * 1024 * 1024

  /** How a frame is read; None is a malformed frame. */
  type Classifier = Bytes -> Option<StreamEvent>

  /** What the upstream body yields. */
  datatype SourceItem = Chunk(bytes: Bytes) | Interrupted

  datatype StreamEnd =
    | ResponseBodyLimit
    | DataAfterTerminal
    | InvalidEvent
    | FrameLimit
    | MissingTerminal
    | UpstreamInterrupted

  /** What the guarded body yields. */
  datatype OutItem = Data(bytes: Bytes) | Failure(end: StreamEnd)

  datatype Phase = Phase(started: bool, terminal: bool)

  const INITIAL_PHASE := Phase(false, false)

  predicate Quiet(e: Option<StreamEvent>) {
    e.Some? && (e.value.Empty? || e.value.Ping? || e.value.Unknown?)
  }

  predicate Opening(e: Option<StreamEvent>) {
    e.Some? && e.value.MessageStart?
  }

  predicate Inner(e: Option<StreamEvent>) {
    Quiet(e) || (e.Some? && e.value.Other?)
  }

  predicate Closing(e: Option<StreamEvent>) {
    e.Some? && (e.value.MessageStop? || e.value.Error?)
  }

  /** The event-order automaton: the phase after an event, None when the event is refused. */
  function Admit(p: Phase, e: Option<StreamEvent>): Option<Phase> {
    if Quiet(e) && !p.terminal then Some(p)
    else if Opening(e) && !p.started && !p.terminal then Some(p.(started := true))
    else if Closing(e) && p.started && !p.terminal then Some(p.(terminal := true))
    else if Inner(e) && p.started && !p.terminal then Some(p)
    else None
  }

  function AdmitAll(classify: Classifier, p: Phase, bodies: seq<Bytes>): Option<Phase>
    decreases |bodies|
  {
    if bodies == [] then Some(p)
    else
      var next := Admit(p, classify(bodies[0]));
      if next.None? then None else AdmitAll(classify, next.value, bodies[1..])
  }

  /** The guard's variables, with every frame given to the event parser so far. */
  datatype State = State(pending: Bytes, total: nat, phase: Phase, failed: bool, handed: seq<Bytes>)

  const INITIAL := State([], 0, INITIAL_PHASE, false, [])

  datatype Drained = Drained(rest: Bytes, phase: Phase, handed: seq<Bytes>, end: Option<StreamEnd>)

  /** The simple form of one chunk's work: split the whole buffer from its first byte. */
  function Drain(classify: Classifier, buf: Bytes, p: Phase): Drained
    decreases |buf|
  {
    match FindFrame(buf)
    case None =>
      Drained(buf, p, [], if |buf| > MAX_STREAM_FRAME then Some(FrameLimit) else None)
    case Some(c) =>
      var frame := buf[..c.frameEnd];
      if c.frameEnd > MAX_STREAM_FRAME then Drained(buf, p, [], Some(FrameLimit))
      else
        var next := Admit(p, classify(frame));
        if next.None? then Drained(buf, p, [frame], Some(InvalidEvent))
        else if next.value.terminal && c.sepEnd < |buf| then
          Drained(buf[c.sepEnd..], next.value, [frame], Some(DataAfterTerminal))
        else
          var more := Drain(classify, buf[c.sepEnd..], next.value);
          more.(handed := [frame] + more.handed)
  }

  /** One poll of the guard: its next variables, and the item it yields (None ends the body). */
  function Poll(classify: Classifier, s: State, item: Option<SourceItem>): (State, Option<OutItem>) {
    if s.failed then (s, None)
    else match item
      case None =>
        if s.phase.terminal && s.pending == [] then (s, None)
        else (s.(failed := true), Some(Failure(MissingTerminal)))
      case Some(Interrupted) => (s.(failed := true), Some(Failure(UpstreamInterrupted)))
      case Some(Chunk(bytes)) =>
        var total := s.total + |bytes|;
        if total > MAX_RESPONSE_BODY then
          (s.(total := total, failed := true), Some(Failure(ResponseBodyLimit)))
        else if s.phase.terminal && bytes != [] then
          (s.(total := total, failed := true), Some(Failure(DataAfterTerminal)))
        else
          var buf := s.pending + bytes;
          var d := Drain(classify, buf, s.phase);
          if d.end.Some? then
            (State(buf, total, d.phase, true, s.handed + d.handed), Some(Failure(d.end.value)))
          else
            (State(d.rest, total, d.phase, false, s.handed + d.handed), Some(Data(bytes)))
  }

  /** Where the next scan starts: past the consumed frames, and never before the overlap. */
  function Base(consumed: nat, scanned: nat): nat {
    if consumed < scanned then scanned else consumed
  }

  /** The first cut at or after an offset, as absolute offsets into the buffer. */
  function FindFrom(buf: Bytes, from: nat): (r: Option<Cut>)
    requires from <= |buf|
    ensures r.Some? ==> from <= r.value.frameEnd < r.value.sepEnd <= |buf|
  {
    var cut := FindFrame(buf[from..]);
    if cut.None? then None else Some(Cut(from + cut.value.frameEnd, from + cut.value.sepEnd))
  }

  /** Drain on the unread part of a larger buffer, one frame further. */
  lemma DrainStep(classify: Classifier, buf: Bytes, start: nat, frameEnd: nat, after: nat, p: Phase)
    requires start <= frameEnd < after <= |buf|
    requires FindFrom(buf, start) == Some(Cut(frameEnd, after))
    ensures var d := Drain(classify, buf[start..], p);
            var frame := buf[start..frameEnd];
            var next := Admit(p, classify(frame));
            if frameEnd - start > MAX_STREAM_FRAME then d.end == Some(FrameLimit) && d.phase == p && d.handed == []
            else if next.None? then d.end == Some(InvalidEvent) && d.phase == p && d.handed == [frame]
            else if next.value.terminal && after < |buf| then
              d.end == Some(DataAfterTerminal) && d.phase == next.value && d.handed == [frame]
            else
              var more := Drain(classify, buf[after..], next.value);
              d.end == more.end && d.phase == more.phase && d.rest == more.rest && d.handed == [frame] + more.handed
  {
    hide FindFrame, Admit;
    assert buf[start..][..frameEnd - start] == buf[start..frameEnd];
    assert buf[start..][after - start..] == buf[after..];
  }

  lemma DrainEnd(classify: Classifier, buf: Bytes, p: Phase)
    requires FindFrame(buf).None?
    ensures Drain(classify, buf, p) == Drained(buf, p, [], if |buf| > MAX_STREAM_FRAME then Some(FrameLimit) else None)
  {
  }

  lemma AppendOne<T>(a: seq<T>, x: T, b: seq<T>)
    ensures (a + [x]) + b == a + ([x] + b)
  {
  }

  lemma FirstCut(held: Bytes, bytes: Bytes, scanned: nat)
    requires FindFrame(held).None?
    requires scanned == if |held| < 3 then 0 else |held| - 3
    ensures FindFrom(held + bytes, scanned) == FindFrom(held + bytes, 0)
  {
    OverlapMissesNothing(held, bytes, scanned);
    assert (held + bytes)[0..] == held + bytes;
  }

  /** The checks on one frame: either the early end it causes, or the phase to go on with. */
  method JudgeFrame(classify: Classifier, buf: Bytes, start: nat, frameEnd: nat, after: nat, p: Phase)
    returns (end: Option<StreamEnd>, next: Phase, ghost handed: seq<Bytes>)
    requires start <= frameEnd < after <= |buf|
    requires FindFrom(buf, start) == Some(Cut(frameEnd, after))
    ensures var d := Drain(classify, buf[start..], p);
            if end.Some? then d.end == end && d.phase == next && d.handed == handed
            else
              var more := Drain(classify, buf[after..], next);
              && d.end == more.end && d.phase == more.phase && d.rest == more.rest
              && |handed| == 1 && d.handed == [handed[0]] + more.handed
  {
    DrainStep(classify, buf, start, frameEnd, after, p);
    if frameEnd - start > MAX_STREAM_FRAME {
      return Some(FrameLimit), p, [];
    }
    var frame := buf[start..frameEnd];
    var admitted := Admit(p, classify(frame));
    if admitted.None? {
      return Some(InvalidEvent), p, [frame];
    }
    if admitted.value.terminal && after < |buf| {
      return Some(DataAfterTerminal), admitted.value, [frame];
    }
    return None, admitted.value, [frame];
  }

  /**
   The frame loop of `guard_stream`: the fast form, which scans only the new bytes and a
   three-byte overlap, agrees with the simple form on every buffer that held no separator.
   */
  method ScanChunk(classify: Classifier, held: Bytes, bytes: Bytes, phase: Phase)
    returns (end: Option<StreamEnd>, rest: Bytes, p: Phase, ghost handed: seq<Bytes>)
    requires FindFrame(held).None?
    ensures var d := Drain(classify, held + bytes, phase);
            end == d.end && p == d.phase && handed == d.handed && (end.None? ==> rest == d.rest)
    ensures end.None? ==> FindFrame(rest).None?
  {
    hide FindFrame, Drain;
    var scanned := if |held| < 3 then 0 else |held| - 3;
    rest, p, handed := held + bytes, phase, [];
    ghost var all := Drain(classify, rest, phase);
    FirstCut(held, bytes, scanned);
    assert rest[0..] == rest;
    var consumed := 0;
    var cut := FindFrom(rest, scanned);
    while cut.Some?
      invariant consumed <= |rest|
      invariant cut == FindFrom(rest, consumed)
      invariant cut.Some? ==> scanned <= cut.value.frameEnd
      invariant var d := Drain(classify, rest[consumed..], p);
                d.end == all.end && d.phase == all.phase && d.rest == all.rest && handed + d.handed == all.handed
      decreases |rest| - consumed
    {
      ghost var before, frames := handed, [];
      end, p, frames := JudgeFrame(classify, rest, consumed, cut.value.frameEnd, cut.value.sepEnd, p);
      handed := handed + frames;
      if end.Some? {
        return;
      }
      consumed := cut.value.sepEnd;
      AppendOne(before, frames[0], Drain(classify, rest[consumed..], p).handed);
      cut := FindFrom(rest, Base(consumed, scanned));
    }
    DrainEnd(classify, rest[consumed..], p);
    if |rest| - consumed > MAX_STREAM_FRAME {
      return Some(FrameLimit), rest, p, handed;
    }
    return None, rest[consumed..], p, handed;
  }

  /** `guard_stream`: one object per response body, polled for its next item. */
  class Guard {
    const classify: Classifier
    var pending: Bytes
    var total: nat
    var started: bool
    var terminal: bool
    var failed: bool
    ghost var handed: seq<Bytes>

    ghost predicate Valid()
      reads this
    {
      !failed ==> FindFrame(pending).None?
    }

    ghost function Variables(): State
      reads this
    {
      State(pending, total, Phase(started, terminal), failed, handed)
    }

    constructor (classify: Classifier)
      ensures Valid() && Variables() == INITIAL && this.classify == classify
    {
      this.classify := classify;
      pending, total, started, terminal, failed, handed := [], 0, false, false, false, [];
    }

    method Next(item: Option<SourceItem>) returns (out: Option<OutItem>)
      requires Valid()
      modifies this
      ensures Valid()
      ensures (Variables(), out) == Poll(classify, old(Variables()), item)
    {
      hide Drain, FindFrame;
      if failed {
        return None;
      }
      match item
      case None =>
        if terminal && pending == [] {
          return None;
        }
        failed := true;
        return Some(Failure(MissingTerminal));
      case Some(Interrupted) =>
        failed := true;
        return Some(Failure(UpstreamInterrupted));
      case Some(Chunk(bytes)) =>
        total := total + |bytes|;
        if total > MAX_RESPONSE_BODY {
          failed := true;
          return Some(Failure(ResponseBodyLimit));
        }
        if terminal && bytes != [] {
          failed := true;
          return Some(Failure(DataAfterTerminal));
        }
        var end, rest, phase, frames := ScanChunk(classify, pending, bytes, Phase(started, terminal));
        started, terminal, handed := phase.started, phase.terminal, handed + frames;
        if end.Some? {
          pending, failed := pending + bytes, true;
          return Some(Failure(end.value));
        }
        pending := rest;
        return Some(Data(bytes));
    }
  }
}
