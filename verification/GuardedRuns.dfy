/** Whole runs of the stream guard, for every way the upstream bytes can be cut into chunks. */
module GuardedRuns {
  import opened Common
  import opened SseFraming
  import opened SseEvents
  import opened StreamGuard

  /** The guard's variables after it was polled with each item in turn. */
  function After(classify: Classifier, items: seq<SourceItem>): State {
    if items == [] then INITIAL
    else Poll(classify, After(classify, items[..|items| - 1]), Some(items[|items| - 1])).0
  }

  function Yield(out: Option<OutItem>): seq<OutItem> {
    if out.None? then [] else [out.value]
  }

  /** What it yielded while being polled with those items. */
  function Output(classify: Classifier, items: seq<SourceItem>): seq<OutItem> {
    if items == [] then []
    else
      var before := items[..|items| - 1];
      Output(classify, before) + Yield(Poll(classify, After(classify, before), Some(items[|items| - 1])).1)
  }

  /** The whole guarded body of an upstream that ends after those items. */
  function Body(classify: Classifier, items: seq<SourceItem>): seq<OutItem> {
    Output(classify, items) + Yield(Poll(classify, After(classify, items), None).1)
  }

  /** The bytes the upstream delivered. */
  function Source(items: seq<SourceItem>): Bytes {
    if items == [] then []
    else
      var last := items[|items| - 1];
      Source(items[..|items| - 1]) + (if last.Chunk? then last.bytes else [])
  }

  /** The bytes the client received. */
  function Released(out: seq<OutItem>): Bytes {
    if out == [] then []
    else
      var last := out[|out| - 1];
      Released(out[..|out| - 1]) + (if last.Data? then last.bytes else [])
  }

  ghost predicate Passes(classify: Classifier, items: seq<SourceItem>) {
    forall o :: o in Body(classify, items) ==> o.Data?
  }

  /** Frame order as a grammar: quiet* message_start inner* (message_stop | error). */
  ghost predicate OpensAt(classify: Classifier, bodies: seq<Bytes>, i: int) {
    && 0 <= i < |bodies| - 1
    && (forall k :: 0 <= k < i ==> Quiet(classify(bodies[k])))
    && Opening(classify(bodies[i]))
    && (forall k :: i < k < |bodies| - 1 ==> Inner(classify(bodies[k])))
    && Closing(classify(bodies[|bodies| - 1]))
  }

  ghost predicate WellOrdered(classify: Classifier, bodies: seq<Bytes>) {
    exists i :: OpensAt(classify, bodies, i)
  }

  ghost predicate FramesFit(frames: seq<Frame>) {
    forall i :: 0 <= i < |frames| ==> |frames[i].body| <= MAX_STREAM_FRAME
  }

  /** Room for the frame and all but the last byte of its separator, as a split can leave pending. */
  ghost predicate FramesFitPending(frames: seq<Frame>) {
    forall i :: 0 <= i < |frames| ==> |frames[i].body| + |frames[i].sep| - 1 <= MAX_STREAM_FRAME
  }

  /** A complete, well-ordered event stream within the size limits. */
  ghost predicate Acceptable(classify: Classifier, b: Bytes) {
    && Rest(b) == []
    && FramesFit(Frames(b))
    && |b| <= MAX_RESPONSE_BODY
    && WellOrdered(classify, Bodies(Frames(b)))
  }

  // ----- the automaton against the grammar

  lemma {:induction false} AdmitAllAppend(classify: Classifier, p: Phase, a: seq<Bytes>, b: seq<Bytes>)
    ensures AdmitAll(classify, p, a + b) ==
            var mid := AdmitAll(classify, p, a);
            if mid.None? then None else AdmitAll(classify, mid.value, b)
    decreases |a|
  {
    if a == [] {
      assert a + b == b;
    } else {
      assert (a + b)[0] == a[0] && (a + b)[1..] == a[1..] + b;
      var next := Admit(p, classify(a[0]));
      if next.Some? {
        AdmitAllAppend(classify, next.value, a[1..], b);
      }
    }
  }

  lemma {:induction false} AdmitFromStarted(classify: Classifier, bodies: seq<Bytes>)
    ensures AdmitAll(classify, Phase(true, false), bodies) == Some(Phase(true, true)) <==>
            && bodies != []
            && (forall k :: 0 <= k < |bodies| - 1 ==> Inner(classify(bodies[k])))
            && Closing(classify(bodies[|bodies| - 1]))
    decreases |bodies|
  {
    if |bodies| > 1 {
      var tail := bodies[1..];
      AdmitFromStarted(classify, tail);
      assert tail[|tail| - 1] == bodies[|bodies| - 1];
      assert forall k :: 0 <= k < |tail| ==> tail[k] == bodies[k + 1];
      assert Inner(classify(bodies[0])) && (forall k :: 0 <= k < |tail| - 1 ==> Inner(classify(tail[k])))
        ==> forall k :: 0 <= k < |bodies| - 1 ==> Inner(classify(bodies[k])) by {
        assert forall k :: 1 <= k < |bodies| - 1 ==> bodies[k] == tail[k - 1];
      }
      if Closing(classify(bodies[0])) {
        assert AdmitAll(classify, Phase(true, true), tail).None?;
      }
    } else if |bodies| == 1 {
      assert bodies[1..] == [];
    }
  }

  /** The automaton accepts exactly the grammar. */
  lemma {:induction false} AutomatonIsGrammar(classify: Classifier, bodies: seq<Bytes>)
    ensures AdmitAll(classify, INITIAL_PHASE, bodies) == Some(Phase(true, true)) <==> WellOrdered(classify, bodies)
    decreases |bodies|
  {
    if bodies != [] {
      var tail := bodies[1..];
      assert forall k :: 0 <= k < |tail| ==> tail[k] == bodies[k + 1];
      if Quiet(classify(bodies[0])) {
        AutomatonIsGrammar(classify, tail);
        QuietPrefix(classify, bodies);
      } else if Opening(classify(bodies[0])) {
        AdmitFromStarted(classify, tail);
        OpeningFirst(classify, bodies);
      } else {
        var first := classify(bodies[0]);
        assert forall i :: OpensAt(classify, bodies, i) && i > 0 ==> Quiet(first);
      }
    }
  }

  lemma QuietPrefix(classify: Classifier, bodies: seq<Bytes>)
    requires bodies != [] && Quiet(classify(bodies[0]))
    ensures WellOrdered(classify, bodies) <==> WellOrdered(classify, bodies[1..])
  {
    var tail := bodies[1..];
    if WellOrdered(classify, bodies) {
      var i :| OpensAt(classify, bodies, i);
      assert i != 0;
      assert OpensAt(classify, tail, i - 1);
    }
    if WellOrdered(classify, tail) {
      var i :| OpensAt(classify, tail, i);
      forall k | 0 <= k < i + 1
        ensures Quiet(classify(bodies[k]))
      {
        if k > 0 {
          assert bodies[k] == tail[k - 1];
        }
      }
      forall k | i + 1 < k < |bodies| - 1
        ensures Inner(classify(bodies[k]))
      {
        assert bodies[k] == tail[k - 1];
      }
      assert OpensAt(classify, bodies, i + 1);
    }
  }

  lemma OpeningFirst(classify: Classifier, bodies: seq<Bytes>)
    requires bodies != [] && Opening(classify(bodies[0]))
    ensures WellOrdered(classify, bodies) <==>
            && |bodies| > 1
            && (forall k :: 0 <= k < |bodies[1..]| - 1 ==> Inner(classify(bodies[1..][k])))
            && Closing(classify(bodies[1..][|bodies[1..]| - 1]))
  {
    var tail := bodies[1..];
    if WellOrdered(classify, bodies) {
      var i :| OpensAt(classify, bodies, i);
      assert i > 0 ==> Quiet(classify(bodies[0]));
      assert forall k :: 0 <= k < |tail| - 1 ==> tail[k] == bodies[k + 1];
    }
    if && |bodies| > 1
       && (forall k :: 0 <= k < |tail| - 1 ==> Inner(classify(tail[k])))
       && Closing(classify(tail[|tail| - 1])) {
      forall k | 0 < k < |bodies| - 1
        ensures Inner(classify(bodies[k]))
      {
        assert bodies[k] == tail[k - 1];
      }
      assert OpensAt(classify, bodies, 0);
    }
  }

  // ----- one chunk against the whole-buffer split

  lemma BodiesCons(f: Frame, rest: seq<Frame>)
    ensures Bodies([f] + rest) == [f.body] + Bodies(rest)
  {
  }

  lemma BodiesAppend(a: seq<Frame>, b: seq<Frame>)
    ensures Bodies(a + b) == Bodies(a) + Bodies(b)
  {
  }

  /** What Drain hands over is a prefix of the split; when it goes on, it is the whole split. */
  lemma {:induction false} DrainIsSplit(classify: Classifier, buf: Bytes, p: Phase)
    ensures var d := Drain(classify, buf, p);
            && d.handed <= Bodies(Frames(buf))
            && (d.end.None? ==>
                  && d.rest == Rest(buf)
                  && d.handed == Bodies(Frames(buf))
                  && AdmitAll(classify, p, d.handed) == Some(d.phase)
                  && FramesFit(Frames(buf))
                  && |d.rest| <= MAX_STREAM_FRAME
                  && (d.phase.terminal && !p.terminal ==> d.rest == []))
    decreases |buf|
  {
    var r := FindFrame(buf);
    if r.Some? {
      var c := r.value;
      var frame := Frame(buf[..c.frameEnd], buf[c.frameEnd..c.sepEnd]);
      var tail := buf[c.sepEnd..];
      BodiesCons(frame, Frames(tail));
      var next := Admit(p, classify(frame.body));
      if c.frameEnd <= MAX_STREAM_FRAME && next.Some? && !(next.value.terminal && c.sepEnd < |buf|) {
        DrainIsSplit(classify, tail, next.value);
        DrainGoesOn(classify, buf, p);
      }
    }
  }

  lemma FitsCons(f: Frame, rest: seq<Frame>)
    ensures FramesFit([f] + rest) <==> |f.body| <= MAX_STREAM_FRAME && FramesFit(rest)
  {
    var all := [f] + rest;
    assert all[0] == f && forall i :: 0 <= i < |rest| ==> all[i + 1] == rest[i];
    if |f.body| <= MAX_STREAM_FRAME && FramesFit(rest) {
      forall i | 0 <= i < |all|
        ensures |all[i].body| <= MAX_STREAM_FRAME
      {
        if i > 0 {
          assert all[i] == rest[i - 1];
        }
      }
    }
  }

  lemma DrainGoesOn(classify: Classifier, buf: Bytes, p: Phase)
    requires FindFrame(buf).Some? && FindFrame(buf).value.frameEnd <= MAX_STREAM_FRAME
    requires var c := FindFrame(buf).value;
             var next := Admit(p, classify(buf[..c.frameEnd]));
             next.Some? && !(next.value.terminal && c.sepEnd < |buf|)
    requires var c := FindFrame(buf).value;
             var next := Admit(p, classify(buf[..c.frameEnd])).value;
             var more := Drain(classify, buf[c.sepEnd..], next);
             more.end.None? ==>
                 FramesFit(Frames(buf[c.sepEnd..])) && AdmitAll(classify, next, more.handed) == Some(more.phase)
    ensures var d := Drain(classify, buf, p);
            d.end.None? ==> FramesFit(Frames(buf)) && AdmitAll(classify, p, d.handed) == Some(d.phase)
  {
    hide FindFrame, Admit;
    var c := FindFrame(buf).value;
    var d := Drain(classify, buf, p);
    var more := Drain(classify, buf[c.sepEnd..], Admit(p, classify(buf[..c.frameEnd])).value);
    assert d.handed[1..] == more.handed;
    FitsCons(Frame(buf[..c.frameEnd], buf[c.frameEnd..c.sepEnd]), Frames(buf[c.sepEnd..]));
  }

  /** Conversely, a split that fits, is admitted and leaves nothing behind a closing event drains. */
  lemma {:induction false} DrainSucceeds(classify: Classifier, buf: Bytes, p: Phase, q: Phase)
    requires AdmitAll(classify, p, Bodies(Frames(buf))) == Some(q)
    requires FramesFit(Frames(buf))
    requires |Rest(buf)| <= MAX_STREAM_FRAME
    requires q.terminal ==> Rest(buf) == []
    ensures Drain(classify, buf, p).end.None?
    decreases |buf|
  {
    var r := FindFrame(buf);
    if r.Some? {
      var c := r.value;
      var frame := Frame(buf[..c.frameEnd], buf[c.frameEnd..c.sepEnd]);
      var tail := buf[c.sepEnd..];
      BodiesCons(frame, Frames(tail));
      assert Frames(buf)[0] == frame;
      assert Frames(buf)[1..] == Frames(tail);
      assert Bodies(Frames(buf))[1..] == Bodies(Frames(tail));
      var next := Admit(p, classify(frame.body)).value;
      if next.terminal && tail != [] {
        TerminalEndsTheSplit(classify, tail, next, q);
      }
      DrainSucceeds(classify, tail, next, q);
    }
  }

  lemma TerminalEndsTheSplit(classify: Classifier, tail: Bytes, p: Phase, q: Phase)
    requires p.terminal && AdmitAll(classify, p, Bodies(Frames(tail))) == Some(q)
    requires q.terminal ==> Rest(tail) == []
    ensures tail == []
  {
    assert Bodies(Frames(tail)) == [];
    SplitIsLossless(tail);
  }

  // ----- runs

  /** What holds of the variables of a guard that has not failed, in terms of the source bytes alone. */
  ghost predicate LiveState(classify: Classifier, s: State, src: Bytes) {
    && !s.failed
    && s.pending == Rest(src)
    && s.total == |src| <= MAX_RESPONSE_BODY
    && s.handed == Bodies(Frames(src))
    && AdmitAll(classify, INITIAL_PHASE, s.handed) == Some(s.phase)
    && FramesFit(Frames(src))
    && |s.pending| <= MAX_STREAM_FRAME
    && (s.phase.terminal ==> s.pending == [])
  }

  /** What it has yielded: these bytes, and nothing else. */
  ghost predicate LiveOutput(out: seq<OutItem>, src: Bytes) {
    Released(out) == src && forall i :: 0 <= i < |out| ==> out[i].Data?
  }

  ghost predicate Live(classify: Classifier, items: seq<SourceItem>) {
    LiveState(classify, After(classify, items), Source(items)) && LiveOutput(Output(classify, items), Source(items))
  }

  lemma LiveStart(classify: Classifier)
    ensures Live(classify, [])
  {
    NoFrames([]);
  }

  lemma ReleasedSnoc(out: seq<OutItem>, o: OutItem)
    ensures Released(out + [o]) == Released(out) + (if o.Data? then o.bytes else [])
  {
    assert (out + [o])[..|out|] == out;
  }

  /** A chunk that is not refused keeps the guard live. */
  lemma LiveStep(classify: Classifier, items: seq<SourceItem>)
    requires items != [] && Live(classify, items[..|items| - 1])
    requires !After(classify, items).failed
    ensures Live(classify, items)
  {
    hide LiveState, LiveOutput, Poll;
    var before := items[..|items| - 1];
    var last := items[|items| - 1];
    LiveStateStep(classify, After(classify, before), Source(before), last);
    LiveOutputStep(Output(classify, before), Source(before), last.bytes);
  }

  lemma LiveStateStep(classify: Classifier, s: State, src: Bytes, item: SourceItem)
    requires LiveState(classify, s, src) && !Poll(classify, s, Some(item)).0.failed
    ensures item.Chunk?
    ensures LiveState(classify, Poll(classify, s, Some(item)).0, src + item.bytes)
    ensures Poll(classify, s, Some(item)).1 == Some(Data(item.bytes))
  {
    hide Drain, Frames, Rest, FindFrame, Bodies, AdmitAll, FramesFit;
    assert item.Chunk?;
    ExtendSplit(classify, src, item.bytes, s.phase);
    if s.phase.terminal {
      TerminalStays(classify, s.phase);
      assert s.pending + item.bytes == [];
    }
  }

  lemma LiveOutputStep(out: seq<OutItem>, src: Bytes, bytes: Bytes)
    requires LiveOutput(out, src)
    ensures LiveOutput(out + Yield(Some(Data(bytes))), src + bytes)
  {
    ReleasedSnoc(out, Data(bytes));
  }

  /** The split so far, one drained chunk further. */
  lemma ExtendSplit(classify: Classifier, src: Bytes, bytes: Bytes, p: Phase)
    requires AdmitAll(classify, INITIAL_PHASE, Bodies(Frames(src))) == Some(p)
    requires FramesFit(Frames(src))
    requires Drain(classify, Rest(src) + bytes, p).end.None?
    ensures var d := Drain(classify, Rest(src) + bytes, p);
            && d.rest == Rest(src + bytes)
            && Bodies(Frames(src)) + d.handed == Bodies(Frames(src + bytes))
            && AdmitAll(classify, INITIAL_PHASE, Bodies(Frames(src + bytes))) == Some(d.phase)
            && FramesFit(Frames(src + bytes))
            && |d.rest| <= MAX_STREAM_FRAME
            && (d.phase.terminal && !p.terminal ==> d.rest == [])
  {
    hide Drain, Frames, Rest, FindFrame, Bodies, AdmitAll;
    var buf := Rest(src) + bytes;
    SplitExtend(src, bytes);
    BodiesAppend(Frames(src), Frames(buf));
    DrainIsSplit(classify, buf, p);
    AdmitAllAppend(classify, INITIAL_PHASE, Bodies(Frames(src)), Bodies(Frames(buf)));
  }

  lemma TerminalStays(classify: Classifier, p: Phase)
    ensures Frames([]) == [] && Rest([]) == []
    ensures Drain(classify, [], p) == Drained([], p, [], None)
  {
    NoFrames([]);
  }

  /** The item at k made the guard fail; everything before it went through. */
  ghost predicate FailsAt(classify: Classifier, items: seq<SourceItem>, k: int) {
    && 0 <= k < |items|
    && Live(classify, items[..k])
    && After(classify, items).failed
    && After(classify, items).handed <= Bodies(Frames(Source(items[..k + 1])))
    && exists end :: Output(classify, items) == Output(classify, items[..k]) + [Failure(end)]
  }

  /** Even a refused chunk hands over no more than the split has, and the same frames. */
  lemma HandedOnFailure(classify: Classifier, src: Bytes, bytes: Bytes, p: Phase)
    ensures Bodies(Frames(src)) <= Bodies(Frames(src + bytes))
    ensures Bodies(Frames(src)) + Drain(classify, Rest(src) + bytes, p).handed <= Bodies(Frames(src + bytes))
  {
    hide Drain, Frames, Rest, FindFrame, Bodies;
    SplitExtend(src, bytes);
    BodiesAppend(Frames(src), Frames(Rest(src) + bytes));
    DrainIsSplit(classify, Rest(src) + bytes, p);
  }

  /** A poll that fails yields one error item. */
  lemma PollFails(classify: Classifier, s: State, item: SourceItem)
    requires !s.failed && Poll(classify, s, Some(item)).0.failed
    ensures var (t, out) := Poll(classify, s, Some(item));
            && out.Some? && out.value.Failure?
            && (t.handed == s.handed ||
                (item.Chunk? && t.handed == s.handed + Drain(classify, s.pending + item.bytes, s.phase).handed))
  {
  }

  lemma FailStep(classify: Classifier, items: seq<SourceItem>)
    requires items != [] && Live(classify, items[..|items| - 1])
    requires After(classify, items).failed
    ensures FailsAt(classify, items, |items| - 1)
  {
    hide Drain, Frames, Rest, FindFrame, Bodies, AdmitAll, FramesFit;
    var before := items[..|items| - 1];
    var s := After(classify, before);
    var last := items[|items| - 1];
    assert items[..|items|] == items;
    var out := Poll(classify, s, Some(last)).1;
    PollFails(classify, s, last);
    assert Output(classify, items) == Output(classify, before) + [Failure(out.value.end)];
    HandedOnFailure(classify, Source(before), if last.Chunk? then last.bytes else [], s.phase);
  }

  lemma FailureLasts(classify: Classifier, items: seq<SourceItem>, k: int)
    requires items != [] && FailsAt(classify, items[..|items| - 1], k)
    ensures FailsAt(classify, items, k)
  {
    hide Live, Frames, Bodies;
    var before := items[..|items| - 1];
    assert items[..k] == before[..k] && items[..k + 1] == before[..k + 1];
    assert Poll(classify, After(classify, before), Some(items[|items| - 1])) == (After(classify, before), None);
    assert Output(classify, items) == Output(classify, before);
  }

  /** Every run is live throughout, or live up to the one item at which it failed. */
  lemma {:induction false} RunShape(classify: Classifier, items: seq<SourceItem>)
    ensures Live(classify, items) || exists k :: FailsAt(classify, items, k)
    decreases |items|
  {
    hide Live, FailsAt, After;
    if items == [] {
      LiveStart(classify);
    } else {
      var before := items[..|items| - 1];
      RunShape(classify, before);
      if Live(classify, before) {
        if After(classify, items).failed {
          FailStep(classify, items);
        } else {
          LiveStep(classify, items);
        }
      } else {
        var k :| FailsAt(classify, before, k);
        FailureLasts(classify, items, k);
      }
    }
  }

  lemma {:induction false} SourcePrefix(items: seq<SourceItem>, k: nat)
    requires k <= |items|
    ensures Source(items[..k]) <= Source(items)
    decreases |items| - k
  {
    if k == |items| {
      assert items[..k] == items;
    } else {
      SourcePrefix(items, k + 1);
      assert items[..k + 1][..k] == items[..k];
    }
  }

  lemma FramesPrefix(a: Bytes, b: Bytes)
    requires a <= b
    ensures Bodies(Frames(a)) <= Bodies(Frames(b))
  {
    hide Frames, Rest, Bodies;
    var tail := b[|a|..];
    assert b == a + tail;
    SplitExtend(a, tail);
    BodiesAppend(Frames(a), Frames(Rest(a) + tail));
  }

  /**
   For every list of chunks, the frames the guard hands to the event parser are the successive
   frames of a whole-buffer split of all the bytes; all of them as long as it has not failed.
   */
  lemma HandedFramesAreTheSplit(classify: Classifier, items: seq<SourceItem>)
    ensures After(classify, items).handed <= Bodies(Frames(Source(items)))
    ensures !After(classify, items).failed ==> After(classify, items).handed == Bodies(Frames(Source(items)))
    ensures !After(classify, items).failed ==> After(classify, items).pending == Rest(Source(items))
  {
    hide Frames, Rest, Bodies, FindFrame, After, Output, Source, Drain, AdmitAll, FramesFit;
    RunShape(classify, items);
    if !Live(classify, items) {
      var k :| FailsAt(classify, items, k);
      SourcePrefix(items, k + 1);
      FramesPrefix(Source(items[..k + 1]), Source(items));
    }
  }

  /** At most one error item, and nothing after it. */
  ghost predicate ErrorIsLast(out: seq<OutItem>) {
    forall i :: 0 <= i < |out| && out[i].Failure? ==> i == |out| - 1
  }

  /** What a client of a failing or passing body may rely on. */
  ghost predicate SafeOutput(classify: Classifier, items: seq<SourceItem>, out: seq<OutItem>) {
    && Released(out) <= Source(items)
    && AdmitAll(classify, INITIAL_PHASE, Bodies(Frames(Released(out)))).Some?
    && FramesFit(Frames(Released(out)))
    && |Released(out)| <= MAX_RESPONSE_BODY
    && ErrorIsLast(out)
  }

  /**
   In every run, failing ones included: the client has a prefix of the source, every frame
   complete within it was admitted in order, at most one error item appears and it is last, and
   a guard that saw its closing event holds no bytes back.
   */
  lemma EveryRunIsSafe(classify: Classifier, items: seq<SourceItem>)
    ensures SafeOutput(classify, items, Output(classify, items))
    ensures SafeOutput(classify, items, Body(classify, items))
    ensures var s := After(classify, items); !s.failed && s.phase.terminal ==> s.pending == []
  {
    hide Frames, Rest, Bodies, AdmitAll, Drain, FramesFit, FindFrame;
    RunShape(classify, items);
    if Live(classify, items) {
      SafeWhileLive(classify, items, items);
      LiveBody(classify, items);
    } else {
      var k :| FailsAt(classify, items, k);
      SourcePrefix(items, k);
      SafeWhileLive(classify, items, items[..k]);
      assert Body(classify, items) == Output(classify, items);
    }
  }

  // ----- bytes held back behind a closing event

  /**
   In the bytes up to and with the k-th item, a chunk: the frames up to the n-th, which that chunk
   completes, are a whole stream in order and within the limits, and bytes follow.
   */
  ghost predicate TrailsClosing(classify: Classifier, items: seq<SourceItem>, k: int, n: int) {
    && 0 <= k < |items| && Live(classify, items[..k]) && items[k].Chunk?
    && |Source(items[..k + 1])| <= MAX_RESPONSE_BODY
    && |Frames(Source(items[..k]))| <= n
    && ClosesAt(classify, Source(items[..k + 1]), n)
  }

  /** The frames up to the n-th are a whole stream in order, each fits, and they are not all there is. */
  ghost predicate ClosesAt(classify: Classifier, src: Bytes, n: int) {
    && 0 <= n < |Frames(src)|
    && var frames := Frames(src)[..n + 1];
       FramesFit(frames) && WellOrdered(classify, Bodies(frames)) && |Join(frames)| < |src|
  }

  predicate Terminal(p: Option<Phase>) {
    p.Some? && p.value.terminal
  }

  /** From a phase on, the m-th of these frames of a buffer of this size closes the stream with bytes to follow. */
  ghost predicate Closes(classify: Classifier, frames: seq<Frame>, size: int, p: Phase, m: int) {
    && 0 <= m < |frames|
    && FramesFit(frames[..m + 1])
    && Terminal(AdmitAll(classify, p, Bodies(frames[..m + 1])))
    && |Join(frames[..m + 1])| < size
  }

  ghost predicate SomeCloses(classify: Classifier, buf: Bytes, p: Phase) {
    exists m :: Closes(classify, Frames(buf), |buf|, p, m)
  }

  /** The k-th item is a chunk in which the guard stops at data behind the closing event. */
  ghost predicate StopsBehindClosing(classify: Classifier, items: seq<SourceItem>, k: int) {
    && 0 <= k < |items| && Live(classify, items[..k]) && items[k].Chunk?
    && var s := After(classify, items[..k]);
       && !s.phase.terminal && s.total + |items[k].bytes| <= MAX_RESPONSE_BODY
       && Drain(classify, s.pending + items[k].bytes, s.phase).end == Some(DataAfterTerminal)
  }

  ghost predicate SomeChunkStops(classify: Classifier, items: seq<SourceItem>) {
    exists k :: StopsBehindClosing(classify, items, k)
  }

  /** An unfinished split that has seen the closing event ended because of what follows it. */
  lemma {:induction false} DrainStopsBehindClosing(classify: Classifier, buf: Bytes, p: Phase)
    requires !p.terminal
    ensures var d := Drain(classify, buf, p);
            && (d.end.Some? ==> (d.phase.terminal <==> d.end == Some(DataAfterTerminal)))
            && (d.end == Some(DataAfterTerminal) ==> buf != [])
            && (d.end.None? && d.phase.terminal ==> d.rest == [])
    decreases |buf|
  {
    var r := FindFrame(buf);
    if r.Some? {
      var c := r.value;
      var next := Admit(p, classify(buf[..c.frameEnd]));
      if c.frameEnd <= MAX_STREAM_FRAME && next.Some? && !(next.value.terminal && c.sepEnd < |buf|) {
        if next.value.terminal {
          NoFrames([]);
          assert buf[c.sepEnd..] == [];
        } else {
          DrainStopsBehindClosing(classify, buf[c.sepEnd..], next.value);
        }
      }
    }
  }

  lemma OneItemStops(classify: Classifier, s: State, src: Bytes, item: SourceItem)
    requires LiveState(classify, s, src)
    ensures var t := Poll(classify, s, Some(item)).0;
            t.phase.terminal && t.pending != [] <==>
            && item.Chunk? && !s.phase.terminal && s.total + |item.bytes| <= MAX_RESPONSE_BODY
            && Drain(classify, s.pending + item.bytes, s.phase).end == Some(DataAfterTerminal)
  {
    hide Drain, Frames, Rest, FindFrame, Bodies, AdmitAll, FramesFit;
    if item.Chunk? {
      if s.phase.terminal {
        TerminalStays(classify, s.phase);
        assert item.bytes == [] ==> s.pending + item.bytes == [];
      } else {
        DrainStopsBehindClosing(classify, s.pending + item.bytes, s.phase);
      }
    }
  }

  lemma {:induction false} TerminalPendingIffStopped(classify: Classifier, items: seq<SourceItem>)
    ensures var s := After(classify, items);
            s.phase.terminal && s.pending != [] <==> SomeChunkStops(classify, items)
    decreases |items|
  {
    if items != [] {
      var before, n := items[..|items| - 1], |items| - 1;
      TerminalPendingIffStopped(classify, before);
      StopsInPrefix(classify, items);
      assert items[..n] == before;
      hide Drain, Frames, Rest, FindFrame, Bodies, AdmitAll, FramesFit, Output, Source;
      RunShape(classify, before);
      if Live(classify, before) {
        OneItemStops(classify, After(classify, before), Source(before), items[n]);
        assert !SomeChunkStops(classify, before);
        var s := After(classify, items);
        assert StopsBehindClosing(classify, items, n) <==> s.phase.terminal && s.pending != [];
      } else {
        assert After(classify, items) == After(classify, before);
        assert !StopsBehindClosing(classify, items, n);
      }
    }
  }

  lemma StopsInPrefix(classify: Classifier, items: seq<SourceItem>)
    requires items != []
    ensures SomeChunkStops(classify, items) <==>
            SomeChunkStops(classify, items[..|items| - 1]) || StopsBehindClosing(classify, items, |items| - 1)
  {
    hide Drain, Live, After;
    var before := items[..|items| - 1];
    assert forall k :: 0 <= k < |before| ==> before[..k] == items[..k] && before[k] == items[k];
    assert forall k :: 0 <= k < |before| ==>
        (StopsBehindClosing(classify, before, k) <==> StopsBehindClosing(classify, items, k));
    if SomeChunkStops(classify, before) {
      var k :| StopsBehindClosing(classify, before, k);
      assert StopsBehindClosing(classify, items, k);
    }
    if SomeChunkStops(classify, items) {
      var k :| StopsBehindClosing(classify, items, k);
      assert k < |before| ==> StopsBehindClosing(classify, before, k);
    }
  }

  /** One frame further. */
  lemma ClosesCons(classify: Classifier, first: Frame, rest: seq<Frame>, size: int, p: Phase, m: nat)
    ensures var next := Admit(p, classify(first.body));
            Closes(classify, [first] + rest, |first.body| + |first.sep| + size, p, m) <==>
            && |first.body| <= MAX_STREAM_FRAME && next.Some?
            && if m == 0 then next.value.terminal && size > 0 else Closes(classify, rest, size, next.value, m - 1)
  {
    if m <= |rest| {
      var some := rest[..m];
      assert ([first] + rest)[..m + 1] == [first] + some;
      FitsCons(first, some);
      BodiesCons(first, some);
      JoinCons(first, some);
      var next, bodies := Admit(p, classify(first.body)), [first.body] + Bodies(some);
      assert bodies[0] == first.body && bodies[1..] == Bodies(some);
      assert AdmitAll(classify, p, bodies) ==
             if next.None? then None else AdmitAll(classify, next.value, Bodies(some));
      hide FramesFit, Join, Admit;
      if m == 0 {
        NoneLeft(some);
        assert next.Some? ==> AdmitAll(classify, next.value, Bodies(some)) == next;
      } else if next.Some? {
        assert rest[..m - 1 + 1] == some;
      }
    }
  }

  lemma NoneLeft(frames: seq<Frame>)
    requires frames == []
    ensures FramesFit(frames) && Join(frames) == [] && Bodies(frames) == []
  {
  }

  lemma NothingCloses(classify: Classifier, p: Phase)
    ensures !SomeCloses(classify, [], p)
    ensures Drain(classify, [], p).end.None?
  {
    NoFrames([]);
  }

  lemma TerminalClosesNothing(classify: Classifier, buf: Bytes, p: Phase)
    requires p.terminal
    ensures !SomeCloses(classify, buf, p)
  {
  }

  lemma SomeClosesCons(classify: Classifier, buf: Bytes, p: Phase)
    requires FindFrame(buf).Some?
    ensures var c := FindFrame(buf).value;
            var next := Admit(p, classify(buf[..c.frameEnd]));
            SomeCloses(classify, buf, p) <==>
            && c.frameEnd <= MAX_STREAM_FRAME && next.Some?
            && ((next.value.terminal && c.sepEnd < |buf|) || SomeCloses(classify, buf[c.sepEnd..], next.value))
  {
    var c := FindFrame(buf).value;
    var first := Frame(buf[..c.frameEnd], buf[c.frameEnd..c.sepEnd]);
    var tail := buf[c.sepEnd..];
    var next := Admit(p, classify(first.body));
    FirstFrameOf(buf);
    hide Frames, FindFrame, Closes;
    if SomeCloses(classify, buf, p) {
      var m :| Closes(classify, Frames(buf), |buf|, p, m);
      ClosesInRange(classify, Frames(buf), |buf|, p, m);
      ClosesCons(classify, first, Frames(tail), |tail|, p, m);
    }
    if c.frameEnd <= MAX_STREAM_FRAME && next.Some? {
      if next.value.terminal && c.sepEnd < |buf| {
        ClosesCons(classify, first, Frames(tail), |tail|, p, 0);
      }
      if SomeCloses(classify, tail, next.value) {
        var m :| Closes(classify, Frames(tail), |tail|, next.value, m);
        ClosesInRange(classify, Frames(tail), |tail|, next.value, m);
        ClosesCons(classify, first, Frames(tail), |tail|, p, m + 1);
      }
    }
  }

  lemma ClosesInRange(classify: Classifier, frames: seq<Frame>, size: int, p: Phase, m: int)
    requires Closes(classify, frames, size, p, m)
    ensures 0 <= m < |frames|
  {
  }

  /** The split stops at data behind the closing event exactly when the bytes have such data. */
  lemma {:induction false} DrainStopsIff(classify: Classifier, buf: Bytes, p: Phase)
    requires !p.terminal
    ensures Drain(classify, buf, p).end == Some(DataAfterTerminal) <==> SomeCloses(classify, buf, p)
    decreases |buf|
  {
    if FindFrame(buf).None? {
      NoFrames(buf);
    } else {
      hide SomeCloses;
      SomeClosesCons(classify, buf, p);
      var c := FindFrame(buf).value;
      var next := Admit(p, classify(buf[..c.frameEnd]));
      if c.frameEnd <= MAX_STREAM_FRAME && next.Some? {
        if !next.value.terminal {
          DrainStopsIff(classify, buf[c.sepEnd..], next.value);
        } else if c.sepEnd == |buf| {
          assert buf[c.sepEnd..] == [];
          NothingCloses(classify, next.value);
        }
      }
    }
  }

  /** Frames behind an admitted beginning fit and close exactly if the whole list does. */
  lemma ClosesBehind(classify: Classifier, before: seq<Frame>, more: seq<Frame>, p: Phase)
    requires AdmitAll(classify, INITIAL_PHASE, Bodies(before)) == Some(p) && FramesFit(before)
    ensures FramesFit(before + more) && WellOrdered(classify, Bodies(before + more)) <==>
            FramesFit(more) && Terminal(AdmitAll(classify, p, Bodies(more)))
  {
    hide AdmitAll, FramesFit, WellOrdered, Bodies;
    FitsAppend(before, more);
    BodiesAppend(before, more);
    AdmitAllAppend(classify, INITIAL_PHASE, Bodies(before), Bodies(more));
    AutomatonIsGrammar(classify, Bodies(before + more));
    StartedBeforeTerminal(classify, INITIAL_PHASE, Bodies(before + more));
  }

  /** From part-way through or from the start, it is the same frame that closes. */
  lemma ClosesAtIff(classify: Classifier, src: Bytes, bytes: Bytes, p: Phase, m: nat)
    requires AdmitAll(classify, INITIAL_PHASE, Bodies(Frames(src))) == Some(p) && FramesFit(Frames(src))
    ensures var buf := Rest(src) + bytes;
            Closes(classify, Frames(buf), |buf|, p, m) <==> ClosesAt(classify, src + bytes, |Frames(src)| + m)
  {
    hide Frames, Rest, FindFrame, AdmitAll, FramesFit, Join, WellOrdered, Bodies;
    var buf, before := Rest(src) + bytes, Frames(src);
    SplitExtend(src, bytes);
    assert |src + bytes| == |Join(before)| + |buf| by {
      SplitIsLossless(src);
    }
    if m < |Frames(buf)| {
      var more := Frames(buf)[..m + 1];
      assert Frames(src + bytes)[..|before| + m + 1] == before + more;
      JoinAppend(before, more);
      ClosesBehind(classify, before, more, p);
    }
  }

  lemma ClosesInSource(classify: Classifier, src: Bytes, bytes: Bytes, p: Phase)
    requires AdmitAll(classify, INITIAL_PHASE, Bodies(Frames(src))) == Some(p) && FramesFit(Frames(src))
    ensures SomeCloses(classify, Rest(src) + bytes, p) <==>
            exists n :: |Frames(src)| <= n && ClosesAt(classify, src + bytes, n)
  {
    hide Frames, Rest, FindFrame, Closes, ClosesAt, AdmitAll, FramesFit;
    var buf, base := Rest(src) + bytes, |Frames(src)|;
    if SomeCloses(classify, buf, p) {
      var m :| Closes(classify, Frames(buf), |buf|, p, m);
      ClosesInRange(classify, Frames(buf), |buf|, p, m);
      ClosesAtIff(classify, src, bytes, p, m);
    }
    if exists n :: base <= n && ClosesAt(classify, src + bytes, n) {
      var n :| base <= n && ClosesAt(classify, src + bytes, n);
      ClosesAtIff(classify, src, bytes, p, n - base);
    }
  }

  lemma FitsAppend(a: seq<Frame>, b: seq<Frame>)
    requires FramesFit(a)
    ensures FramesFit(a + b) <==> FramesFit(b)
  {
    if FramesFit(a + b) {
      FitsIsHereditary(a, b);
    }
  }

  lemma {:induction false} JoinAppend(a: seq<Frame>, b: seq<Frame>)
    ensures Join(a + b) == Join(a) + Join(b)
    decreases |a|
  {
    if a == [] {
      assert a + b == b;
    } else {
      JoinAppend(a[1..], b);
      assert (a + b)[1..] == a[1..] + b;
      Reassociate(a[0].body + a[0].sep, Join(a[1..]), Join(b));
    }
  }

  lemma ChunkStopsIff(classify: Classifier, s: State, src: Bytes, bytes: Bytes)
    requires LiveState(classify, s, src)
    ensures !s.phase.terminal && Drain(classify, s.pending + bytes, s.phase).end == Some(DataAfterTerminal) <==>
            exists n :: |Frames(src)| <= n && ClosesAt(classify, src + bytes, n)
  {
    hide Drain, Frames, Rest, FindFrame, Bodies, AdmitAll, FramesFit, SomeCloses, ClosesAt;
    ClosesInSource(classify, src, bytes, s.phase);
    if s.phase.terminal {
      TerminalClosesNothing(classify, Rest(src) + bytes, s.phase);
    } else {
      DrainStopsIff(classify, Rest(src) + bytes, s.phase);
    }
  }

  lemma StopsIffTrails(classify: Classifier, items: seq<SourceItem>, k: nat)
    requires k < |items| && Live(classify, items[..k]) && items[k].Chunk?
    ensures StopsBehindClosing(classify, items, k) <==> exists n :: TrailsClosing(classify, items, k, n)
  {
    var s, src, bytes := After(classify, items[..k]), Source(items[..k]), items[k].bytes;
    assert items[..k + 1][..k] == items[..k];
    assert Source(items[..k + 1]) == src + bytes;
    assert s.total == |src|;
    hide Live, After, Source, ClosesAt, Drain, Frames;
    assert LiveState(classify, s, src) by {
      LiveIsLiveState(classify, items[..k]);
    }
    hide LiveState;
    ChunkStopsIff(classify, s, src, bytes);
    if StopsBehindClosing(classify, items, k) {
      var n :| |Frames(src)| <= n && ClosesAt(classify, src + bytes, n);
      assert TrailsClosing(classify, items, k, n);
    }
  }

  lemma LiveIsLiveState(classify: Classifier, items: seq<SourceItem>)
    requires Live(classify, items)
    ensures LiveState(classify, After(classify, items), Source(items))
  {
  }

  /**
   A guard that has seen its closing event, failed or not, holds bytes back in exactly one case:
   they came in the same chunk as that event, behind it.
   */
  lemma TerminalPendingIff(classify: Classifier, items: seq<SourceItem>)
    ensures var s := After(classify, items);
            s.phase.terminal && s.pending != [] <==> exists k, n :: TrailsClosing(classify, items, k, n)
  {
    hide After;
    TerminalPendingIffStopped(classify, items);
    if SomeChunkStops(classify, items) {
      var k :| StopsBehindClosing(classify, items, k);
      StopsIffTrails(classify, items, k);
    }
    if exists k, n :: TrailsClosing(classify, items, k, n) {
      var k, n :| TrailsClosing(classify, items, k, n);
      StopsIffTrails(classify, items, k);
    }
  }

  lemma LiveBody(classify: Classifier, items: seq<SourceItem>)
    requires Live(classify, items)
    ensures var out := Output(classify, items);
            Body(classify, items) == out || Body(classify, items) == out + [Failure(MissingTerminal)]
  {
    hide Frames, Rest, Bodies, AdmitAll, Drain, FramesFit, FindFrame;
    assert Output(classify, items) + [] == Output(classify, items);
  }

  /** The output up to a live point is safe, and so is that output closed by one error item. */
  lemma SafeWhileLive(classify: Classifier, items: seq<SourceItem>, seen: seq<SourceItem>)
    requires Live(classify, seen) && Source(seen) <= Source(items)
    ensures SafeOutput(classify, items, Output(classify, seen))
    ensures forall end :: SafeOutput(classify, items, Output(classify, seen) + [Failure(end)])
  {
    hide Frames, Rest, Bodies, AdmitAll, Drain, FramesFit, FindFrame, Output, After;
    var out := Output(classify, seen);
    forall end
      ensures SafeOutput(classify, items, out + [Failure(end)])
    {
      ReleasedSnoc(out, Failure(end));
      assert Released(out + [Failure(end)]) == Released(out);
      assert ErrorIsLast(out + [Failure(end)]);
    }
  }

  /**
   A body that ends without an error item delivered exactly its input, and that input is a
   complete, well-ordered event stream within the limits.
   */
  lemma PassingStreamIsAcceptable(classify: Classifier, items: seq<SourceItem>)
    requires Passes(classify, items)
    ensures forall i :: 0 <= i < |items| ==> items[i].Chunk?
    ensures Released(Body(classify, items)) == Source(items)
    ensures Acceptable(classify, Source(items))
  {
    hide Frames, Rest, Bodies, Drain, FramesFit, FindFrame;
    RunShape(classify, items);
    var s := After(classify, items);
    var out := Output(classify, items);
    if !Live(classify, items) {
      var k :| FailsAt(classify, items, k);
      FailingRunDoesNotPass(classify, items, k);
      assert false;
    }
    UnfinishedRunDoesNotPass(classify, items);
    assert Body(classify, items) == out;
    StartedBeforeTerminal(classify, INITIAL_PHASE, s.handed);
    AutomatonIsGrammar(classify, s.handed);
    OnlyChunks(classify, items);
  }

  lemma FailingRunDoesNotPass(classify: Classifier, items: seq<SourceItem>, k: int)
    requires FailsAt(classify, items, k)
    ensures !Passes(classify, items)
  {
    hide Live, Frames, Bodies, Poll, After;
    var out := Output(classify, items);
    var end :| out == Output(classify, items[..k]) + [Failure(end)];
    var body := Body(classify, items);
    assert body[|out| - 1] == Failure(end);
    assert body[|out| - 1] in body;
  }

  lemma UnfinishedRunDoesNotPass(classify: Classifier, items: seq<SourceItem>)
    ensures var s := After(classify, items);
            !s.failed && !(s.phase.terminal && s.pending == []) ==> !Passes(classify, items)
  {
    var s := After(classify, items);
    if !s.failed && !(s.phase.terminal && s.pending == []) {
      var body := Body(classify, items);
      assert body[|Output(classify, items)|] == Failure(MissingTerminal);
      assert body[|Output(classify, items)|] in body;
    }
  }

  lemma {:induction false} StartedBeforeTerminal(classify: Classifier, p: Phase, bodies: seq<Bytes>)
    requires p.terminal ==> p.started
    ensures var q := AdmitAll(classify, p, bodies); q.Some? && q.value.terminal ==> q.value.started
    decreases |bodies|
  {
    if bodies != [] {
      var next := Admit(p, classify(bodies[0]));
      if next.Some? {
        StartedBeforeTerminal(classify, next.value, bodies[1..]);
      }
    }
  }

  lemma {:induction false} OnlyChunks(classify: Classifier, items: seq<SourceItem>)
    requires !After(classify, items).failed
    ensures forall i :: 0 <= i < |items| ==> items[i].Chunk?
    decreases |items|
  {
    if items != [] {
      var before := items[..|items| - 1];
      OnlyChunks(classify, before);
      assert items == before + [items[|items| - 1]];
    }
  }

  // ----- which inputs pass however they are chunked

  /** While a complete stream arrives, what is held back is less than its next frame and separator. */
  lemma RestWithinNextFrame(a: Bytes, b: Bytes)
    requires Rest(a + b) == [] && Rest(a) != []
    ensures var j := |Frames(a)|;
            j < |Frames(a + b)| && |Rest(a)| < |Frames(a + b)[j].body| + |Frames(a + b)[j].sep|
  {
    var held := Rest(a);
    SplitExtend(a, b);
    RestIsUnframed(a);
    var r := FindFrame(held + b);
    assert r.Some?;
    var c := r.value;
    if c.sepEnd <= |held| {
      FindIsLeast(held);
      FindIsLeast(held + b);
      assert SepAt(held, c.frameEnd);
      assert false;
    }
    assert Frames(a + b)[|Frames(a)|] == Frames(held + b)[0];
  }

  lemma FitsIsHereditary(a: seq<Frame>, b: seq<Frame>)
    requires FramesFit(a + b)
    ensures FramesFit(a) && FramesFit(b)
  {
    forall i | 0 <= i < |a|
      ensures |a[i].body| <= MAX_STREAM_FRAME
    {
      assert (a + b)[i] == a[i];
    }
    forall i | 0 <= i < |b|
      ensures |b[i].body| <= MAX_STREAM_FRAME
    {
      assert (a + b)[|a| + i] == b[i];
    }
  }

  /** The state of the automaton part-way through an acceptable stream. */
  lemma PartWay(classify: Classifier, a: Bytes, b: Bytes) returns (p: Phase)
    requires Acceptable(classify, a + b)
    ensures AdmitAll(classify, INITIAL_PHASE, Bodies(Frames(a))) == Some(p)
    ensures AdmitAll(classify, p, Bodies(Frames(Rest(a) + b))) == Some(Phase(true, true))
    ensures FramesFit(Frames(a)) && FramesFit(Frames(Rest(a) + b))
    ensures p.terminal ==> Rest(a) == [] && b == []
  {
    hide Frames, Rest, Bodies, FindFrame, FramesFit, AdmitAll;
    AutomatonIsGrammar(classify, Bodies(Frames(a + b)));
    SplitExtend(a, b);
    BodiesAppend(Frames(a), Frames(Rest(a) + b));
    AdmitAllAppend(classify, INITIAL_PHASE, Bodies(Frames(a)), Bodies(Frames(Rest(a) + b)));
    FitsIsHereditary(Frames(a), Frames(Rest(a) + b));
    p := AdmitAll(classify, INITIAL_PHASE, Bodies(Frames(a))).value;
    if p.terminal {
      TerminalEndsTheSplit(classify, Rest(a) + b, p, Phase(true, true));
    }
  }

  /** One more chunk of an acceptable stream is not refused, provided what it leaves pending fits. */
  lemma NextChunkPasses(classify: Classifier, items: seq<SourceItem>, tail: Bytes)
    requires items != [] && items[|items| - 1].Chunk?
    requires Live(classify, items[..|items| - 1])
    requires Acceptable(classify, Source(items) + tail)
    requires |Rest(Source(items))| <= MAX_STREAM_FRAME
    ensures Live(classify, items)
  {
    hide Frames, Rest, Bodies, FindFrame, FramesFit, AdmitAll, Drain, Acceptable;
    var before := items[..|items| - 1];
    var s := After(classify, before);
    var bytes := items[|items| - 1].bytes;
    assert Source(items) == Source(before) + bytes;
    ChunkDrains(classify, Source(before), bytes, tail, s.phase);
    LiveStep(classify, items);
  }

  lemma ChunkDrains(classify: Classifier, src: Bytes, bytes: Bytes, tail: Bytes, p: Phase)
    requires Acceptable(classify, src + bytes + tail)
    requires |Rest(src + bytes)| <= MAX_STREAM_FRAME
    requires AdmitAll(classify, INITIAL_PHASE, Bodies(Frames(src))) == Some(p)
    ensures Drain(classify, Rest(src) + bytes, p).end.None?
    ensures p.terminal ==> bytes == []
    ensures |src + bytes| <= MAX_RESPONSE_BODY
  {
    hide Frames, Rest, Bodies, FindFrame, FramesFit, AdmitAll, Drain;
    assert src + bytes + tail == src + (bytes + tail);
    var p' := PartWay(classify, src, bytes + tail);
    var q := PartWay(classify, src + bytes, tail);
    SplitExtend(src, bytes);
    BodiesAppend(Frames(src), Frames(Rest(src) + bytes));
    AdmitAllAppend(classify, INITIAL_PHASE, Bodies(Frames(src)), Bodies(Frames(Rest(src) + bytes)));
    FitsIsHereditary(Frames(src), Frames(Rest(src) + bytes));
    DrainSucceeds(classify, Rest(src) + bytes, p, q);
  }

  ghost predicate AllChunks(items: seq<SourceItem>) {
    forall i :: 0 <= i < |items| ==> items[i].Chunk?
  }

  /**
   No prefix of an acceptable stream is refused, if each frame behind a head of whole frames fits
   with its unfinished separator, and that head arrives in one chunk.
   */
  lemma {:induction false} NeverRefused(classify: Classifier, items: seq<SourceItem>, head: Bytes, tail: Bytes)
    requires AllChunks(items) && (items == [] || head <= items[0].bytes)
    requires Acceptable(classify, Source(items) + tail)
    requires head <= Source(items) + tail && Rest(head) == []
    requires FramesFitPending(Frames((Source(items) + tail)[|head|..]))
    ensures Live(classify, items)
    decreases |items|
  {
    hide Frames, Rest, FindFrame, Acceptable, Live, FramesFitPending;
    if items == [] {
      LiveStart(classify);
    } else {
      var before := items[..|items| - 1];
      var bytes := items[|items| - 1].bytes;
      assert Source(items) + tail == Source(before) + (bytes + tail);
      NeverRefused(classify, before, head, bytes + tail);
      StartsWithFirst(items);
      var y := Source(items)[|head|..];
      assert Source(items) == head + y;
      assert (Source(items) + tail)[|head|..] == y + tail;
      SplitAtBoundary(head, y);
      assert Rest(y + tail) == [] by {
        assert Source(items) + tail == head + (y + tail);
        SplitAtBoundary(head, y + tail);
        AcceptableIsWhole(classify, Source(items) + tail);
      }
      RestFits(y, tail);
      NextChunkPasses(classify, items, tail);
    }
  }

  lemma AcceptableIsWhole(classify: Classifier, b: Bytes)
    requires Acceptable(classify, b)
    ensures Rest(b) == []
  {
  }

  lemma RestFits(y: Bytes, tail: Bytes)
    requires Rest(y + tail) == [] && FramesFitPending(Frames(y + tail))
    ensures |Rest(y)| <= MAX_STREAM_FRAME
  {
    hide Frames, Rest;
    if Rest(y) != [] {
      RestWithinNextFrame(y, tail);
    }
  }

  lemma {:induction false} StartsWithFirst(items: seq<SourceItem>)
    requires items != [] && items[0].Chunk?
    ensures items[0].bytes <= Source(items)
    decreases |items|
  {
    if |items| == 1 {
      assert Source(items) == [] + items[0].bytes;
    } else {
      StartsWithFirst(items[..|items| - 1]);
    }
  }

  lemma LiveToTheEndPasses(classify: Classifier, items: seq<SourceItem>)
    requires Live(classify, items) && Acceptable(classify, Source(items))
    ensures Passes(classify, items)
  {
    hide Frames, Rest, Bodies, FindFrame, FramesFit, AdmitAll;
    AutomatonIsGrammar(classify, Bodies(Frames(Source(items))));
    assert Body(classify, items) == Output(classify, items);
  }

  lemma SourceOfOne(b: Bytes)
    ensures Source([Chunk(b)]) == b
  {
    assert [Chunk(b)][..0] == [];
  }

  lemma SourceOfTwo(a: Bytes, b: Bytes)
    ensures Source([Chunk(a), Chunk(b)]) == a + b
  {
    assert [Chunk(a), Chunk(b)][..1] == [Chunk(a)];
    SourceOfOne(a);
  }

  /** Delivered in one chunk, a stream passes exactly when it is acceptable. */
  lemma OneChunkPassesIffAcceptable(classify: Classifier, b: Bytes)
    ensures Passes(classify, [Chunk(b)]) <==> Acceptable(classify, b)
  {
    SourceOfOne(b);
    if Passes(classify, [Chunk(b)]) {
      PassingStreamIsAcceptable(classify, [Chunk(b)]);
    }
    if Acceptable(classify, b) {
      LiveStart(classify);
      assert [Chunk(b)][..0] == [];
      assert b + [] == b;
      NextChunkPasses(classify, [Chunk(b)], []);
      LiveToTheEndPasses(classify, [Chunk(b)]);
    }
  }

  /** Cut just before the last byte of a separator whose frame is too long, a stream is refused. */
  lemma LateSeparatorIsRefused(classify: Classifier, a: Bytes, b: Bytes)
    requires |Rest(a)| > MAX_STREAM_FRAME
    ensures !Passes(classify, [Chunk(a), Chunk(b)])
  {
    hide Rest, Frames, After, Body, Output, Source, FindFrame, Drain;
    var items := [Chunk(a), Chunk(b)];
    assert items[..1] == [Chunk(a)];
    SourceOfOne(a);
    RunShape(classify, [Chunk(a)]);
    assert !Live(classify, [Chunk(a)]);
    var k :| FailsAt(classify, [Chunk(a)], k);
    FailureLasts(classify, items, k);
    FailingRunDoesNotPass(classify, items, k);
  }

  ghost predicate PassesHoweverChunked(classify: Classifier, b: Bytes) {
    forall items :: AllChunks(items) && Source(items) == b ==> Passes(classify, items)
  }

  lemma EveryChunkingPasses(classify: Classifier, b: Bytes)
    requires Acceptable(classify, b) && FramesFitPending(Frames(b))
    ensures PassesHoweverChunked(classify, b)
  {
    hide Acceptable, Passes, Frames, Rest, FramesFitPending, Live;
    forall items | AllChunks(items) && Source(items) == b
      ensures Passes(classify, items)
    {
      assert Source(items) + [] == b && b[0..] == b;
      NoFrames([]);
      NeverRefused(classify, items, [], []);
      LiveToTheEndPasses(classify, items);
    }
  }

  /** Two chunks show a frame that does not fit with its unfinished separator. */
  lemma FrameFitsIfBothHalvesPass(classify: Classifier, b: Bytes, i: nat)
    requires PassesHoweverChunked(classify, b) && i < |Frames(b)|
    ensures |Frames(b)[i].body| + |Frames(b)[i].sep| - 1 <= MAX_STREAM_FRAME
  {
    hide Passes, Frames, Rest, Source;
    var a, tail := CutBeforeSeparatorEnd(b, i);
    SourceOfTwo(a, tail);
    assert AllChunks([Chunk(a), Chunk(tail)]);
    if |Rest(a)| > MAX_STREAM_FRAME {
      LateSeparatorIsRefused(classify, a, tail);
      assert false;
    }
  }

  /**
   A stream passes under every chunking exactly when it is acceptable and every frame, with all
   but the last byte of its separator, fits in the pending buffer.
   */
  lemma PassesHoweverChunkedIff(classify: Classifier, b: Bytes)
    ensures PassesHoweverChunked(classify, b) <==> Acceptable(classify, b) && FramesFitPending(Frames(b))
  {
    hide Acceptable, Passes, Frames, Rest, Source;
    if Acceptable(classify, b) && FramesFitPending(Frames(b)) {
      EveryChunkingPasses(classify, b);
    }
    if PassesHoweverChunked(classify, b) {
      SourceOfOne(b);
      assert AllChunks([Chunk(b)]);
      OneChunkPassesIffAcceptable(classify, b);
      forall i | 0 <= i < |Frames(b)|
        ensures |Frames(b)[i].body| + |Frames(b)[i].sep| - 1 <= MAX_STREAM_FRAME
      {
        FrameFitsIfBothHalvesPass(classify, b, i);
      }
    }
  }

  /** In particular, an acceptable stream whose frames leave room for a separator cut anywhere. */
  lemma ShortFramesPass(classify: Classifier, b: Bytes)
    requires Acceptable(classify, b)
    requires forall i :: 0 <= i < |Frames(b)| ==> |Frames(b)[i].body| <= MAX_STREAM_FRAME - 3
    ensures PassesHoweverChunked(classify, b)
  {
    hide Acceptable, Frames, PassesHoweverChunked;
    SeparatorLengths(b);
    PassesHoweverChunkedIff(classify, b);
  }
}
