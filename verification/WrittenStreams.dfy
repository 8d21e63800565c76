/**
 Streams as a provider writes them, event by event: which sequences of event names the adapter
 lets through, and what its client then receives. Names and limits are written out.
 */
module WrittenStreams {
  import opened Common
  import opened Json
  import opened SseFraming
  import opened SseEvents
  import opened SseEventLaws
  import opened StreamGuard
  import opened GuardedRuns
  import opened StreamIdentity
  import opened StreamedResponse

  /** An event with its name and value, or a comment that keeps the connection alive. */
  datatype Event = Event(name: Bytes, value: Value) | Comment(text: Bytes)

  /** The name fits on its line, and the value says the same type. */
  predicate Writable(e: Event) {
    if e.Comment? then PlainText(e.text) else EventName(e.name) && HasType(e.value, e.name)
  }

  ghost predicate AllWritable(events: seq<Event>) {
    forall k :: 0 <= k < |events| ==> Writable(events[k])
  }

  function BodyOf(codec: Codec, e: Event): Bytes {
    if e.Comment? then [COLON] + e.text else EventBody(codec, e.name, e.value)
  }

  /** Each event as one frame, closed by a blank line. */
  function Write(codec: Codec, events: seq<Event>): Bytes {
    if events == [] then [] else BodyOf(codec, events[0]) + [LF, LF] + Write(codec, events[1..])
  }

  function FramesOf(codec: Codec, events: seq<Event>): (r: seq<Frame>)
    ensures |r| == |events|
    ensures forall k :: 0 <= k < |r| ==> r[k] == Frame(BodyOf(codec, events[k]), [LF, LF])
  {
    seq(|events|, k requires 0 <= k < |events| => Frame(BodyOf(codec, events[k]), [LF, LF]))
  }

  lemma CommentIsOneFrame(codec: Codec, text: Bytes)
    requires PlainText(text)
    ensures var body := [COLON] + text;
            && Frames(body + [LF, LF]) == [Frame(body, [LF, LF])] && Rest(body + [LF, LF]) == []
            && EventOf(codec, body) == Some(Empty)
  {
    var body := [COLON] + text;
    var b, n := body + [LF, LF], |body|;
    assert PlainText(body);
    assert ValidUtf8(body) && Lines(body) == [body] by {
      AsciiPrefixUtf8(body, []);
      assert body + [] == body;
      IndexOfLfIs(body, n);
    }
    hide Frames, Rest, FindFrame, Lines, ValidUtf8, EventOf;
    FindIs(b, n);
    assert b[..n] == body && b[n..n + 2] == [LF, LF];
    NoFrames([]);
    OneFrameWhole(b);
    OnlySkippedIsEmpty(codec, body);
  }

  lemma OneEventOneFrame(codec: Codec, e: Event)
    requires Lawful(codec) && Writable(e)
    ensures var body := BodyOf(codec, e);
            Frames(body + [LF, LF]) == [Frame(body, [LF, LF])] && Rest(body + [LF, LF]) == []
  {
    hide Frames, Rest, Lawful, EventBody, HasType, EventName, PlainText;
    if e.Comment? {
      CommentIsOneFrame(codec, e.text);
    } else {
      EventIsOneFrame(codec, e.name, e.value);
    }
  }

  lemma {:induction false} WrittenFrames(codec: Codec, events: seq<Event>)
    requires Lawful(codec) && AllWritable(events)
    ensures Frames(Write(codec, events)) == FramesOf(codec, events) && Rest(Write(codec, events)) == []
    decreases |events|
  {
    hide Frames, Rest, Lawful, BodyOf, Writable;
    if events == [] {
      NoFrames([]);
    } else {
      var e := events[0];
      WrittenFrames(codec, events[1..]);
      OneEventOneFrame(codec, e);
      SplitAtBoundary(BodyOf(codec, e) + [LF, LF], Write(codec, events[1..]));
    }
  }

  lemma WriteCons(codec: Codec, e: Event, rest: seq<Event>)
    ensures Write(codec, [e] + rest) == BodyOf(codec, e) + [LF, LF] + Write(codec, rest)
  {
    hide BodyOf;
    assert ([e] + rest)[0] == e && ([e] + rest)[1..] == rest;
  }

  lemma WriteNothing(codec: Codec)
    ensures Write(codec, []) == []
  {
  }

  lemma {:induction false} WriteAppend(codec: Codec, a: seq<Event>, b: seq<Event>)
    ensures Write(codec, a + b) == Write(codec, a) + Write(codec, b)
    decreases |a|
  {
    hide Write, BodyOf;
    if a == [] {
      WriteNothing(codec);
      assert a + b == b && a == [];
    } else {
      var e, rest := a[0], a[1..];
      WriteAppend(codec, rest, b);
      assert a == [e] + rest;
      assert a + b == [e] + (rest + b);
      WriteCons(codec, e, rest);
      WriteCons(codec, e, rest + b);
      Reassociate(BodyOf(codec, e) + [LF, LF], Write(codec, rest), Write(codec, b));
    }
  }

  // ----- names in order

  /** Comments, pings and events of unknown name, which may stand anywhere before the end. */
  predicate QuietEvent(e: Event) {
    e.Comment? || e.name == Ascii("ping") || !KnownName(e.name)
  }

  predicate StartEvent(e: Event) {
    e.Event? && e.name == Ascii("message_start")
  }

  predicate InnerEvent(e: Event) {
    QuietEvent(e) || (e.Event? && InnerName(e.name))
  }

  predicate ClosingEvent(e: Event) {
    e.Event? && (e.name == Ascii("message_stop") || e.name == Ascii("error"))
  }

  /** Quiet events, one message_start, then quiet and inner events, then one that closes. */
  ghost predicate InOrder(events: seq<Event>, i: int) {
    && 0 <= i < |events| - 1
    && (forall k :: 0 <= k < i ==> QuietEvent(events[k]))
    && StartEvent(events[i])
    && (forall k :: i < k < |events| - 1 ==> InnerEvent(events[k]))
    && ClosingEvent(events[|events| - 1])
  }

  lemma KindOfEvent(codec: Codec, e: Event)
    requires Lawful(codec) && Writable(e)
    ensures var event := EventOf(codec, BodyOf(codec, e));
            && (Quiet(event) <==> QuietEvent(e))
            && (Opening(event) <==> StartEvent(e))
            && (Opening(event) ==> event == Some(MessageStart(e.value)))
            && (Inner(event) <==> InnerEvent(e))
            && (Closing(event) <==> ClosingEvent(e))
  {
    hide EventBody, EventOf, Lawful, HasType, EventName, PlainText;
    if e.Comment? {
      CommentIsOneFrame(codec, e.text);
    } else {
      WrittenEventIs(codec, e.name, e.value);
      NamesDiffer();
      hide Ascii;
    }
  }

  lemma OrderIffNames(id: Identity, events: seq<Event>, i: int)
    requires Lawful(id.codec) && AllWritable(events)
    ensures OpensAt(Reader(id), Bodies(FramesOf(id.codec, events)), i) <==> InOrder(events, i)
  {
    hide Quiet, Opening, Inner, Closing, QuietEvent, StartEvent, InnerEvent, ClosingEvent, EventOf, Lawful, Writable,
         BodyOf;
    var bodies := Bodies(FramesOf(id.codec, events));
    forall k | 0 <= k < |events|
      ensures var event := Reader(id)(bodies[k]);
              && (Quiet(event) <==> QuietEvent(events[k])) && (Opening(event) <==> StartEvent(events[k]))
              && (Inner(event) <==> InnerEvent(events[k])) && (Closing(event) <==> ClosingEvent(events[k]))
    {
      KindOfEvent(id.codec, events[k]);
    }
  }

  /** Every event and the whole are within the limits, with this much room beside each event. */
  ghost predicate Fits(codec: Codec, events: seq<Event>, room: nat) {
    && (forall k :: 0 <= k < |events| ==> |BodyOf(codec, events[k])| + room <= 4 * 1024 * 1024)
    && |Write(codec, events)| <= 32 * 1024 * 1024
  }

  /** A written stream passes the guard in one chunk exactly if its names are in order and it fits. */
  lemma WrittenPassesIff(id: Identity, events: seq<Event>)
    requires Lawful(id.codec) && AllWritable(events)
    ensures Passes(Reader(id), [Chunk(Write(id.codec, events))]) <==>
            (exists i :: InOrder(events, i)) && Fits(id.codec, events, 0)
  {
    OneChunkPassesIffAcceptable(Reader(id), Write(id.codec, events));
    WrittenIsAcceptableIff(id, events);
  }

  lemma WrittenIsAcceptableIff(id: Identity, events: seq<Event>)
    requires Lawful(id.codec) && AllWritable(events)
    ensures Acceptable(Reader(id), Write(id.codec, events)) <==>
            (exists i :: InOrder(events, i)) && Fits(id.codec, events, 0)
  {
    hide Frames, Rest, Lawful, Write, InOrder, OpensAt, BodyOf;
    WrittenFrames(id.codec, events);
    forall i
      ensures OpensAt(Reader(id), Bodies(FramesOf(id.codec, events)), i) <==> InOrder(events, i)
    {
      OrderIffNames(id, events, i);
    }
    FitMeans(id.codec, events, 0);
  }

  lemma FitMeans(codec: Codec, events: seq<Event>, room: nat)
    ensures (forall k :: 0 <= k < |events| ==> |BodyOf(codec, events[k])| + room <= 4 * 1024 * 1024) <==>
            forall k :: 0 <= k < |FramesOf(codec, events)| ==>
                |FramesOf(codec, events)[k].body| + room <= MAX_STREAM_FRAME
  {
    hide BodyOf;
    var frames := FramesOf(codec, events);
    assert forall k :: 0 <= k < |events| ==> frames[k].body == BodyOf(codec, events[k]);
  }

  /** However it is chunked, exactly if there is also room for one byte beside each event. */
  lemma WrittenPassesHoweverChunkedIff(id: Identity, events: seq<Event>)
    requires Lawful(id.codec) && AllWritable(events)
    ensures PassesHoweverChunked(Reader(id), Write(id.codec, events)) <==>
            (exists i :: InOrder(events, i)) && Fits(id.codec, events, 1)
  {
    hide Frames, Rest, Lawful, Write, InOrder, Acceptable, PassesHoweverChunked, BodyOf;
    var b := Write(id.codec, events);
    PassesHoweverChunkedIff(Reader(id), b);
    WrittenIsAcceptableIff(id, events);
    WrittenFrames(id.codec, events);
    FitMeans(id.codec, events, 1);
    var frames := FramesOf(id.codec, events);
    assert forall k :: 0 <= k < |frames| ==> |frames[k].sep| == 2;
  }

  // ----- end to end

  lemma ReplacedValueIsUnique(v: Value, w: Value, model: Bytes)
    requires ModelOf(v).Some? && OnlyModelReplaced(v, w, model)
    ensures w == WithModel(v, model)
  {
    hide Ascii;
    var message := v.fields[MESSAGE];
    assert w.fields[MESSAGE].fields == message.fields[MODEL := String(model)];
    assert w.fields == v.fields[MESSAGE := Object(message.fields[MODEL := String(model)])];
  }

  /** Room for a stream that starts with the identity at i: it comes early, and the rest fits as before. */
  ghost predicate FitsBehind(codec: Codec, events: seq<Event>, i: nat, w: Value)
    requires i < |events|
  {
    var start := Event(Ascii("message_start"), w);
    && |Write(codec, events[..i + 1])| <= 64 * 1024
    && |BodyOf(codec, start)| <= 4 * 1024 * 1024
    && (forall k :: i < k < |events| ==> |BodyOf(codec, events[k])| + 1 <= 4 * 1024 * 1024)
    && |Write(codec, events[i := start])| <= 32 * 1024 * 1024
  }

  lemma WrittenShows(id: Identity, events: seq<Event>, i: nat)
    requires Lawful(id.codec) && AllWritable(events) && i < |events|
    requires (forall k :: 0 <= k < i ==> QuietEvent(events[k])) && StartEvent(events[i])
    requires HasModel(events[i].value, id.raw) && |Write(id.codec, events[..i + 1])| <= MAX_STREAM_PREAMBLE
    ensures ShownAt(id, Write(id.codec, events), |Write(id.codec, events[..i])|, |Write(id.codec, events[..i + 1])|,
                    CanonicalFrame(id.codec, WithModelOf(events[i].value, id.canonical)))
  {
    hide Frames, Rest, FindFrame, Lawful, EventOf, BodyOf, HasModel, Writable, QuietEvent, Quiet, CanonicalFrame,
         ModelOf;
    var codec, s := id.codec, Write(id.codec, events);
    var head, e, tail := Write(codec, events[..i]), events[i], Write(codec, events[i + 1..]);
    PartsOf(codec, events, i);
    assert AllWritable(events[..i]);
    WrittenFrames(codec, events[..i]);
    assert s[..|head|] == head;
    forall k | 0 <= k < i
      ensures Quiet(Reader(id)(Frames(head)[k].body))
    {
      KindOfEvent(codec, events[..i][k]);
    }
    var rest := BodyOf(codec, e) + [LF, LF] + tail;
    assert s[|head|..] == rest;
    FirstIs(codec, e, tail);
    assert rest[..|BodyOf(codec, e)|] == BodyOf(codec, e);
    assert s[|head|..|head| + |BodyOf(codec, e)|] == BodyOf(codec, e);
    KindOfEvent(codec, e);
    assert Opening(EventOf(codec, BodyOf(codec, e)));
    ModelMeans(e.value, id.raw);
  }

  function WithModelOf(v: Value, model: Bytes): Value {
    if ModelOf(v).Some? then WithModel(v, model) else v
  }

  lemma PartsOf(codec: Codec, events: seq<Event>, i: nat)
    requires i < |events|
    ensures var e := events[i];
            && Write(codec, events) ==
               Write(codec, events[..i]) + (BodyOf(codec, e) + [LF, LF] + Write(codec, events[i + 1..]))
            && |Write(codec, events[..i + 1])| == |Write(codec, events[..i])| + |BodyOf(codec, e)| + 2
  {
    assert Write(codec, []) == [];
    hide Write, BodyOf;
    var e, tail := events[i], events[i + 1..];
    assert events == events[..i] + ([e] + tail);
    WriteAppend(codec, events[..i], [e] + tail);
    WriteCons(codec, e, tail);
    assert events[..i + 1] == events[..i] + [e] && [e] + [] == [e];
    WriteAppend(codec, events[..i], [e]);
    WriteCons(codec, e, []);
  }

  lemma FirstIs(codec: Codec, e: Event, tail: Bytes)
    requires Lawful(codec) && Writable(e)
    ensures var n := |BodyOf(codec, e)|;
            FindFrame(BodyOf(codec, e) + [LF, LF] + tail) == Some(Cut(n, n + 2))
  {
    hide Lawful, Writable, BodyOf;
    var body := BodyOf(codec, e);
    OneEventOneFrame(codec, e);
    assert FindFrame(body + [LF, LF]).Some?;
    var c := FindFrame(body + [LF, LF]).value;
    hide Frames, FindFrame;
    FirstFrameOf(body + [LF, LF]);
    assert Frames(body + [LF, LF])[0] == Frame(body, [LF, LF]);
    assert c.frameEnd == |body|;
    assert c.sepEnd - c.frameEnd == 2;
    FindStable(body + [LF, LF], tail);
  }

  lemma StartIsWritable(v: Value, w: Value, model: Bytes)
    requires HasType(v, Ascii("message_start")) && OnlyModelReplaced(v, w, model)
    ensures Writable(Event(Ascii("message_start"), w))
  {
    NamesAreText();
    FieldOctets();
    assert Ascii("type") != Ascii("message") by { assert |Ascii("type")| == 4 && |Ascii("message")| == 7; }
    hide Ascii, WhitespaceWidth;
  }

  /** The source with its identity event rewritten, as events again. */
  lemma RewrittenParts(id: Identity, events: seq<Event>, i: nat, w: Value)
    requires i < |events|
    ensures var codec, s, start := id.codec, Write(id.codec, events), Event(Ascii("message_start"), w);
            var from, after := |Write(codec, events[..i])|, |Write(codec, events[..i + 1])|;
            && from <= after <= |s|
            && s[after..] == Write(codec, events[i + 1..])
            && s[..from] + CanonicalFrame(codec, w) + s[after..] == Write(codec, events[i := start])
  {
    NamesAreText();
    hide Write, EventBody, Ascii;
    var codec, s, start := id.codec, Write(id.codec, events), Event(Ascii("message_start"), w);
    PartsOf(codec, events, i);
    PartsOf(codec, events[i := start], i);
    assert events[i := start][..i] == events[..i] && events[i := start][i + 1..] == events[i + 1..];
    var from, after := |Write(codec, events[..i])|, |Write(codec, events[..i + 1])|;
    assert s[..from] == Write(codec, events[..i]);
    assert s[after..] == Write(codec, events[i + 1..]);
    assert CanonicalFrame(codec, w) == BodyOf(codec, start) + [LF, LF];
    Reassociate(s[..from], CanonicalFrame(codec, w), s[after..]);
  }

  lemma {:induction false} EventWithinStream(codec: Codec, events: seq<Event>, k: nat)
    requires k < |events|
    ensures |BodyOf(codec, events[k])| <= |Write(codec, events)|
  {
    hide Write, BodyOf;
    PartsOf(codec, events, k);
  }

  lemma RewrittenFits(codec: Codec, events: seq<Event>, i: nat, w: Value)
    requires i < |events| && FitsBehind(codec, events, i, w)
    ensures Fits(codec, events[i := Event(Ascii("message_start"), w)], 0)
    ensures Fits(codec, events[i + 1..], 1)
  {
    hide Write, BodyOf;
    var start := Event(Ascii("message_start"), w);
    var rewritten := events[i := start];
    forall k | 0 <= k < |events|
      ensures |BodyOf(codec, rewritten[k])| <= 4 * 1024 * 1024
    {
      if k < i {
        EventWithinStream(codec, events[..i + 1], k);
      }
    }
    PartsOf(codec, rewritten, i);
    assert rewritten[i + 1..] == events[i + 1..];
  }

  lemma WrittenIsRelayable(id: Identity, events: seq<Event>, i: nat, w: Value)
    requires Lawful(id.codec) && AllWritable(events) && InOrder(events, i)
    requires HasModel(events[i].value, id.raw) && OnlyModelReplaced(events[i].value, w, id.canonical)
    requires FitsBehind(id.codec, events, i, w)
    ensures Relayable(id, Write(id.codec, events), |Write(id.codec, events[..i])|, |Write(id.codec, events[..i + 1])|,
                      CanonicalFrame(id.codec, w))
  {
    var codec := id.codec;
    ModelMeans(events[i].value, id.raw);
    ReplacedValueIsUnique(events[i].value, w, id.canonical);
    assert (forall k :: 0 <= k < i ==> QuietEvent(events[k])) && StartEvent(events[i]);
    hide Lawful, Write, BodyOf, Frames, Rest, Acceptable, ShownAt, CanonicalFrame, WithModel, HasModel, ModelOf,
         OnlyModelReplaced, QuietEvent, InOrder, StartEvent, AllWritable, FramesFitPending;
    assert |Write(codec, events[..i + 1])| <= MAX_STREAM_PREAMBLE;
    hide FitsBehind;
    WrittenShows(id, events, i);
    RewrittenParts(id, events, i, w);
    RewrittenIsAcceptable(id, events, i, w);
    TailFitsPending(codec, events, i, w);
  }

  lemma RewrittenIsAcceptable(id: Identity, events: seq<Event>, i: nat, w: Value)
    requires Lawful(id.codec) && AllWritable(events) && InOrder(events, i)
    requires OnlyModelReplaced(events[i].value, w, id.canonical) && FitsBehind(id.codec, events, i, w)
    ensures Acceptable(Reader(id), Write(id.codec, events[i := Event(Ascii("message_start"), w)]))
  {
    var start := Event(Ascii("message_start"), w);
    var rewritten := events[i := start];
    assert Writable(events[i]);
    StartIsWritable(events[i].value, w, id.canonical);
    hide Lawful, Write, Acceptable, OnlyModelReplaced, Writable, FitsBehind, Fits;
    assert AllWritable(rewritten);
    OrderIsKept(events, i, w);
    hide InOrder;
    RewrittenFits(id.codec, events, i, w);
    WrittenIsAcceptableIff(id, rewritten);
  }

  lemma OrderIsKept(events: seq<Event>, i: nat, w: Value)
    requires InOrder(events, i)
    ensures InOrder(events[i := Event(Ascii("message_start"), w)], i)
  {
    hide QuietEvent, InnerEvent, ClosingEvent, Ascii;
  }

  lemma TailFitsPending(codec: Codec, events: seq<Event>, i: nat, w: Value)
    requires Lawful(codec) && AllWritable(events) && i < |events| && FitsBehind(codec, events, i, w)
    ensures FramesFitPending(Frames(Write(codec, events[i + 1..])))
  {
    hide Lawful, Write, BodyOf, Frames, Rest, Writable, FitsBehind;
    RewrittenFits(codec, events, i, w);
    var tail := events[i + 1..];
    assert AllWritable(tail);
    WrittenFrames(codec, tail);
    FitMeans(codec, tail, 1);
    var frames := FramesOf(codec, tail);
    assert forall k :: 0 <= k < |frames| ==> |frames[k].sep| == 2;
  }

  /**
   Events in order, the start naming the bound raw model: however the bytes are chunked, the client
   receives every event, with the model in the start replaced by the canonical one and nothing else
   changed, and no error.
   */
  lemma WrittenIsRelayed(id: Identity, events: seq<Event>, i: nat, w: Value, items: seq<SourceItem>)
    requires Lawful(id.codec) && AllWritable(events) && InOrder(events, i)
    requires HasModel(events[i].value, id.raw) && OnlyModelReplaced(events[i].value, w, id.canonical)
    requires FitsBehind(id.codec, events, i, w)
    requires AllChunks(items) && Source(items) == Write(id.codec, events)
    ensures Relayed(id, items)
    ensures Released(ResponseBody(id, items)) == Write(id.codec, events[i := Event(Ascii("message_start"), w)])
  {
    assert i < |events|;
    hide Lawful, Write, BodyOf, Frames, Rest, Acceptable, ShownAt, CanonicalFrame, HasModel, OnlyModelReplaced,
         InOrder, Writable, Identify, Passes, Source, OneFrameReplaced, OnlyCanonicalStarts, AdmitAll, FitsBehind,
         FramesFitPending, ResponseBody;
    var s := Write(id.codec, events);
    var from, after := |Write(id.codec, events[..i])|, |Write(id.codec, events[..i + 1])|;
    var frame := CanonicalFrame(id.codec, w);
    WrittenIsRelayable(id, events, i, w);
    RelayableIsRelayed(id, items, from, after, frame);
    StreamedResponseIsFaithful(id, items);
    var start', after', frame' :| FaithfulResponse(id, items, start', after', frame');
    ShownOnce(id, s, from, after, frame, start', after', frame');
    RewrittenParts(id, events, i, w);
  }

  /** The ordinary case: a start, one delta and a stop. */
  lemma StartDeltaStopIsRelayed(id: Identity, start: Value, delta: Value, stop: Value, w: Value, items: seq<SourceItem>)
    requires Lawful(id.codec)
    requires HasType(start, Ascii("message_start")) && HasType(delta, Ascii("content_block_delta"))
    requires HasType(stop, Ascii("message_stop"))
    requires HasModel(start, id.raw) && OnlyModelReplaced(start, w, id.canonical)
    requires FitsBehind(id.codec, ThreeEvents(start, delta, stop), 0, w)
    requires AllChunks(items) && Source(items) == Write(id.codec, ThreeEvents(start, delta, stop))
    ensures Relayed(id, items)
    ensures Released(ResponseBody(id, items)) == Write(id.codec, ThreeEvents(w, delta, stop))
  {
    var events := ThreeEvents(start, delta, stop);
    NamesAreWritable();
    hide Lawful, Write, HasModel, OnlyModelReplaced, HasType, EventName, Source, FitsBehind, Relayed, ResponseBody,
         Ascii;
    assert InOrder(events, 0);
    assert AllWritable(events);
    WrittenIsRelayed(id, events, 0, w, items);
    assert events[0 := Event(Ascii("message_start"), w)] == ThreeEvents(w, delta, stop);
  }

  function ThreeEvents(start: Value, delta: Value, stop: Value): seq<Event> {
    [Event(Ascii("message_start"), start),
     Event(Ascii("content_block_delta"), delta),
     Event(Ascii("message_stop"), stop)]
  }

  lemma NamesAreWritable()
    ensures EventName(Ascii("message_start")) && EventName(Ascii("content_block_delta"))
    ensures EventName(Ascii("message_stop")) && EventName(Ascii("error"))
  {
    PlainAscii("message_start");
    PlainAscii("content_block_delta");
    PlainAscii("message_stop");
    PlainAscii("error");
  }

  lemma PlainAscii(s: string)
    requires s != "" && forall i :: 0 <= i < |s| ==> 'a' <= s[i] <= 'z' || s[i] == '_'
    ensures EventName(Ascii(s))
  {
    assert forall i :: 0 <= i < |s| ==> Ascii(s)[i] == s[i] as int && 0x5F <= Ascii(s)[i] <= 0x7A;
  }

  // ----- bytes held back by a terminal guard

  /**
   That a terminal guard can have bytes pending is real: a start, an error event and one more byte
   in one chunk do it, for every start and error event that fit.
   */
  lemma TrailingByteExample(id: Identity, start: Value, error: Value, x: byte)
    requires Lawful(id.codec) && HasType(start, Ascii("message_start")) && HasType(error, Ascii("error"))
    requires Fits(id.codec, TwoEvents(start, error), 0) && |Write(id.codec, TwoEvents(start, error))| < 32 * 1024 * 1024
    ensures var s := After(Reader(id), [Chunk(Write(id.codec, TwoEvents(start, error)) + [x])]);
            s.phase.terminal && s.pending != []
  {
    hide Frames, Rest, FindFrame, After, Lawful, Write, Fits, HasType;
    var src := Write(id.codec, TwoEvents(start, error)) + [x];
    ClosesBeforeByte(id, start, error, x);
    hide ClosesAt;
    var items := [Chunk(src)];
    SourceOfOne(src);
    LiveStart(Reader(id));
    NoFrames([]);
    assert items[..0] == [] && items[..1] == items;
    hide Source, Live;
    assert TrailsClosing(Reader(id), items, 0, 1);
    TerminalPendingIff(Reader(id), items);
  }

  lemma ClosesBeforeByte(id: Identity, start: Value, error: Value, x: byte)
    requires Lawful(id.codec) && HasType(start, Ascii("message_start")) && HasType(error, Ascii("error"))
    requires Fits(id.codec, TwoEvents(start, error), 0)
    ensures ClosesAt(Reader(id), Write(id.codec, TwoEvents(start, error)) + [x], 1)
  {
    var events := TwoEvents(start, error);
    var all := Write(id.codec, events);
    NamesAreWritable();
    hide Frames, Rest, FindFrame, Lawful, Write, BodyOf, HasType, EventName, Ascii;
    assert AllWritable(events) && InOrder(events, 0);
    OrderIffNames(id, events, 0);
    WrittenFrames(id.codec, events);
    SplitAtBoundary(all, [x]);
    assert FindFrame([x]).None? by { FindIsLeast([x]); }
    NoFrames([x]);
    SplitIsLossless(all);
    FitMeans(id.codec, events, 0);
    hide InOrder, OpensAt, Join;
    var frames := FramesOf(id.codec, events);
    assert Frames(all + [x]) == frames && frames[..2] == frames;
  }

  function TwoEvents(start: Value, error: Value): seq<Event> {
    [Event(Ascii("message_start"), start), Event(Ascii("error"), error)]
  }
}
