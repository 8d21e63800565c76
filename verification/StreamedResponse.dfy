/** The streamed response end to end: identity check, rewritten frame, guard. */
module StreamedResponse {
  import opened Common
  import opened Json
  import opened SseFraming
  import opened SseEvents
  import opened StreamGuard
  import opened GuardedRuns
  import opened StreamIdentity

  /** What the guard is given once the identity has been shown. */
  function GuardedItems(outcome: Outcome): seq<SourceItem>
    requires outcome.Opened?
  {
    [Chunk(outcome.preamble)] + outcome.rest
  }

  /** What the client receives: nothing at all before the identity has been shown. */
  function ResponseBody(id: Identity, items: seq<SourceItem>): seq<OutItem> {
    var outcome := Identify(id, [], 0, items);
    if outcome.Rejected? then [] else Body(Reader(id), GuardedItems(outcome))
  }

  /** The value the canonical frame carries in place of the one shown at `start`. */
  function CanonicalValue(id: Identity, src: Bytes, start: nat): (v: Value)
    requires start <= |src| && FindFrame(src[start..]).Some?
  {
    var event := EventOf(id.codec, src[start..start + FindFrame(src[start..]).value.frameEnd]);
    if event.Some? && event.value.MessageStart? && ModelOf(event.value.value).Some?
    then WithModel(event.value.value, id.canonical) else Null
  }

  /**
   t is s with the one frame at [start, after) replaced. Every other frame is the same, and so is
   what is left unframed. The frame in s names the bound raw model; the value read from the frame
   in t differs from the value read from that one in the model alone, which is the canonical one.
   */
  ghost predicate OneFrameReplaced(id: Identity, s: Bytes, t: Bytes, start: nat, after: nat) {
    && start < after <= |s| && s[..start] <= t && |s| - after <= |t| && t[|t| - (|s| - after)..] == s[after..]
    && |Frames(t)| == |Frames(s)| && Rest(t) == Rest(s)
    && var j := |Frames(s[..start])|;
       && j < |Frames(s)|
       && (forall i :: 0 <= i < |Frames(s)| && i != j ==> Frames(t)[i] == Frames(s)[i])
       && ReadsReplaced(id, Frames(s)[j].body, Frames(t)[j].body)
  }

  ghost predicate ReadsReplaced(id: Identity, source: Bytes, released: Bytes) {
    var before, now := EventOf(id.codec, source), EventOf(id.codec, released);
    && before.Some? && before.value.MessageStart? && HasModel(before.value.value, id.raw)
    && now.Some? && now.value.MessageStart?
    && OnlyModelReplaced(before.value.value, now.value.value, id.canonical)
  }

  /** As the code writes it: the frame in t is the canonical one. */
  ghost predicate CanonicalReplaced(id: Identity, s: Bytes, t: Bytes, start: nat, after: nat) {
    && start < after <= |s| && FindFrame(s[start..]).Some?
    && var v := CanonicalValue(id, s, start);
       var j := |Frames(s[..start])|;
       && j < |Frames(s)|
       && t == s[..start] + CanonicalFrame(id.codec, v) + s[after..]
       && Frames(t) == Frames(s)[j := Frame(CanonicalBody(id.codec, v), [LF, LF])]
       && Rest(t) == Rest(s)
       && EventOf(id.codec, CanonicalBody(id.codec, v)) == Some(MessageStart(v))
       && ModelOf(v) == Some(id.canonical)
  }

  /** Splitting around a middle frame that stands at boundaries on both sides. */
  lemma SplitAroundMiddle(a: Bytes, m: Bytes, f: Frame, b: Bytes)
    requires Rest(a) == [] && Rest(m) == [] && Frames(m) == [f]
    ensures Frames(a + m + b) == Frames(a) + [f] + Frames(b)
    ensures Rest(a + m + b) == Rest(b)
  {
    hide Frames, Rest;
    SplitAtBoundary(a, m);
    SplitAtBoundary(a + m, b);
  }

  lemma ShownFrameIsAlone(id: Identity, s: Bytes, start: nat, after: nat, frame: Bytes)
    requires ShownAt(id, s, start, after, frame)
    ensures Rest(s[start..after]) == [] && |Frames(s[start..after])| == 1
  {
    hide Frames, Rest, FindFrame, EventOf;
    FirstFrameAlone(s[start..]);
    assert s[start..][..after - start] == s[start..after];
  }

  lemma CanonicalValueIsShown(id: Identity, s: Bytes, start: nat, after: nat, frame: Bytes)
    requires ShownAt(id, s, start, after, frame)
    ensures var v := CanonicalValue(id, s, start);
            && frame == CanonicalFrame(id.codec, v)
            && AsText(Get(v, TYPE)) == Some(MESSAGE_START)
            && ModelOf(v) == Some(id.canonical)
  {
    hide FindFrame, Frames, Rest, EventOf;
    var body := s[start..start + FindFrame(s[start..]).value.frameEnd];
    MessageStartDeclaresType(id.codec, body);
    WithModelReplacesOnlyModel(EventOf(id.codec, body).value.value, id.canonical);
  }

  lemma ReplacedByCanonical(id: Identity, s: Bytes, start: nat, after: nat, frame: Bytes)
    requires Lawful(id.codec) && ShownAt(id, s, start, after, frame)
    ensures CanonicalReplaced(id, s, s[..start] + frame + s[after..], start, after)
  {
    hide Frames, Rest, FindFrame, EventOf, CanonicalValue, Lawful, CanonicalBody, CanonicalFrame, ModelOf;
    CanonicalValueIsShown(id, s, start, after, frame);
    var v := CanonicalValue(id, s, start);
    CanonicalReadsBack(id.codec, v);
    CanonicalIsOneFrame(id.codec, v);
    ShownFrameIsAlone(id, s, start, after, frame);
    MiddleReplaced(s, start, after, frame, Frame(CanonicalBody(id.codec, v), [LF, LF]));
  }

  lemma WholeFramesAhead(b: Bytes)
    requires FindFrame(b).Some?
    ensures Frames(b) != [] && Frames(b)[0].body == b[..FindFrame(b).value.frameEnd]
  {
  }

  /** The frame that shows the identity, as a frame of the whole source. */
  lemma ShownFrame(id: Identity, s: Bytes, start: nat, after: nat, frame: Bytes)
    requires ShownAt(id, s, start, after, frame)
    ensures var j := |Frames(s[..start])|;
            j < |Frames(s)| && Frames(s)[j].body == s[start..start + FindFrame(s[start..]).value.frameEnd]
  {
    hide EventOf, Frames, Rest, FindFrame;
    var rest := s[start..];
    assert s == s[..start] + rest;
    SplitAtBoundary(s[..start], rest);
    WholeFramesAhead(rest);
    var c := FindFrame(rest).value;
    assert rest[..c.frameEnd] == s[start..start + c.frameEnd];
  }

  lemma ReplacementKeepsBoundaries(id: Identity, s: Bytes, start: nat, after: nat, frame: Bytes)
    requires Lawful(id.codec) && ShownAt(id, s, start, after, frame)
    ensures OneFrameReplaced(id, s, s[..start] + frame + s[after..], start, after)
  {
    var t := s[..start] + frame + s[after..];
    ShownInRange(id, s, start, after, frame);
    assert t[|t| - (|s| - after)..] == s[after..];
    hide Frames, Rest, EventOf, Lawful, QuietUpTo, CanonicalFrame, CanonicalBody, ReadsReplaced;
    ReplacedByCanonical(id, s, start, after, frame);
    ShownFrame(id, s, start, after, frame);
    ShownIsReplaced(id, s, start, after, frame);
    hide FindFrame, ShownAt, CanonicalValue;
    assert s[..start] <= t;
  }

  lemma ShownIsReplaced(id: Identity, s: Bytes, start: nat, after: nat, frame: Bytes)
    requires ShownAt(id, s, start, after, frame) && start <= |s| && FindFrame(s[start..]).Some?
    requires var v := CanonicalValue(id, s, start);
             EventOf(id.codec, CanonicalBody(id.codec, v)) == Some(MessageStart(v))
    ensures var body := s[start..start + FindFrame(s[start..]).value.frameEnd];
            ReadsReplaced(id, body, CanonicalBody(id.codec, CanonicalValue(id, s, start)))
  {
    hide EventOf, Frames, Rest, FindFrame, QuietUpTo, CanonicalBody, CanonicalFrame;
    var body := s[start..start + FindFrame(s[start..]).value.frameEnd];
    var before := EventOf(id.codec, body).value.value;
    WithModelReplacesOnlyModel(before, id.canonical);
    ModelMeans(before, id.raw);
  }

  lemma MiddleReplaced(s: Bytes, start: nat, after: nat, m: Bytes, f: Frame)
    requires start <= after <= |s|
    requires Rest(s[..start]) == []
    requires Rest(s[start..after]) == [] && |Frames(s[start..after])| == 1
    requires Rest(m) == [] && Frames(m) == [f]
    ensures var t := s[..start] + m + s[after..];
            var j := |Frames(s[..start])|;
            && j < |Frames(s)|
            && Frames(t) == Frames(s)[j := f]
            && Rest(t) == Rest(s)
  {
    hide Frames, Rest;
    var was := Frames(s[start..after])[0];
    assert Frames(s[start..after]) == [was];
    SplitAroundMiddle(s[..start], s[start..after], was, s[after..]);
    assert s[..start] + s[start..after] + s[after..] == s;
    SplitAroundMiddle(s[..start], m, f, s[after..]);
    ReplaceInMiddle(Frames(s[..start]), was, f, Frames(s[after..]));
  }

  lemma ReplaceInMiddle(a: seq<Frame>, x: Frame, y: Frame, b: seq<Frame>)
    ensures (a + [x] + b)[|a| := y] == a + [y] + b
  {
  }

  /** In an admitted sequence of frames, at most one opens the message. */
  lemma {:induction false} OneOpening(classify: Classifier, p: Phase, bodies: seq<Bytes>, i: nat)
    requires AdmitAll(classify, p, bodies).Some?
    requires i < |bodies| && Opening(classify(bodies[i]))
    ensures !p.started
    ensures forall k :: i < k < |bodies| ==> !Opening(classify(bodies[k]))
    decreases |bodies|
  {
    var next := Admit(p, classify(bodies[0])).value;
    var tail := bodies[1..];
    if i > 0 {
      OneOpening(classify, next, tail, i - 1);
      assert forall k :: i < k < |bodies| ==> bodies[k] == tail[k - 1];
    } else {
      forall k | 0 < k < |bodies|
        ensures !Opening(classify(bodies[k]))
      {
        if Opening(classify(tail[k - 1])) {
          OneOpening(classify, next, tail, k - 1);
          assert false;
        }
      }
    }
  }

  /** Every message_start frame within these bytes names the canonical model. */
  ghost predicate OnlyCanonicalStarts(id: Identity, released: Bytes) {
    forall i :: 0 <= i < |Frames(released)| ==>
      var event := EventOf(id.codec, Frames(released)[i].body);
      event.Some? && event.value.MessageStart? ==> HasModel(event.value.value, id.canonical)
  }

  lemma AdmittedStartsAreCanonical(id: Identity, s: Bytes, t: Bytes, released: Bytes, start: nat, after: nat)
    requires QuietUpTo(id, s, start) && CanonicalReplaced(id, s, t, start, after)
    requires s[..start] <= t && released <= t
    requires AdmitAll(Reader(id), INITIAL_PHASE, Bodies(Frames(released))).Some?
    ensures OnlyCanonicalStarts(id, released)
  {
    var j := |Frames(s[..start])|;
    var bodies, all := Bodies(Frames(released)), Bodies(Frames(t));
    FramesPrefix(released, t);
    FramesPrefix(s[..start], t);
    hide Frames, Rest, FindFrame, EventOf, AdmitAll, CanonicalValue;
    forall i | 0 <= i < |Frames(released)|
      ensures var event := EventOf(id.codec, Frames(released)[i].body);
              event.Some? && event.value.MessageStart? ==> HasModel(event.value.value, id.canonical)
    {
      hide HasModel;
      assert bodies[i] == all[i];
      if i < j {
        assert all[i] == Bodies(Frames(s[..start]))[i];
        assert Quiet(Reader(id)(Frames(s[..start])[i].body));
      } else if i > j {
        assert bodies[j] == all[j] == Frames(t)[j].body;
        OneOpening(Reader(id), INITIAL_PHASE, bodies, j);
        assert !Opening(Reader(id)(bodies[i]));
      } else {
        assert all[j] == Frames(t)[j].body;
        ModelMeans(CanonicalValue(id, s, start), id.canonical);
      }
    }
  }

  /** What the client of a streamed response can rely on. */
  ghost predicate FaithfulResponse(id: Identity, items: seq<SourceItem>, start: nat, after: nat, frame: Bytes) {
    var s := Source(items);
    && Identify(id, [], 0, items).Opened?
    && start <= after <= |s|
    && ShownAt(id, s, start, after, frame)
    && var t := s[..start] + frame + s[after..];
       var released := Released(ResponseBody(id, items));
       && OneFrameReplaced(id, s, t, start, after)
       && released <= t
       && AdmitAll(Reader(id), INITIAL_PHASE, Bodies(Frames(released))).Some?
       && OnlyCanonicalStarts(id, released)
       && ErrorIsLast(ResponseBody(id, items))
       && (Passes(Reader(id), GuardedItems(Identify(id, [], 0, items))) ==> released == t)
  }

  lemma GuardedSource(id: Identity, items: seq<SourceItem>)
    returns (start: nat, after: nat, frame: Bytes)
    requires Identify(id, [], 0, items).Opened?
    ensures var s := Source(items);
            && ShownAt(id, s, start, after, frame)
            && Source(GuardedItems(Identify(id, [], 0, items))) == s[..start] + frame + s[after..]
            && s[..start] + frame <= Identify(id, [], 0, items).preamble
  {
    hide ShownAt, Identify;
    QuietAtZero(id, []);
    var o := Identify(id, [], 0, items);
    var k;
    k, start, after, frame := IdentifyOpens(id, [], 0, items);
    var first, later := Source(items[..k]), Source(items[k..]);
    assert [] + first == first;
    OpenedShowsInSource(id, items, k, start, after, frame);
    SourceCons(Chunk(o.preamble), o.rest);
    ShownInRange(id, first, start, after, frame);
    SpliceExtends(first, later, start, after, frame);
    assert first[..start] == Source(items)[..start];
  }

  lemma ShownInRange(id: Identity, s: Bytes, start: nat, after: nat, frame: Bytes)
    requires ShownAt(id, s, start, after, frame)
    ensures start <= after <= |s|
  {
  }

  lemma SpliceExtends(a: Bytes, b: Bytes, start: nat, after: nat, frame: Bytes)
    requires start <= after <= |a|
    ensures (a[..start] + frame + a[after..]) + b == (a + b)[..start] + frame + (a + b)[after..]
  {
    assert (a + b)[..start] == a[..start] && (a + b)[after..] == a[after..] + b;
  }

  /**
   End to end, for every source and every chunking: a client either receives nothing, or the
   source showed the bound raw model in its first message_start and the client receives a prefix
   of the source with exactly that one frame replaced, whose frames were admitted in order and
   whose every complete message_start names the canonical model.
   */
  lemma StreamedResponseIsFaithful(id: Identity, items: seq<SourceItem>)
    requires Lawful(id.codec)
    ensures Identify(id, [], 0, items).Rejected? ==> ResponseBody(id, items) == []
    ensures Identify(id, [], 0, items).Opened? ==>
              exists start, after, frame :: FaithfulResponse(id, items, start, after, frame)
  {
    hide ShownAt, Identify, Lawful, Frames, Rest, AdmitAll, OneFrameReplaced, CanonicalReplaced, Body,
         OnlyCanonicalStarts;
    var o := Identify(id, [], 0, items);
    if o.Opened? {
      var start, after, frame := GuardedSource(id, items);
      var s := Source(items);
      ShownInRange(id, s, start, after, frame);
      var t := s[..start] + frame + s[after..];
      ReplacementKeepsBoundaries(id, s, start, after, frame);
      ReplacedByCanonical(id, s, start, after, frame);
      var guarded := GuardedItems(o);
      EveryRunIsSafe(Reader(id), guarded);
      var released := Released(Body(Reader(id), guarded));
      QuietBefore(id, s, start, after, frame);
      assert s[..start] <= t;
      AdmittedStartsAreCanonical(id, s, t, released, start, after);
      if Passes(Reader(id), guarded) {
        PassingStreamIsAcceptable(Reader(id), guarded);
      }
      assert FaithfulResponse(id, items, start, after, frame);
    }
  }

  lemma QuietBefore(id: Identity, s: Bytes, start: nat, after: nat, frame: Bytes)
    requires ShownAt(id, s, start, after, frame)
    ensures QuietUpTo(id, s, start)
  {
  }

  /** And the response is opened exactly when the source bytes show the identity. */
  lemma ResponseOpensIffIdentityShown(id: Identity, items: seq<SourceItem>)
    requires AllChunks(items)
    ensures Identify(id, [], 0, items).Opened? <==> ShowsIdentity(id, Source(items))
    ensures !ShowsIdentity(id, Source(items)) ==> ResponseBody(id, items) == []
  {
    OpensIffShown(id, items);
  }

  // ----- which sources are relayed in full however they are chunked

  /** The response opens and carries no error item. */
  ghost predicate Relayed(id: Identity, items: seq<SourceItem>) {
    Identify(id, [], 0, items).Opened? && Passes(Reader(id), GuardedItems(Identify(id, [], 0, items)))
  }

  ghost predicate RelayedHoweverChunked(id: Identity, s: Bytes) {
    forall items :: AllChunks(items) && Source(items) == s ==> Relayed(id, items)
  }

  /**
   The source shows the identity, becomes a complete and well-ordered stream with that frame
   replaced, and every frame behind it fits with its unfinished separator. The identity frame and
   those before it reach the guard in one chunk, so they only have to fit themselves.
   */
  ghost predicate Relayable(id: Identity, s: Bytes, start: nat, after: nat, frame: Bytes) {
    && ShownAt(id, s, start, after, frame)
    && start <= after <= |s|
    && Acceptable(Reader(id), s[..start] + frame + s[after..])
    && FramesFitPending(Frames(s[after..]))
  }

  /** The identity is shown in one place only. */
  lemma ShownOnce(id: Identity, s: Bytes, start: nat, after: nat, frame: Bytes, start': nat, after': nat, frame': Bytes)
    requires ShownAt(id, s, start, after, frame) && ShownAt(id, s, start', after', frame')
    ensures start == start' && after == after' && frame == frame'
  {
    hide ShownAt, Seek;
    QuietAtZero(id, s);
    ShownInRange(id, s, start, after, frame);
    ShownInRange(id, s, start', after', frame');
    SeekReaches(id, s, |s|, 0, start, after, frame);
    SeekReaches(id, s, |s|, 0, start', after', frame');
  }

  lemma OpenedKeepsChunks(id: Identity, items: seq<SourceItem>)
    requires AllChunks(items) && Identify(id, [], 0, items).Opened?
    ensures AllChunks(GuardedItems(Identify(id, [], 0, items)))
  {
    hide Identify, ShownAt, QuietUpTo;
    QuietAtZero(id, []);
    var k, start, after, frame := IdentifyOpens(id, [], 0, items);
    assert k <= |items|;
  }

  /** The bytes up to and with the replaced frame are whole frames. */
  lemma HeadIsWhole(id: Identity, s: Bytes, start: nat, after: nat, frame: Bytes)
    requires Lawful(id.codec) && ShownAt(id, s, start, after, frame) && start <= |s|
    ensures Rest(s[..start] + frame) == []
  {
    hide Frames, Rest, FindFrame, Lawful, EventOf;
    CanonicalValueIsShown(id, s, start, after, frame);
    CanonicalIsOneFrame(id.codec, CanonicalValue(id, s, start));
    SplitAtBoundary(s[..start], frame);
  }

  lemma RelayableIsRelayed(id: Identity, items: seq<SourceItem>, start: nat, after: nat, frame: Bytes)
    requires Lawful(id.codec) && AllChunks(items) && Relayable(id, Source(items), start, after, frame)
    ensures Relayed(id, items)
  {
    hide Identify, ShownAt, Acceptable, Frames, Rest, FramesFitPending, Live, Lawful, Passes, QuietUpTo;
    var s := Source(items);
    OpensIffShown(id, items);
    var st, af, fr := GuardedSource(id, items);
    ShownOnce(id, s, start, after, frame, st, af, fr);
    OpenedKeepsChunks(id, items);
    var guarded := GuardedItems(Identify(id, [], 0, items));
    var head := s[..start] + frame;
    HeadIsWhole(id, s, start, after, frame);
    var t := head + s[after..];
    assert Source(guarded) == t && t + [] == t && t[|head|..] == s[after..];
    NeverRefused(Reader(id), guarded, head, []);
    LiveToTheEndPasses(Reader(id), guarded);
  }

  /** One chunk up to the last byte of a separator behind the identity, and one with the rest. */
  lemma LateFrameFits(id: Identity, s: Bytes, start: nat, after: nat, frame: Bytes, i: nat)
    requires Lawful(id.codec) && RelayedHoweverChunked(id, s) && ShownAt(id, s, start, after, frame)
    requires start <= after <= |s| && i < |Frames(s[after..])|
    ensures var f := Frames(s[after..])[i]; |f.body| + |f.sep| - 1 <= MAX_STREAM_FRAME
  {
    hide Identify, ShownAt, Frames, Rest, Lawful, Passes, Source, QuietUpTo;
    var a, tail := CutBeforeSeparatorEnd(s[after..], i);
    if |Rest(a)| > MAX_STREAM_FRAME {
      var first := s[..after] + a;
      assert s == s[..after] + s[after..] && first + tail == s;
      var items := [Chunk(first), Chunk(tail)];
      SourceOfTwo(first, tail);
      assert AllChunks(items);
      assert Relayed(id, items);
      OpensInFirst(id, first, tail, start, after, frame);
      assert first[..start] == s[..start] && first[after..] == a;
      var head := s[..start] + frame;
      HeadIsWhole(id, s, start, after, frame);
      SplitAtBoundary(head, a);
      LateSeparatorIsRefused(Reader(id), head + a, tail);
      assert false;
    }
  }

  /** A first chunk that shows the identity is spliced, and the second follows as it is. */
  lemma OpensInFirst(id: Identity, first: Bytes, tail: Bytes, start: nat, after: nat, frame: Bytes)
    requires ShownAt(id, first + tail, start, after, frame) && start <= after <= |first|
    ensures var o := Identify(id, [], 0, [Chunk(first), Chunk(tail)]);
            o.Opened? && GuardedItems(o) == [Chunk(first[..start] + frame + first[after..]), Chunk(tail)]
  {
    hide ShownAt, Seek, QuietUpTo;
    var s := first + tail;
    QuietAtZero(id, s);
    assert s[..|first|] == first;
    SeekReaches(id, s, |first|, 0, start, after, frame);
    var items := [Chunk(first), Chunk(tail)];
    assert [] + first == first && items[1..] == [Chunk(tail)];
  }

  /** A source is relayed in full under every chunking if and only if it is relayable. */
  lemma RelayedHoweverChunkedIff(id: Identity, s: Bytes)
    requires Lawful(id.codec)
    ensures RelayedHoweverChunked(id, s) <==> exists start, after, frame :: Relayable(id, s, start, after, frame)
  {
    hide Identify, ShownAt, Acceptable, Frames, Rest, Lawful, Passes, Source;
    if exists start, after, frame :: Relayable(id, s, start, after, frame) {
      var start, after, frame :| Relayable(id, s, start, after, frame);
      forall items | AllChunks(items) && Source(items) == s
        ensures Relayed(id, items)
      {
        RelayableIsRelayed(id, items, start, after, frame);
      }
    }
    if RelayedHoweverChunked(id, s) {
      SourceOfOne(s);
      assert AllChunks([Chunk(s)]);
      assert Relayed(id, [Chunk(s)]);
      var start, after, frame := GuardedSource(id, [Chunk(s)]);
      ShownInRange(id, s, start, after, frame);
      PassingStreamIsAcceptable(Reader(id), GuardedItems(Identify(id, [], 0, [Chunk(s)])));
      forall i | 0 <= i < |Frames(s[after..])|
        ensures |Frames(s[after..])[i].body| + |Frames(s[after..])[i].sep| - 1 <= MAX_STREAM_FRAME
      {
        LateFrameFits(id, s, start, after, frame, i);
      }
      assert Relayable(id, s, start, after, frame);
    }
  }
}
