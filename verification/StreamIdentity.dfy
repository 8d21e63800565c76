/**
 The identity check in front of the guard: no byte of a streamed body is released before its
 first message_start has shown the bound raw model, and that one frame is then replaced by one
 naming the canonical model.
 */
module StreamIdentity {
  import opened Common
  import opened Json
  import opened SseFraming
  import opened SseEvents
  import opened StreamGuard
  import opened GuardedRuns

  const MAX_STREAM_PREAMBLE: nat := 64 * 1024

  /** What must be shown, and what is shown instead. */
  datatype Identity = Identity(codec: Codec, raw: Bytes, canonical: Bytes)

  function Reader(id: Identity): Classifier {
    (frame: Bytes) => EventOf(id.codec, frame)
  }

  datatype Sought =
    | NotYet(scanned: nat)
    | Found(start: nat, after: nat, frame: Bytes)
    | Refused(reject: Reject)

  /** Read whole frames from an offset on, until the identity frame, a refusal, or no more frames. */
  function Seek(id: Identity, buf: Bytes, at: nat): (r: Sought)
    requires at <= |buf|
    ensures r.NotYet? ==> at <= r.scanned <= |buf| <= MAX_STREAM_PREAMBLE
    ensures r.Found? ==> at <= r.start <= r.after <= |buf|
    decreases |buf| - at
  {
    match FindFrame(buf[at..])
    case None => if |buf| > MAX_STREAM_PREAMBLE then Refused(Upstream) else NotYet(at)
    case Some(c) =>
      var after := at + c.sepEnd;
      if after > MAX_STREAM_PREAMBLE then Refused(Upstream)
      else
        match PreambleOf(id.codec, buf[at..at + c.frameEnd], id.raw, id.canonical)
        case Err(e) => Refused(e)
        case Ok(Passed) => Seek(id, buf, after)
        case Ok(Rewritten(frame)) => Found(at, after, frame)
  }

  /** The outcome of the check: the body to guard, or a refusal that releases nothing. */
  datatype Outcome = Opened(preamble: Bytes, rest: seq<SourceItem>) | Rejected(reject: Reject)

  function Identify(id: Identity, buffer: Bytes, scanned: nat, items: seq<SourceItem>): Outcome
    requires scanned <= |buffer|
    decreases |items|
  {
    if items == [] then Rejected(Upstream)
    else match items[0]
      case Interrupted => Rejected(UpstreamTransport)
      case Chunk(bytes) =>
        var buf := buffer + bytes;
        match Seek(id, buf, scanned)
        case Refused(e) => Rejected(e)
        case Found(start, after, frame) => Opened(buf[..start] + frame + buf[after..], items[1..])
        case NotYet(at) => Identify(id, buf, at, items[1..])
  }

  /** One frame further. */
  lemma SeekUnfolds(id: Identity, buf: Bytes, at: nat)
    requires at <= |buf|
    ensures FindFrame(buf[at..]).None? ==>
              Seek(id, buf, at) == if |buf| > MAX_STREAM_PREAMBLE then Refused(Upstream) else NotYet(at)
    ensures FindFrame(buf[at..]).Some? ==>
              var c := FindFrame(buf[at..]).value;
              var p := PreambleOf(id.codec, buf[at..at + c.frameEnd], id.raw, id.canonical);
              Seek(id, buf, at) ==
              if at + c.sepEnd > MAX_STREAM_PREAMBLE then Refused(Upstream)
              else if p.Err? then Refused(p.error)
              else if p.value.Passed? then Seek(id, buf, at + c.sepEnd)
              else Found(at, at + c.sepEnd, p.value.frame)
  {
    hide FindFrame, PreambleOf;
  }

  /** The inner loop of `validate_stream_identity`, over the frames of the buffer. */
  method SeekFrames(id: Identity, buffer: Bytes, scanned0: nat, preambleBytes0: nat)
    returns (r: Sought, preambleBytes: nat)
    requires scanned0 == preambleBytes0 <= |buffer|
    ensures r == Seek(id, buffer, scanned0)
    ensures r.NotYet? ==> preambleBytes == r.scanned
  {
    hide Seek, FindFrame, PreambleOf;
    var scanned := scanned0;
    preambleBytes := preambleBytes0;
    while true
      invariant scanned == preambleBytes <= |buffer|
      invariant Seek(id, buffer, scanned0) == Seek(id, buffer, scanned)
      decreases |buffer| - scanned
    {
      SeekUnfolds(id, buffer, scanned);
      var cut := FindFrame(buffer[scanned..]);
      if cut.None? {
        if |buffer| - scanned > MAX_STREAM_PREAMBLE || preambleBytes + (|buffer| - scanned) > MAX_STREAM_PREAMBLE {
          return Refused(Upstream), preambleBytes;
        }
        return NotYet(scanned), preambleBytes;
      }
      var frameStart, frameEnd := scanned, scanned + cut.value.frameEnd;
      var afterFrame := scanned + cut.value.sepEnd;
      preambleBytes := preambleBytes + (afterFrame - frameStart);
      if preambleBytes > MAX_STREAM_PREAMBLE {
        return Refused(Upstream), preambleBytes;
      }
      match PreambleOf(id.codec, buffer[frameStart..frameEnd], id.raw, id.canonical)
      case Err(e) =>
        return Refused(e), preambleBytes;
      case Ok(Passed) =>
        scanned := afterFrame;
      case Ok(Rewritten(frame)) =>
        return Found(frameStart, afterFrame, frame), preambleBytes;
    }
  }

  /** `validate_stream_identity`. */
  method ValidateStreamIdentity(id: Identity, source: seq<SourceItem>) returns (r: Outcome)
    ensures r == Identify(id, [], 0, source)
  {
    var buffer: Bytes, scanned, preambleBytes := [], 0, 0;
    var i := 0;
    while i < |source|
      invariant i <= |source|
      invariant scanned == preambleBytes <= |buffer|
      invariant Identify(id, [], 0, source) == Identify(id, buffer, scanned, source[i..])
    {
      assert source[i..][1..] == source[i + 1..];
      if source[i].Interrupted? {
        return Rejected(UpstreamTransport);
      }
      buffer := buffer + source[i].bytes;
      i := i + 1;
      var sought;
      sought, preambleBytes := SeekFrames(id, buffer, scanned, preambleBytes);
      match sought
      case Refused(e) =>
        return Rejected(e);
      case Found(start, after, frame) =>
        return Opened(buffer[..start] + frame + buffer[after..], source[i..]);
      case NotYet(at) =>
        scanned := at;
        if |buffer| - scanned > MAX_STREAM_PREAMBLE {
          // This second bound is implied by the one that ended the inner loop.
          assert false;
        }
    }
    return Rejected(Upstream);
  }

  // ----- what the check establishes

  /** A prefix of whole frames, none of which is part of the message body. */
  ghost predicate QuietUpTo(id: Identity, buf: Bytes, at: nat) {
    && at <= |buf|
    && Rest(buf[..at]) == []
    && forall i :: 0 <= i < |Frames(buf[..at])| ==> Quiet(Reader(id)(Frames(buf[..at])[i].body))
  }

  /** The frame at [start, after) of the source opens the message and names the bound raw model. */
  ghost predicate ShownAt(id: Identity, src: Bytes, start: nat, after: nat, frame: Bytes) {
    && QuietUpTo(id, src, start)
    && start < after <= |src| && after <= MAX_STREAM_PREAMBLE
    && FindFrame(src[start..]).Some?
    && after == start + FindFrame(src[start..]).value.sepEnd
    && var event := EventOf(id.codec, src[start..start + FindFrame(src[start..]).value.frameEnd]);
       && event.Some? && event.value.MessageStart?
       && ModelOf(event.value.value) == Some(id.raw)
       && frame == CanonicalFrame(id.codec, WithModel(event.value.value, id.canonical))
  }

  lemma QuietOneMore(id: Identity, buf: Bytes, at: nat)
    requires QuietUpTo(id, buf, at) && FindFrame(buf[at..]).Some?
    requires Quiet(Reader(id)(buf[at..at + FindFrame(buf[at..]).value.frameEnd]))
    ensures QuietUpTo(id, buf, at + FindFrame(buf[at..]).value.sepEnd)
  {
    hide Frames, Rest, FindFrame, EventOf;
    var tail := buf[at..];
    var c := FindFrame(tail).value;
    FirstFrameAlone(tail);
    SplitAtBoundary(buf[..at], tail[..c.sepEnd]);
    assert buf[..at] + tail[..c.sepEnd] == buf[..at + c.sepEnd];
    assert tail[..c.frameEnd] == buf[at..at + c.frameEnd];
  }

  lemma {:induction false} SeekFinds(id: Identity, buf: Bytes, at: nat)
    requires at <= |buf| && QuietUpTo(id, buf, at)
    ensures var r := Seek(id, buf, at);
            && (r.NotYet? ==> QuietUpTo(id, buf, r.scanned))
            && (r.Found? ==> ShownAt(id, buf, r.start, r.after, r.frame))
    decreases |buf| - at
  {
    hide Frames, Rest, FindFrame, EventOf, QuietUpTo;
    var r := FindFrame(buf[at..]);
    if r.Some? && at + r.value.sepEnd <= MAX_STREAM_PREAMBLE {
      var frame := buf[at..at + r.value.frameEnd];
      var p := PreambleOf(id.codec, frame, id.raw, id.canonical);
      if p == Ok(Passed) {
        assert Quiet(Reader(id)(frame));
        QuietOneMore(id, buf, at);
        SeekFinds(id, buf, at + r.value.sepEnd);
      }
    }
  }

  lemma QuietExtends(id: Identity, buf: Bytes, bytes: Bytes, at: nat)
    requires QuietUpTo(id, buf, at)
    ensures QuietUpTo(id, buf + bytes, at)
  {
    assert (buf + bytes)[..at] == buf[..at];
  }

  /** An opened body was read from some first chunks that show the identity. */
  ghost predicate OpenedAfter(id: Identity, buffer: Bytes, items: seq<SourceItem>, preamble: Bytes,
                              k: nat, start: nat, after: nat, frame: Bytes) {
    && k <= |items|
    && var src := buffer + Source(items[..k]);
       && ShownAt(id, src, start, after, frame)
       && preamble == src[..start] + frame + src[after..]
  }

  lemma SourceCons(x: SourceItem, items: seq<SourceItem>)
    ensures Source([x] + items) == (if x.Chunk? then x.bytes else []) + Source(items)
  {
    SourceAppend([x], items);
    assert [x][..0] == [];
  }

  lemma {:induction false} SourceAppend(a: seq<SourceItem>, b: seq<SourceItem>)
    ensures Source(a + b) == Source(a) + Source(b)
    decreases |b|
  {
    if b == [] {
      assert a + b == a;
    } else {
      var b', last := b[..|b| - 1], b[|b| - 1];
      SourceAppend(a, b');
      assert (a + b)[..|a + b| - 1] == a + b' && (a + b)[|a + b| - 1] == last;
      Reassociate(Source(a), Source(b'), if last.Chunk? then last.bytes else []);
    }
  }

  lemma FirstThenTail(items: seq<SourceItem>, k: nat)
    requires k < |items|
    ensures items[..k + 1] == [items[0]] + items[1..][..k]
    ensures items[1..][k..] == items[k + 1..]
  {
  }

  lemma {:induction false} IdentifyOpens(id: Identity, buffer: Bytes, scanned: nat, items: seq<SourceItem>)
    returns (k: nat, start: nat, after: nat, frame: Bytes)
    requires QuietUpTo(id, buffer, scanned)
    requires Identify(id, buffer, scanned, items).Opened?
    ensures var r := Identify(id, buffer, scanned, items);
            && OpenedAfter(id, buffer, items, r.preamble, k, start, after, frame)
            && r.rest == items[k..]
    decreases |items|
  {
    hide Frames, Rest, FindFrame, EventOf, QuietUpTo, ShownAt, Seek;
    var bytes := items[0].bytes;
    var buf := buffer + bytes;
    var tail := items[1..];
    QuietExtends(id, buffer, bytes, scanned);
    SeekFinds(id, buf, scanned);
    var sought := Seek(id, buf, scanned);
    if sought.Found? {
      k, start, after, frame := 1, sought.start, sought.after, sought.frame;
      assert items[..1] == [items[0]];
      SourceOfOne(bytes);
    } else {
      k, start, after, frame := IdentifyOpens(id, buf, sought.scanned, tail);
      hide Identify;
      FirstThenTail(items, k);
      SourceCons(items[0], tail[..k]);
      assert buffer + Source(items[..k + 1]) == buf + Source(tail[..k]);
      k := k + 1;
    }
  }

  // ----- the check does not depend on the chunking

  lemma ShownExtends(id: Identity, src: Bytes, more: Bytes, start: nat, after: nat, frame: Bytes)
    requires ShownAt(id, src, start, after, frame)
    ensures ShownAt(id, src + more, start, after, frame)
  {
    hide Frames, Rest, EventOf;
    QuietExtends(id, src, more, start);
    FindStable(src[start..], more);
    hide FindFrame;
    assert (src + more)[start..] == src[start..] + more;
    var c := FindFrame(src[start..]).value;
    assert (src + more)[start..start + c.frameEnd] == src[start..start + c.frameEnd];
  }

  /** Between two frame boundaries of a quiet prefix lies a quiet frame. */
  lemma NextQuietFrame(id: Identity, full: Bytes, at: nat, start: nat)
    requires QuietUpTo(id, full, at) && QuietUpTo(id, full, start) && at < start
    ensures FindFrame(full[at..]).Some?
    ensures at + FindFrame(full[at..]).value.sepEnd <= start
    ensures Quiet(Reader(id)(full[at..at + FindFrame(full[at..]).value.frameEnd]))
  {
    hide EventOf, Frames, Rest, FindFrame;
    var mid := full[at..start];
    assert full[..start] == full[..at] + mid;
    SplitAtBoundary(full[..at], mid);
    WholeFramesStartWithOne(mid);
    FindStable(mid, full[start..]);
    assert mid + full[start..] == full[at..];
    assert Frames(full[..start])[|Frames(full[..at])|] == Frames(mid)[0];
    assert mid[..FindFrame(mid).value.frameEnd] == full[at..at + FindFrame(mid).value.frameEnd];
  }

  lemma SeekPasses(id: Identity, buf: Bytes, at: nat)
    requires at <= |buf| && FindFrame(buf[at..]).Some?
    requires at + FindFrame(buf[at..]).value.sepEnd <= MAX_STREAM_PREAMBLE
    requires Quiet(Reader(id)(buf[at..at + FindFrame(buf[at..]).value.frameEnd]))
    ensures Seek(id, buf, at) == Seek(id, buf, at + FindFrame(buf[at..]).value.sepEnd)
  {
    hide FindFrame, EventOf;
  }

  lemma SeekWaits(id: Identity, buf: Bytes, at: nat)
    requires at <= |buf| <= MAX_STREAM_PREAMBLE && FindFrame(buf[at..]).None?
    ensures Seek(id, buf, at) == NotYet(at)
  {
    hide FindFrame, EventOf;
  }

  lemma SeekShown(id: Identity, buf: Bytes, start: nat, after: nat, frame: Bytes)
    requires ShownAt(id, buf, start, after, frame)
    ensures Seek(id, buf, start) == Found(start, after, frame)
  {
    hide FindFrame, EventOf, QuietUpTo, Frames, Rest;
  }

  lemma ShownInPrefix(id: Identity, full: Bytes, n: nat, start: nat, after: nat, frame: Bytes)
    requires ShownAt(id, full, start, after, frame) && after <= n <= |full|
    ensures ShownAt(id, full[..n], start, after, frame)
  {
    hide EventOf, Frames, Rest, FindFrame;
    var buf := full[..n];
    FindInPrefix(full[start..], n - start);
    assert full[start..][..n - start] == buf[start..];
    assert buf[..start] == full[..start];
    var c := FindFrame(full[start..]).value;
    assert buf[start..start + c.frameEnd] == full[start..start + c.frameEnd];
  }

  /** With the identity ahead, reading a prefix of the source either reaches it or waits for it. */
  lemma {:induction false} SeekReaches(id: Identity, full: Bytes, n: nat, at: nat,
                                       start: nat, after: nat, frame: Bytes)
    requires ShownAt(id, full, start, after, frame)
    requires at <= n <= |full| && at <= start && QuietUpTo(id, full, at)
    ensures var r := Seek(id, full[..n], at);
            if after <= n then r == Found(start, after, frame)
            else r.NotYet? && r.scanned <= start && QuietUpTo(id, full, r.scanned)
    decreases n - at
  {
    hide Frames, Rest, EventOf, QuietUpTo, FindFrame, Seek;
    var buf := full[..n];
    var ahead := full[at..];
    assert buf[at..] == ahead[..n - at];
    if at == start && after <= n {
      ShownInPrefix(id, full, n, start, after, frame);
      SeekShown(id, buf, start, after, frame);
    } else if at == start {
      NotFoundInShorterPrefix(ahead, n - at);
      SeekWaits(id, buf, at);
    } else {
      NextQuietFrame(id, full, at, start);
      var c := FindFrame(ahead).value;
      if at + c.sepEnd <= n {
        FindInPrefix(ahead, n - at);
        assert buf[at..at + c.frameEnd] == full[at..at + c.frameEnd];
        SeekPasses(id, buf, at);
        QuietOneMore(id, full, at);
        SeekReaches(id, full, n, at + c.sepEnd, start, after, frame);
      } else {
        NotFoundInShorterPrefix(ahead, n - at);
        SeekWaits(id, buf, at);
      }
    }
  }

  lemma {:induction false} IdentifyReaches(id: Identity, buffer: Bytes, scanned: nat, items: seq<SourceItem>,
                                           start: nat, after: nat, frame: Bytes)
    requires AllChunks(items)
    requires ShownAt(id, buffer + Source(items), start, after, frame)
    requires scanned <= start && scanned <= |buffer| < after
    requires QuietUpTo(id, buffer + Source(items), scanned)
    ensures Identify(id, buffer, scanned, items).Opened?
    decreases |items|
  {
    hide Frames, Rest, EventOf, QuietUpTo, FindFrame, Seek;
    var full := buffer + Source(items);
    assert items == [] ==> full == buffer;
    if items != [] {
      var bytes, tail := items[0].bytes, items[1..];
      var buf := buffer + bytes;
      assert items == [items[0]] + tail;
      SourceCons(items[0], tail);
      assert full == buf + Source(tail);
      assert full[..|buf|] == buf;
      SeekReaches(id, full, |buf|, scanned, start, after, frame);
      var sought := Seek(id, buf, scanned);
      if sought.NotYet? {
        IdentifyReaches(id, buf, sought.scanned, tail, start, after, frame);
      }
    }
  }

  ghost predicate ShowsIdentity(id: Identity, src: Bytes) {
    exists start, after, frame :: ShownAt(id, src, start, after, frame)
  }

  lemma QuietAtZero(id: Identity, src: Bytes)
    ensures QuietUpTo(id, src, 0)
  {
    assert src[..0] == [];
    NoFrames([]);
  }

  /** Whether a source is opened depends on its bytes only, not on how they were chunked. */
  lemma OpensIffShown(id: Identity, items: seq<SourceItem>)
    requires AllChunks(items)
    ensures Identify(id, [], 0, items).Opened? <==> ShowsIdentity(id, Source(items))
  {
    hide Identify, ShownAt;
    QuietAtZero(id, []);
    if Identify(id, [], 0, items).Opened? {
      var k, start, after, frame := IdentifyOpens(id, [], 0, items);
      OpenedShowsInSource(id, items, k, start, after, frame);
    }
    if ShowsIdentity(id, Source(items)) {
      var start, after, frame :| ShownAt(id, Source(items), start, after, frame);
      assert [] + Source(items) == Source(items);
      QuietAtZero(id, Source(items));
      ShownIsNotEmpty(id, Source(items), start, after, frame);
      IdentifyReaches(id, [], 0, items, start, after, frame);
    }
  }

  lemma ShownIsNotEmpty(id: Identity, src: Bytes, start: nat, after: nat, frame: Bytes)
    requires ShownAt(id, src, start, after, frame)
    ensures 0 < after
  {
  }

  lemma OpenedShowsInSource(id: Identity, items: seq<SourceItem>, k: nat, start: nat, after: nat, frame: Bytes)
    requires k <= |items| && ShownAt(id, [] + Source(items[..k]), start, after, frame)
    ensures ShownAt(id, Source(items), start, after, frame)
    ensures Source(items) == Source(items[..k]) + Source(items[k..])
  {
    hide ShownAt;
    SourceAppend(items[..k], items[k..]);
    assert items[..k] + items[k..] == items;
    assert [] + Source(items[..k]) == Source(items[..k]);
    ShownExtends(id, Source(items[..k]), Source(items[k..]), start, after, frame);
  }
}
