/**
 Why a stream is refused, as the bytes of the source show it: each rejection of the identity check
 and each error item of the guard has one cause, and that cause brings it about.
 */
module StreamEnds {
  import opened Common
  import opened Json
  import opened SseFraming
  import opened SseEvents
  import opened StreamGuard
  import opened GuardedRuns
  import opened StreamIdentity

  // ----- the identity check

  /** The same check for another raw model. */
  function ForModel(id: Identity, m: Bytes): Identity {
    id.(raw := m)
  }

  lemma {:induction false} SeekOther(id: Identity, m: Bytes, buf: Bytes, at: nat)
    requires at <= |buf| && m != id.raw
    ensures Seek(ForModel(id, m), buf, at).Found? ==> Seek(id, buf, at) == Refused(ModelIdentityMismatch)
    ensures Seek(ForModel(id, m), buf, at).NotYet? ==> Seek(id, buf, at) == Seek(ForModel(id, m), buf, at)
    decreases |buf| - at
  {
    hide EventOf, CanonicalFrame, WithModel, ModelOf, Seek, FindFrame;
    SeekUnfolds(id, buf, at);
    SeekUnfolds(ForModel(id, m), buf, at);
    var r := FindFrame(buf[at..]);
    if r.Some? && at + r.value.sepEnd <= MAX_STREAM_PREAMBLE {
      if PreambleOf(id.codec, buf[at..at + r.value.frameEnd], id.raw, id.canonical) == Ok(Passed) {
        SeekOther(id, m, buf, at + r.value.sepEnd);
      }
    }
  }

  lemma {:induction false} SeekMismatch(id: Identity, buf: Bytes, at: nat) returns (m: Bytes)
    requires at <= |buf| && Seek(id, buf, at) == Refused(ModelIdentityMismatch)
    ensures m != id.raw && Seek(ForModel(id, m), buf, at).Found?
    decreases |buf| - at
  {
    hide EventOf, CanonicalFrame, WithModel, ModelOf, Seek, FindFrame;
    SeekUnfolds(id, buf, at);
    var c := FindFrame(buf[at..]).value;
    var frame := buf[at..at + c.frameEnd];
    if PreambleOf(id.codec, frame, id.raw, id.canonical) == Ok(Passed) {
      m := SeekMismatch(id, buf, at + c.sepEnd);
    } else {
      m := ModelOf(EventOf(id.codec, frame).value.value).value;
    }
    SeekUnfolds(ForModel(id, m), buf, at);
  }

  lemma {:induction false} IdentifyOther(id: Identity, m: Bytes, buffer: Bytes, scanned: nat, items: seq<SourceItem>)
    requires scanned <= |buffer| && m != id.raw && Identify(ForModel(id, m), buffer, scanned, items).Opened?
    ensures Identify(id, buffer, scanned, items) == Rejected(ModelIdentityMismatch)
    decreases |items|
  {
    hide Seek;
    var buf := buffer + items[0].bytes;
    SeekOther(id, m, buf, scanned);
    var sought := Seek(ForModel(id, m), buf, scanned);
    if sought.NotYet? {
      IdentifyOther(id, m, buf, sought.scanned, items[1..]);
    }
  }

  lemma {:induction false} IdentifyMismatch(id: Identity, buffer: Bytes, scanned: nat, items: seq<SourceItem>)
    returns (m: Bytes)
    requires scanned <= |buffer| && Identify(id, buffer, scanned, items) == Rejected(ModelIdentityMismatch)
    ensures m != id.raw && Identify(ForModel(id, m), buffer, scanned, items).Opened?
    decreases |items|
  {
    hide Seek;
    var buf := buffer + items[0].bytes;
    var sought := Seek(id, buf, scanned);
    if sought.Refused? {
      m := SeekMismatch(id, buf, scanned);
    } else {
      m := IdentifyMismatch(id, buf, sought.scanned, items[1..]);
      SeekOther(ForModel(id, m), id.raw, buf, scanned);
      assert ForModel(ForModel(id, m), id.raw) == id;
    }
  }

  /** A mismatch is reported exactly if the source bytes show the identity of another model. */
  lemma MismatchIff(id: Identity, items: seq<SourceItem>)
    requires AllChunks(items)
    ensures Identify(id, [], 0, items) == Rejected(ModelIdentityMismatch) <==>
            exists m :: m != id.raw && ShowsIdentity(ForModel(id, m), Source(items))
  {
    hide Identify, ShowsIdentity;
    if Identify(id, [], 0, items) == Rejected(ModelIdentityMismatch) {
      var m := IdentifyMismatch(id, [], 0, items);
      OpensIffShown(ForModel(id, m), items);
    }
    if exists m :: m != id.raw && ShowsIdentity(ForModel(id, m), Source(items)) {
      var m :| m != id.raw && ShowsIdentity(ForModel(id, m), Source(items));
      OpensIffShown(ForModel(id, m), items);
      IdentifyOther(id, m, [], 0, items);
    }
  }

  /** Nothing decided yet: within the preamble, and quiet frames only. */
  ghost predicate AllQuiet(id: Identity, src: Bytes) {
    && |src| <= 64 * 1024
    && forall i :: 0 <= i < |Frames(src)| ==> Quiet(Reader(id)(Frames(src)[i].body))
  }

  lemma PassedIffQuiet(id: Identity, frame: Bytes)
    ensures PreambleOf(id.codec, frame, id.raw, id.canonical) == Ok(Passed) <==> Quiet(Reader(id)(frame))
    ensures PreambleOf(id.codec, frame, id.raw, id.canonical) != Err(UpstreamTransport)
  {
    hide EventOf, CanonicalFrame, WithModel, ModelOf;
  }

  lemma NoFrameAhead(id: Identity, buf: Bytes, at: nat)
    requires QuietUpTo(id, buf, at) && FindFrame(buf[at..]).None?
    ensures AllQuiet(id, buf) <==> |buf| <= MAX_STREAM_PREAMBLE
  {
    hide EventOf, Quiet;
    NoFrames(buf[at..]);
    assert buf == buf[..at] + buf[at..];
    SplitAtBoundary(buf[..at], buf[at..]);
    hide Frames, Rest, FindFrame;
  }

  lemma FrameAhead(id: Identity, buf: Bytes, at: nat)
    requires QuietUpTo(id, buf, at) && FindFrame(buf[at..]).Some?
    ensures AllQuiet(id, buf) ==>
              && at + FindFrame(buf[at..]).value.sepEnd <= MAX_STREAM_PREAMBLE
              && Quiet(Reader(id)(buf[at..at + FindFrame(buf[at..]).value.frameEnd]))
  {
    hide EventOf, Quiet;
    FirstFrameOf(buf[at..]);
    assert buf == buf[..at] + buf[at..];
    SplitAtBoundary(buf[..at], buf[at..]);
    hide Frames, Rest, FindFrame;
    var c := FindFrame(buf[at..]).value;
    assert buf[at..][..c.frameEnd] == buf[at..at + c.frameEnd];
    assert Frames(buf)[|Frames(buf[..at])|].body == buf[at..at + c.frameEnd];
  }

  lemma {:induction false} SeekWaitsIff(id: Identity, buf: Bytes, at: nat)
    requires at <= |buf| && QuietUpTo(id, buf, at)
    ensures Seek(id, buf, at).NotYet? <==> AllQuiet(id, buf)
    ensures Seek(id, buf, at) != Refused(UpstreamTransport)
    decreases |buf| - at
  {
    hide FindFrame, Frames, Rest, EventOf, Quiet, PreambleOf, QuietUpTo, AllQuiet, Seek, Reader;
    SeekUnfolds(id, buf, at);
    if FindFrame(buf[at..]).None? {
      NoFrameAhead(id, buf, at);
    } else {
      var c := FindFrame(buf[at..]).value;
      var frame := buf[at..at + c.frameEnd];
      FrameAhead(id, buf, at);
      PassedIffQuiet(id, frame);
      if at + c.sepEnd <= MAX_STREAM_PREAMBLE && Quiet(Reader(id)(frame)) {
        QuietOneMore(id, buf, at);
        SeekWaitsIff(id, buf, at + c.sepEnd);
      }
    }
  }

  lemma AllQuietPrefix(id: Identity, a: Bytes, b: Bytes)
    requires AllQuiet(id, a + b)
    ensures AllQuiet(id, a)
  {
    hide Frames, Rest, EventOf, Quiet;
    SplitExtend(a, b);
    forall i | 0 <= i < |Frames(a)|
      ensures Quiet(Reader(id)(Frames(a)[i].body))
    {
      assert Frames(a + b)[i] == Frames(a)[i];
    }
  }

  /** The upstream broke off at item k, before anything was decided. */
  ghost predicate BrokeOffAt(id: Identity, buffer: Bytes, items: seq<SourceItem>, k: int) {
    && 0 <= k < |items| && items[k].Interrupted? && AllChunks(items[..k])
    && AllQuiet(id, buffer + Source(items[..k]))
  }

  ghost predicate BrokeOff(id: Identity, buffer: Bytes, items: seq<SourceItem>) {
    exists k :: BrokeOffAt(id, buffer, items, k)
  }

  lemma BrokeOffTail(id: Identity, buffer: Bytes, items: seq<SourceItem>)
    requires items != [] && items[0].Chunk?
    ensures BrokeOff(id, buffer, items) <==> BrokeOff(id, buffer + items[0].bytes, items[1..])
    ensures BrokeOff(id, buffer, items) ==> AllQuiet(id, buffer + items[0].bytes)
  {
    hide AllQuiet, Source;
    var tail, buf := items[1..], buffer + items[0].bytes;
    if BrokeOff(id, buffer, items) {
      var k :| BrokeOffAt(id, buffer, items, k);
      FirstThenTail(items, k - 1);
      SourceCons(items[0], tail[..k - 1]);
      assert buffer + Source(items[..k]) == buf + Source(tail[..k - 1]);
      AllQuietPrefix(id, buf, Source(tail[..k - 1]));
      assert BrokeOffAt(id, buf, tail, k - 1);
    }
    if BrokeOff(id, buf, tail) {
      var k :| BrokeOffAt(id, buf, tail, k);
      FirstThenTail(items, k);
      SourceCons(items[0], tail[..k]);
      assert buffer + Source(items[..k + 1]) == buf + Source(tail[..k]);
      assert BrokeOffAt(id, buffer, items, k + 1);
    }
  }

  lemma {:induction false} TransportFrom(id: Identity, buffer: Bytes, scanned: nat, items: seq<SourceItem>)
    requires QuietUpTo(id, buffer, scanned) && AllQuiet(id, buffer)
    ensures Identify(id, buffer, scanned, items) == Rejected(UpstreamTransport) <==> BrokeOff(id, buffer, items)
    decreases |items|
  {
    hide Frames, Rest, FindFrame, EventOf, QuietUpTo, AllQuiet, Seek;
    if items != [] && items[0].Chunk? {
      var buf := buffer + items[0].bytes;
      QuietExtends(id, buffer, items[0].bytes, scanned);
      SeekFinds(id, buf, scanned);
      SeekWaitsIff(id, buf, scanned);
      BrokeOffTail(id, buffer, items);
      hide BrokeOff;
      var sought := Seek(id, buf, scanned);
      if sought.NotYet? {
        TransportFrom(id, buf, sought.scanned, items[1..]);
      }
    } else if items != [] {
      assert items[..0] == [] && buffer + Source([]) == buffer;
      assert BrokeOffAt(id, buffer, items, 0);
    }
  }

  /** A broken transport is reported exactly if the upstream broke off before anything was decided. */
  lemma TransportIff(id: Identity, items: seq<SourceItem>)
    ensures Identify(id, [], 0, items) == Rejected(UpstreamTransport) <==> BrokeOff(id, [], items)
  {
    QuietAtZero(id, []);
    NoFrames([]);
    hide Identify, BrokeOff, QuietUpTo;
    TransportFrom(id, [], 0, items);
  }

  // ----- the guard: which frames may come

  /** Quiet frames, or those, one that opens and inner ones after it, and perhaps one that closes at the end. */
  ghost predicate OpensAndGoesOn(classify: Classifier, bodies: seq<Bytes>, i: int) {
    && 0 <= i < |bodies|
    && (forall k :: 0 <= k < i ==> Quiet(classify(bodies[k])))
    && Opening(classify(bodies[i]))
    && (forall k :: i < k < |bodies| ==> Inner(classify(bodies[k])))
  }

  ghost predicate MayCome(classify: Classifier, bodies: seq<Bytes>) {
    || (forall k :: 0 <= k < |bodies| ==> Quiet(classify(bodies[k])))
    || (exists i :: OpensAndGoesOn(classify, bodies, i))
    || WellOrdered(classify, bodies)
  }

  /** The automaton refuses no earlier and no later than the grammar. */
  lemma {:induction false} AdmittedIff(classify: Classifier, bodies: seq<Bytes>)
    ensures AdmitAll(classify, INITIAL_PHASE, bodies).Some? <==> MayCome(classify, bodies)
    ensures AdmitAll(classify, INITIAL_PHASE, bodies) == Some(Phase(false, false)) <==>
            forall k :: 0 <= k < |bodies| ==> Quiet(classify(bodies[k]))
    ensures AdmitAll(classify, INITIAL_PHASE, bodies) == Some(Phase(true, false)) <==>
            exists i :: OpensAndGoesOn(classify, bodies, i)
    decreases |bodies|
  {
    AutomatonIsGrammar(classify, bodies);
    if bodies != [] {
      var before, last := bodies[..|bodies| - 1], bodies[|bodies| - 1];
      AdmittedIff(classify, before);
      AutomatonIsGrammar(classify, before);
      assert bodies == before + [last];
      LastAdmitted(classify, before, last);
      GoesOnOneMore(classify, before, last);
      QuietOneMoreBody(classify, before, last);
      StartedBeforeTerminal(classify, INITIAL_PHASE, bodies);
      StartedBeforeTerminal(classify, INITIAL_PHASE, before);
      hide AdmitAll, OpensAndGoesOn, WellOrdered;
    }
  }

  lemma LastAdmitted(classify: Classifier, before: seq<Bytes>, last: Bytes)
    ensures var p := AdmitAll(classify, INITIAL_PHASE, before);
            AdmitAll(classify, INITIAL_PHASE, before + [last]) ==
            if p.None? then None else Admit(p.value, classify(last))
  {
    AdmitAllAppend(classify, INITIAL_PHASE, before, [last]);
    assert [last][1..] == [];
  }

  lemma QuietOneMoreBody(classify: Classifier, before: seq<Bytes>, last: Bytes)
    ensures (forall k :: 0 <= k < |before + [last]| ==> Quiet(classify((before + [last])[k]))) <==>
            Quiet(classify(last)) && forall k :: 0 <= k < |before| ==> Quiet(classify(before[k]))
  {
    hide Quiet;
    var all := before + [last];
    assert all[|before|] == last && forall k :: 0 <= k < |before| ==> all[k] == before[k];
  }

  lemma GoesOnOneMore(classify: Classifier, before: seq<Bytes>, last: Bytes)
    ensures (exists i :: OpensAndGoesOn(classify, before + [last], i)) <==>
            || ((forall k :: 0 <= k < |before| ==> Quiet(classify(before[k]))) && Opening(classify(last)))
            || (Inner(classify(last)) && exists i :: OpensAndGoesOn(classify, before, i))
  {
    hide Quiet, Inner, Opening;
    var all := before + [last];
    assert all[|before|] == last && forall k :: 0 <= k < |before| ==> all[k] == before[k];
    if exists i :: OpensAndGoesOn(classify, all, i) {
      var i :| OpensAndGoesOn(classify, all, i);
      if i < |before| {
        assert OpensAndGoesOn(classify, before, i);
      }
    }
    if (forall k :: 0 <= k < |before| ==> Quiet(classify(before[k]))) && Opening(classify(last)) {
      assert OpensAndGoesOn(classify, all, |before|);
    }
    if Inner(classify(last)) && exists i :: OpensAndGoesOn(classify, before, i) {
      var i :| OpensAndGoesOn(classify, before, i);
      assert OpensAndGoesOn(classify, all, i);
    }
  }

  // ----- the guard: the cause of each end

  /** The first m frames are within the bound and in order, and nothing has closed the stream. */
  ghost predicate Reaches(classify: Classifier, frames: seq<Frame>, p: Phase, m: int, q: Phase) {
    && 0 <= m <= |frames| && FramesFit(frames[..m])
    && AdmitAll(classify, p, Bodies(frames[..m])) == Some(q) && !q.terminal
  }

  /** The frame behind those, or the unframed rest, is over the bound. */
  ghost predicate TooLong(classify: Classifier, frames: seq<Frame>, rest: Bytes, p: Phase, m: int, q: Phase) {
    && Reaches(classify, frames, p, m, q)
    && (if m < |frames| then |frames[m].body| else |rest|) > MAX_STREAM_FRAME
  }

  /** The frame behind those is within the bound, but malformed or out of order. */
  ghost predicate Misplaced(classify: Classifier, frames: seq<Frame>, p: Phase, m: int, q: Phase) {
    && Reaches(classify, frames, p, m, q)
    && m < |frames| && |frames[m].body| <= MAX_STREAM_FRAME && Admit(q, classify(frames[m].body)).None?
  }

  lemma ReachesNone(classify: Classifier, frames: seq<Frame>, p: Phase, q: Phase)
    ensures Reaches(classify, frames, p, 0, q) <==> q == p && !p.terminal
  {
    assert frames[..0] == [];
    NoneLeft(frames[..0]);
  }

  lemma ReachesCons(classify: Classifier, first: Frame, rest: seq<Frame>, p: Phase, m: nat, q: Phase)
    ensures var next := Admit(p, classify(first.body));
            Reaches(classify, [first] + rest, p, m + 1, q) <==>
            |first.body| <= MAX_STREAM_FRAME && next.Some? && Reaches(classify, rest, next.value, m, q)
  {
    if m <= |rest| {
      var some := rest[..m];
      assert ([first] + rest)[..m + 1] == [first] + some;
      FitsCons(first, some);
      BodiesCons(first, some);
      var next, bodies := Admit(p, classify(first.body)), [first.body] + Bodies(some);
      assert bodies[0] == first.body && bodies[1..] == Bodies(some);
      hide FramesFit, Admit;
    }
  }

  ghost predicate SomeTooLong(classify: Classifier, frames: seq<Frame>, rest: Bytes, p: Phase) {
    exists m, q :: TooLong(classify, frames, rest, p, m, q)
  }

  ghost predicate SomeMisplaced(classify: Classifier, frames: seq<Frame>, p: Phase) {
    exists m, q :: Misplaced(classify, frames, p, m, q)
  }

  lemma TooLongCons(classify: Classifier, first: Frame, more: seq<Frame>, rest: Bytes, p: Phase)
    requires !p.terminal
    ensures var next := Admit(p, classify(first.body));
            SomeTooLong(classify, [first] + more, rest, p) <==>
            || |first.body| > MAX_STREAM_FRAME
            || (next.Some? && SomeTooLong(classify, more, rest, next.value))
  {
    var all, next := [first] + more, Admit(p, classify(first.body));
    hide Admit, Reaches;
    if SomeTooLong(classify, all, rest, p) {
      var m, q :| TooLong(classify, all, rest, p, m, q);
      ReachedInRange(classify, all, p, m, q);
      if m > 0 {
        ReachesCons(classify, first, more, p, m - 1, q);
        assert m < |all| ==> all[m] == more[m - 1];
        assert TooLong(classify, more, rest, next.value, m - 1, q);
      }
    }
    if |first.body| > MAX_STREAM_FRAME {
      ReachesNone(classify, all, p, p);
      assert TooLong(classify, all, rest, p, 0, p);
    } else if next.Some? && SomeTooLong(classify, more, rest, next.value) {
      var m, q :| TooLong(classify, more, rest, next.value, m, q);
      ReachedInRange(classify, more, next.value, m, q);
      ReachesCons(classify, first, more, p, m, q);
      assert m < |more| ==> all[m + 1] == more[m];
      assert TooLong(classify, all, rest, p, m + 1, q);
    }
  }

  lemma ReachedInRange(classify: Classifier, frames: seq<Frame>, p: Phase, m: int, q: Phase)
    requires Reaches(classify, frames, p, m, q)
    ensures 0 <= m <= |frames|
  {
  }

  lemma MisplacedCons(classify: Classifier, first: Frame, more: seq<Frame>, p: Phase)
    requires !p.terminal
    ensures var next := Admit(p, classify(first.body));
            SomeMisplaced(classify, [first] + more, p) <==>
            && |first.body| <= MAX_STREAM_FRAME
            && (next.None? || SomeMisplaced(classify, more, next.value))
  {
    var all, next := [first] + more, Admit(p, classify(first.body));
    assert all[0] == first;
    hide Admit, Reaches;
    if SomeMisplaced(classify, all, p) {
      var m, q :| Misplaced(classify, all, p, m, q);
      ReachedInRange(classify, all, p, m, q);
      if m > 0 {
        ReachesCons(classify, first, more, p, m - 1, q);
        assert all[m] == more[m - 1];
        assert Misplaced(classify, more, next.value, m - 1, q);
      } else {
        ReachesNone(classify, all, p, q);
      }
    }
    if |first.body| <= MAX_STREAM_FRAME {
      if next.None? {
        ReachesNone(classify, all, p, p);
        assert Misplaced(classify, all, p, 0, p);
      } else if SomeMisplaced(classify, more, next.value) {
        var m, q :| Misplaced(classify, more, next.value, m, q);
        ReachedInRange(classify, more, next.value, m, q);
        ReachesCons(classify, first, more, p, m, q);
        assert all[m + 1] == more[m];
        assert Misplaced(classify, all, p, m + 1, q);
      }
    }
  }

  lemma TerminalReachesNothing(classify: Classifier, frames: seq<Frame>, rest: Bytes, p: Phase)
    requires p.terminal
    ensures !SomeTooLong(classify, frames, rest, p) && !SomeMisplaced(classify, frames, p)
  {
  }

  /** The split of a buffer stops for the one cause that its bytes show. */
  lemma {:induction false} DrainStopsFor(classify: Classifier, buf: Bytes, p: Phase)
    requires !p.terminal
    ensures Drain(classify, buf, p).end == Some(FrameLimit) <==> SomeTooLong(classify, Frames(buf), Rest(buf), p)
    ensures Drain(classify, buf, p).end == Some(InvalidEvent) <==> SomeMisplaced(classify, Frames(buf), p)
    decreases |buf|
  {
    if FindFrame(buf).None? {
      NoFrames(buf);
      OnlyTheRest(classify, buf, p);
      hide SomeTooLong, SomeMisplaced;
    } else {
      var c := FindFrame(buf).value;
      var first := Frame(buf[..c.frameEnd], buf[c.frameEnd..c.sepEnd]);
      var tail := buf[c.sepEnd..];
      FirstFrameOf(buf);
      TooLongCons(classify, first, Frames(tail), Rest(tail), p);
      MisplacedCons(classify, first, Frames(tail), p);
      assert Rest(buf) == Rest(tail);
      hide SomeTooLong, SomeMisplaced, Frames, Rest, FindFrame;
      var next := Admit(p, classify(first.body));
      if c.frameEnd <= MAX_STREAM_FRAME && next.Some? {
        if next.value.terminal {
          TerminalReachesNothing(classify, Frames(tail), Rest(tail), next.value);
          if c.sepEnd == |buf| {
            assert tail == [];
            NothingCloses(classify, next.value);
          }
        } else {
          DrainStopsFor(classify, tail, next.value);
        }
      }
    }
  }

  lemma OnlyTheRest(classify: Classifier, buf: Bytes, p: Phase)
    requires !p.terminal
    ensures SomeTooLong(classify, [], buf, p) <==> |buf| > MAX_STREAM_FRAME
    ensures !SomeMisplaced(classify, [], p)
  {
    ReachesNone(classify, [], p, p);
    if |buf| > MAX_STREAM_FRAME {
      assert TooLong(classify, [], buf, p, 0, p);
    }
  }

  // ----- the same of the whole source

  lemma ReachesAppend(classify: Classifier, a: seq<Frame>, b: seq<Frame>, p: Phase, m: nat, q: Phase)
    requires AdmitAll(classify, INITIAL_PHASE, Bodies(a)) == Some(p) && FramesFit(a)
    ensures Reaches(classify, a + b, INITIAL_PHASE, |a| + m, q) <==> Reaches(classify, b, p, m, q)
  {
    if m <= |b| {
      var some := b[..m];
      assert (a + b)[..|a| + m] == a + some;
      FitsAppend(a, some);
      BodiesAppend(a, some);
      AdmitAllAppend(classify, INITIAL_PHASE, Bodies(a), Bodies(some));
      hide AdmitAll, FramesFit, Bodies;
    }
  }

  lemma NothingBefore(classify: Classifier, a: seq<Frame>, b: seq<Frame>, m: nat, q: Phase)
    requires AdmitAll(classify, INITIAL_PHASE, Bodies(a)).Some? && FramesFit(a) && m < |a|
    requires Reaches(classify, a + b, INITIAL_PHASE, m, q)
    ensures |(a + b)[m].body| <= MAX_STREAM_FRAME && Admit(q, classify((a + b)[m].body)).Some?
  {
    assert (a + b)[..m] == a[..m] && (a + b)[m] == a[m];
    assert a == a[..m] + a[m..];
    BodiesAppend(a[..m], a[m..]);
    AdmitAllAppend(classify, INITIAL_PHASE, Bodies(a[..m]), Bodies(a[m..]));
    assert Bodies(a[m..])[0] == a[m].body;
  }

  lemma CausesAppend(classify: Classifier, a: seq<Frame>, b: seq<Frame>, rest: Bytes, p: Phase)
    requires AdmitAll(classify, INITIAL_PHASE, Bodies(a)) == Some(p) && FramesFit(a)
    ensures SomeTooLong(classify, a + b, rest, INITIAL_PHASE) <==> SomeTooLong(classify, b, rest, p)
    ensures SomeMisplaced(classify, a + b, INITIAL_PHASE) <==> SomeMisplaced(classify, b, p)
  {
    hide Reaches, AdmitAll, FramesFit, Bodies, Admit;
    if SomeTooLong(classify, a + b, rest, INITIAL_PHASE) {
      var m, q :| TooLong(classify, a + b, rest, INITIAL_PHASE, m, q);
      ReachedInRange(classify, a + b, INITIAL_PHASE, m, q);
      if m < |a| {
        NothingBefore(classify, a, b, m, q);
      } else {
        ReachesAppend(classify, a, b, p, m - |a|, q);
        assert TooLong(classify, b, rest, p, m - |a|, q);
      }
    }
    if SomeTooLong(classify, b, rest, p) {
      var m, q :| TooLong(classify, b, rest, p, m, q);
      ReachedInRange(classify, b, p, m, q);
      ReachesAppend(classify, a, b, p, m, q);
      assert TooLong(classify, a + b, rest, INITIAL_PHASE, |a| + m, q);
    }
    if SomeMisplaced(classify, a + b, INITIAL_PHASE) {
      var m, q :| Misplaced(classify, a + b, INITIAL_PHASE, m, q);
      ReachedInRange(classify, a + b, INITIAL_PHASE, m, q);
      if m < |a| {
        NothingBefore(classify, a, b, m, q);
      } else {
        ReachesAppend(classify, a, b, p, m - |a|, q);
        assert Misplaced(classify, b, p, m - |a|, q);
      }
    }
    if SomeMisplaced(classify, b, p) {
      var m, q :| Misplaced(classify, b, p, m, q);
      ReachedInRange(classify, b, p, m, q);
      ReachesAppend(classify, a, b, p, m, q);
      assert Misplaced(classify, a + b, INITIAL_PHASE, |a| + m, q);
    }
  }

  /** The stream was closed before, or within these bytes with more behind. */
  ghost predicate DataBehindClosing(classify: Classifier, src: Bytes, bytes: Bytes) {
    || (bytes != [] && WellOrdered(classify, Bodies(Frames(src))))
    || exists n :: |Frames(src)| <= n && ClosesAt(classify, src + bytes, n)
  }

  lemma TerminalIffClosed(classify: Classifier, s: State, src: Bytes)
    requires LiveState(classify, s, src)
    ensures s.phase.terminal <==> WellOrdered(classify, Bodies(Frames(src)))
  {
    AutomatonIsGrammar(classify, Bodies(Frames(src)));
    StartedBeforeTerminal(classify, INITIAL_PHASE, Bodies(Frames(src)));
    hide Frames, Rest, Bodies, AdmitAll, FramesFit, WellOrdered;
  }

  /** What a live guard answers to one more item, and why, with `src` the bytes it has passed on. */
  lemma CauseOfEnd(classify: Classifier, s: State, src: Bytes, item: SourceItem)
    requires LiveState(classify, s, src)
    ensures var out := Poll(classify, s, Some(item)).1;
            && out.Some?
            && (out.value == Failure(UpstreamInterrupted) <==> item.Interrupted?)
            && out.value != Failure(MissingTerminal)
            && (item.Chunk? ==>
                  var whole := src + item.bytes;
                  var over, behind := |whole| > 32 * 1024 * 1024, DataBehindClosing(classify, src, item.bytes);
                  && (out.value == Failure(ResponseBodyLimit) <==> over)
                  && (out.value == Failure(DataAfterTerminal) <==> !over && behind)
                  && (out.value == Failure(FrameLimit) <==>
                        !over && SomeTooLong(classify, Frames(whole), Rest(whole), INITIAL_PHASE))
                  && (out.value == Failure(InvalidEvent) <==>
                        !over && SomeMisplaced(classify, Frames(whole), INITIAL_PHASE))
                  && (out.value.Data? ==> out.value == Data(item.bytes)))
  {
    if item.Chunk? {
      var bytes, buf := item.bytes, Rest(src) + item.bytes;
      TerminalIffClosed(classify, s, src);
      ChunkStopsIff(classify, s, src, bytes);
      SplitExtend(src, bytes);
      CausesAppend(classify, Frames(src), Frames(buf), Rest(buf), s.phase);
      hide Drain, Frames, Rest, FindFrame, Bodies, AdmitAll, FramesFit, SomeTooLong, SomeMisplaced, ClosesAt,
           WellOrdered;
      if s.phase.terminal {
        TerminalReachesNothing(classify, Frames(buf), Rest(buf), s.phase);
        TerminalStays(classify, s.phase);
        assert bytes == [] ==> s.pending + bytes == [];
      } else {
        DrainStopsFor(classify, buf, s.phase);
        DrainEnds(classify, buf, s.phase);
      }
    }
  }

  lemma {:induction false} DrainEnds(classify: Classifier, buf: Bytes, p: Phase)
    ensures var end := Drain(classify, buf, p).end;
            end.None? || end.value.FrameLimit? || end.value.InvalidEvent? || end.value.DataAfterTerminal?
    decreases |buf|
  {
    var r := FindFrame(buf);
    if r.Some? {
      var next := Admit(p, classify(buf[..r.value.frameEnd]));
      if next.Some? {
        DrainEnds(classify, buf[r.value.sepEnd..], next.value);
      }
    }
  }

  /** And what it answers when the source ends. */
  lemma CauseAtTheEnd(classify: Classifier, s: State, src: Bytes)
    requires LiveState(classify, s, src)
    ensures Poll(classify, s, None).1 ==
            if WellOrdered(classify, Bodies(Frames(src))) && Rest(src) == [] then None
            else Some(Failure(MissingTerminal))
  {
    TerminalIffClosed(classify, s, src);
    hide Frames, Rest, Bodies, AdmitAll, FramesFit, WellOrdered;
  }

  /** Over runs: the item that a guard yields for its k-th item, as long as it has not failed. */
  lemma OutputIs(classify: Classifier, items: seq<SourceItem>, k: nat)
    requires k < |items| && Live(classify, items[..k])
    ensures LiveState(classify, After(classify, items[..k]), Source(items[..k]))
    ensures Output(classify, items[..k + 1]) ==
            Output(classify, items[..k]) + Yield(Poll(classify, After(classify, items[..k]), Some(items[k])).1)
  {
    assert items[..k + 1][..k] == items[..k];
    hide LiveState, LiveOutput, Poll;
  }
}
