/** The parser and the replay as the program runs them: a cursor that advances, loops that fill. */
module EventLogCursor {
  import opened Common
  import opened EventLogFormat
  import opened EventLogParser

  class Cursor {
    const bytes: Bytes
    var offset: nat

    ghost predicate Valid()
      reads this
    {
      offset <= |bytes|
    }

    /** What is still to be read. */
    ghost function Rest(): Bytes
      requires Valid()
      reads this
    {
      bytes[offset..]
    }

    constructor (bytes: Bytes)
      ensures Valid() && Rest() == bytes && this.bytes == bytes
    {
      this.bytes, offset := bytes, 0;
    }

    method Take(len: nat) returns (r: Option<Bytes>)
      requires Valid()
      modifies this
      ensures Valid()
      ensures var read := ReadBytes(old(Rest()), len);
              if read.None? then r.None? && offset == old(offset)
              else r == Some(read.value.value) && Rest() == read.value.rest
    {
      var end := offset + len;
      if end > |bytes| {
        return None;
      }
      assert bytes[offset..][..len] == bytes[offset..end] && bytes[offset..][len..] == bytes[end..];
      r := Some(bytes[offset..end]);
      offset := end;
    }

    method TakeU16() returns (r: Option<nat>)
      requires Valid()
      modifies this
      ensures Valid()
      ensures var read := ReadU16(old(Rest()));
              if read.None? then r.None? && offset == old(offset)
              else r == Some(read.value.value) && Rest() == read.value.rest
    {
      var b := Take(2);
      if b.None? {
        return None;
      }
      return Some(FromLe16(b.value));
    }

    method TakeU32() returns (r: Option<nat>)
      requires Valid()
      modifies this
      ensures Valid()
      ensures var read := ReadU32(old(Rest()));
              if read.None? then r.None? && offset == old(offset)
              else r == Some(read.value.value) && Rest() == read.value.rest
    {
      var b := Take(4);
      if b.None? {
        return None;
      }
      return Some(FromLe32(b.value));
    }

    method PeekU32() returns (r: Option<nat>)
      requires Valid()
      ensures r == Some(PADDING) <==> AtPadding(Rest())
    {
      if offset + 4 > |bytes| {
        return None;
      }
      return Some(FromLe32(bytes[offset..offset + 4]));
    }

    method AtEnd() returns (r: bool)
      requires Valid()
      ensures r <==> Rest() == []
    {
      return offset == |bytes|;
    }

    method RestIsPadding() returns (r: bool)
      requires Valid()
      ensures r <==> AllPadding(Rest())
    {
      return AllPadding(bytes[offset..]);
    }
  }

  lemma NoAlgorithm(b: Bytes, count: nat)
    requires count > 0 && (ReadU16(b).None? || ReadU16(ReadU16(b).value.rest).None?)
    ensures ReadAlgorithms(b, count).None?
  {
  }

  lemma NoMoreAlgorithms(b: Bytes)
    ensures ReadAlgorithms(b, 0) == Some(Read([], b))
  {
  }

  /** The algorithm list of the header: the loop that fills `sizes`. */
  method ParseAlgorithms(spec: Cursor, count: nat) returns (r: Option<seq<Algorithm>>)
    requires spec.Valid()
    modifies spec
    ensures spec.Valid()
    ensures var read := ReadAlgorithms(old(spec.Rest()), count);
            r == if read.None? then None else Some(read.value.value)
  {
    hide ReadAlgorithms, ReadU16;
    var sizes: seq<Algorithm> := [];
    ghost var all := ReadAlgorithms(spec.Rest(), count);
    var i := 0;
    while i < count
      invariant i <= count && spec.Valid()
      invariant var more := ReadAlgorithms(spec.Rest(), count - i);
                && all.Some? == more.Some?
                && (more.Some? ==> all.value.value == sizes + more.value.value)
    {
      ghost var before := spec.Rest();
      var id := spec.TakeU16();
      if id.None? {
        NoAlgorithm(before, count - i);
        return None;
      }
      var size := spec.TakeU16();
      if size.None? {
        NoAlgorithm(before, count - i);
        return None;
      }
      ReadAlgorithmsStep(before, count - i);
      sizes := sizes + [Algorithm(id.value, size.value)];
      i := i + 1;
    }
    NoMoreAlgorithms(spec.Rest());
    assert sizes + [] == sizes;
    return Some(sizes);
  }

  /** The structure after its signature. */
  method ParseSpecFields(spec: Cursor) returns (r: Option<seq<Algorithm>>)
    requires spec.Valid()
    modifies spec
    ensures var read := ReadSpecFields(old(spec.Rest())); r == if read.None? then None else Some(read.value.1)
  {
    hide ReadAlgorithms, ReadU32, ReadBytes;
    var fixed := spec.Take(4 + 1 + 1 + 1 + 1);
    if fixed.None? {
      return None;
    }
    var count := spec.TakeU32();
    if count.None? || !(1 <= count.value <= MAX_ALGORITHMS) {
      return None;
    }
    var sizes := ParseAlgorithms(spec, count.value);
    if sizes.None? || Algorithm(TPM_ALG_SHA384, SHA384_LEN) !in sizes.value {
      return None;
    }
    return sizes;
  }

  method ParseSpec(bytes: Bytes) returns (r: Option<seq<Algorithm>>)
    ensures var read := ReadSpec(bytes); r == if read.None? then None else Some(read.value.1)
  {
    hide ReadSpecFields, ReadBytes;
    var spec := new Cursor(bytes);
    var signature := spec.Take(16);
    if signature.None? || signature.value != SPEC_ID_SIGNATURE {
      return None;
    }
    r := ParseSpecFields(spec);
  }

  /** `parse_header`. */
  method ParseHeader(cursor: Cursor) returns (r: Option<seq<Algorithm>>)
    requires cursor.Valid()
    modifies cursor
    ensures cursor.Valid()
    ensures var read := ReadHeader(old(cursor.Rest()));
            if read.None? then r.None?
            else r == Some(read.value.value.algs) && cursor.Rest() == read.value.rest
  {
    hide ReadSpec;
    var index := cursor.TakeU32();
    if index.None? {
      return None;
    }
    var eventType := cursor.TakeU32();
    if eventType.None? || eventType.value != EV_NO_ACTION {
      return None;
    }
    var sha1 := cursor.Take(SHA1_DIGEST_LEN);
    if sha1.None? {
      return None;
    }
    var size := cursor.TakeU32();
    if size.None? {
      return None;
    }
    var spec := cursor.Take(size.value);
    if spec.None? {
      return None;
    }
    r := ParseSpec(spec.value);
  }

  /** The digests gathered before a point, and then those still to be read. */
  lemma {:induction false} ReadDigestsSnoc(algs: seq<Algorithm>, b: Bytes, count: nat)
    requires count > 0 && ReadDigest(algs, b).Some?
    ensures var first := ReadDigest(algs, b).value;
            var more := ReadDigests(algs, first.rest, count - 1);
            && ReadDigests(algs, b, count).Some? == more.Some?
            && (more.Some? ==>
                ReadDigests(algs, b, count).value == Read([first.value] + more.value.value, more.value.rest))
  {
  }

  lemma Sha384Snoc(digests: seq<Digest>, d: Digest)
    ensures Sha384Of(digests + [d]) ==
            if d.alg == TPM_ALG_SHA384 then Sha384Of(digests) + [d.value] else Sha384Of(digests)
  {
    assert (digests + [d])[..|digests|] == digests;
  }

  lemma {:induction false} Sha384Grows(a: seq<Digest>, b: seq<Digest>)
    ensures |Sha384Of(a)| <= |Sha384Of(a + b)|
    decreases |b|
  {
    if b == [] {
      assert a + b == a;
    } else {
      Sha384Grows(a, b[..|b| - 1]);
      Sha384Snoc(a + b[..|b| - 1], b[|b| - 1]);
      assert a + b == a + b[..|b| - 1] + [b[|b| - 1]];
    }
  }

  /** One digest of a record. */
  method ParseDigest(cursor: Cursor, digestSizes: seq<Algorithm>) returns (r: Option<Digest>)
    requires cursor.Valid()
    modifies cursor
    ensures cursor.Valid()
    ensures var read := ReadDigest(digestSizes, old(cursor.Rest()));
            if read.None? then r.None?
            else r == Some(read.value.value) && cursor.Rest() == read.value.rest
  {
    var algorithm := cursor.TakeU16();
    if algorithm.None? {
      return None;
    }
    var size := SizeOf(digestSizes, algorithm.value);
    if size.None? {
      return None;
    }
    var digest := cursor.Take(size.value);
    if digest.None? {
      return None;
    }
    return Some(Digest(algorithm.value, digest.value));
  }

  /** The digest loop of a record; it keeps only the SHA-384 digest and refuses a second one. */
  method ParseDigests(cursor: Cursor, digestSizes: seq<Algorithm>, count: nat)
    returns (ok: bool, sha384: Option<Bytes>)
    requires cursor.Valid()
    modifies cursor
    ensures cursor.Valid()
    ensures var read := ReadDigests(digestSizes, old(cursor.Rest()), count);
            && (ok <==> read.Some? && |Sha384Of(read.value.value)| <= 1)
            && (ok ==> cursor.Rest() == read.value.rest
                       && Sha384Of(read.value.value) == (if sha384.None? then [] else [sha384.value]))
  {
    hide ReadDigest, ReadDigests, Sha384Of, SizeOf;
    sha384 := None;
    ghost var all := ReadDigests(digestSizes, cursor.Rest(), count);
    ghost var done: seq<Digest> := [];
    Sha384OfNone();
    var i := 0;
    while i < count
      invariant i <= count && cursor.Valid()
      invariant var more := ReadDigests(digestSizes, cursor.Rest(), count - i);
                && all.Some? == more.Some?
                && (more.Some? ==> all.value.value == done + more.value.value && all.value.rest == more.value.rest)
      invariant Sha384Of(done) == (if sha384.None? then [] else [sha384.value])
    {
      ghost var before := cursor.Rest();
      var digest := ParseDigest(cursor, digestSizes);
      if digest.None? {
        NoDigestNoDigests(digestSizes, before, count - i);
        return false, None;
      }
      ReadDigestsSnoc(digestSizes, before, count - i);
      Sha384Snoc(done, digest.value);
      done := done + [digest.value];
      if digest.value.alg == TPM_ALG_SHA384 {
        if sha384.Some? {
          if all.Some? {
            ghost var later := ReadDigests(digestSizes, cursor.Rest(), count - i - 1).value.value;
            assert all.value.value == done + later;
            Sha384Grows(done, later);
          }
          return false, None;
        }
        sha384 := Some(digest.value.value);
      }
      i := i + 1;
    }
    NoMoreDigests(digestSizes, cursor.Rest());
    assert done + [] == done;
    return true, sha384;
  }

  lemma Sha384OfNone()
    ensures Sha384Of([]) == []
  {
  }

  lemma NoDigestNoDigests(algs: seq<Algorithm>, b: Bytes, count: nat)
    requires count > 0 && ReadDigest(algs, b).None?
    ensures ReadDigests(algs, b, count).None?
  {
  }

  lemma NoMoreDigests(algs: seq<Algorithm>, b: Bytes)
    ensures ReadDigests(algs, b, 0) == Some(Read([], b))
  {
  }

  /** `parse_event`: None is an error, Some(None) an informational record. */
  method ParseEvent(cursor: Cursor, digestSizes: seq<Algorithm>) returns (r: Option<Option<Event>>)
    requires cursor.Valid()
    modifies cursor
    ensures cursor.Valid()
    ensures var read := ReadRecord(digestSizes, old(cursor.Rest()));
            if read.None? then r.None?
            else r == Some(EventOf(read.value.value)) && cursor.Rest() == read.value.rest
  {
    hide ReadDigests, Sha384Of, ReadU32, ReadBytes;
    var index := cursor.TakeU32();
    if index.None? {
      return None;
    }
    var eventType := cursor.TakeU32();
    if eventType.None? {
      return None;
    }
    var count := cursor.TakeU32();
    if count.None? || count.value > |digestSizes| {
      return None;
    }
    var ok, sha384 := ParseDigests(cursor, digestSizes, count.value);
    if !ok {
      return None;
    }
    var dataLen := cursor.TakeU32();
    if dataLen.None? {
      return None;
    }
    var data := cursor.Take(dataLen.value);
    if data.None? {
      return None;
    }
    if eventType.value == EV_NO_ACTION {
      return Some(None);
    }
    if !(1 <= index.value <= 4) {
      return None;
    }
    if sha384.None? || |sha384.value| != SHA384_LEN {
      return None;
    }
    return Some(Some(Event(index.value - 1, eventType.value, sha384.value, data.value)));
  }

  /** `parse`. */
  method Parse(log: Bytes) returns (r: Option<seq<Event>>)
    ensures r == ParseLog(log)
  {
    hide ReadHeader, ReadRecord, AtPadding, AllPadding, EventOf, Remaining, ReadRecords;
    var cursor := new Cursor(log);
    var digestSizes := ParseHeader(cursor);
    if digestSizes.None? {
      return None;
    }
    var events: seq<Event> := [];
    NothingYet(digestSizes.value, cursor.Rest());
    var atEnd := cursor.AtEnd();
    while !atEnd
      invariant cursor.Valid() && fresh(cursor)
      invariant atEnd <==> cursor.Rest() == []
      invariant ParseLog(log) == Remaining(digestSizes.value, events, cursor.Rest())
      decreases |cursor.Rest()|
    {
      RemainingStops(digestSizes.value, events, cursor.Rest());
      var peeked := cursor.PeekU32();
      if peeked == Some(PADDING) {
        var padding := cursor.RestIsPadding();
        if !padding {
          return None;
        }
        return Some(events);
      }
      if |events| >= MAX_EVENTS {
        return None;
      }
      ghost var before := cursor.Rest();
      var event := ParseEvent(cursor, digestSizes.value);
      if event.None? {
        return None;
      }
      RemainingGoesOn(digestSizes.value, events, before);
      if event.value.Some? {
        events := events + [event.value.value];
      }
      atEnd := cursor.AtEnd();
    }
    RemainingStops(digestSizes.value, events, cursor.Rest());
    return Some(events);
  }

  /** The outcome of the record loop, once `events` have been listed and `b` is still to be read. */
  function Remaining(algs: seq<Algorithm>, events: seq<Event>, b: Bytes): Option<seq<Event>> {
    Prepended(events, ReadRecords(algs, b, |events|))
  }

  function Prepended(events: seq<Event>, more: Option<seq<Event>>): Option<seq<Event>> {
    if more.None? then None else Some(events + more.value)
  }

  lemma PrependedTwice(a: seq<Event>, b: seq<Event>, more: Option<seq<Event>>)
    ensures Prepended(a, Prepended(b, more)) == Prepended(a + b, more)
    ensures b == [] ==> a + b == a
  {
    if more.Some? {
      assert a + (b + more.value) == a + b + more.value;
    }
  }

  lemma PrependNothing(more: Option<seq<Event>>)
    ensures Prepended([], more) == more
  {
    if more.Some? {
      assert [] + more.value == more.value;
    }
  }

  lemma PrependedEnds(events: seq<Event>)
    ensures Prepended(events, Some([])) == Some(events) && Prepended(events, None) == None
  {
    assert events + [] == events;
  }

  lemma NothingYet(algs: seq<Algorithm>, b: Bytes)
    ensures Remaining(algs, [], b) == ReadRecords(algs, b, 0)
  {
    hide ReadRecords;
    PrependNothing(ReadRecords(algs, b, 0));
  }

  /** Where the record loop ends. */
  lemma RemainingStops(algs: seq<Algorithm>, events: seq<Event>, b: Bytes)
    ensures b == [] || (AtPadding(b) && AllPadding(b)) ==> Remaining(algs, events, b) == Some(events)
    ensures AtPadding(b) && !AllPadding(b) ==> Remaining(algs, events, b) == None
    ensures b != [] && !AtPadding(b) && (|events| >= MAX_EVENTS || ReadRecord(algs, b).None?) ==>
              Remaining(algs, events, b) == None
  {
    hide ReadRecord, AllPadding;
    PrependedEnds(events);
  }

  /** How it goes on otherwise. */
  lemma RemainingGoesOn(algs: seq<Algorithm>, events: seq<Event>, b: Bytes)
    requires b != [] && !AtPadding(b) && |events| < MAX_EVENTS && ReadRecord(algs, b).Some?
    ensures var record := ReadRecord(algs, b).value;
            var event := EventOf(record.value);
            Remaining(algs, events, b) ==
            Remaining(algs, if event.Some? then events + [event.value] else events, record.rest)
  {
    hide ReadRecord, AtPadding, AllPadding, EventOf;
    var record := ReadRecord(algs, b).value;
    var listed := Listed(EventOf(record.value));
    var next := ReadRecords(algs, record.rest, |events| + |listed|);
    PrependedTwice(events, listed, next);
    assert |events + listed| == |events| + |listed|;
  }

  // ----- replay

  /** Stands for SHA-384: any function whose values are 48 bytes long. */
  type Hash = Bytes -> Bytes

  ghost predicate Is48Byte(h: Hash) {
    forall x :: |h(x)| == SHA384_LEN
  }

  function ZeroRegister(): (r: Bytes)
    ensures |r| == SHA384_LEN
  {
    seq(SHA384_LEN, i => 0)
  }

  /** A register extended with these digests in turn. */
  function Extended(h: Hash, digests: seq<Bytes>): Bytes {
    if digests == [] then ZeroRegister()
    else h(Extended(h, digests[..|digests| - 1]) + digests[|digests| - 1])
  }

  /** The digests of the events for one register, in order. */
  function DigestsFor(events: seq<Event>, rtmr: nat): seq<Bytes> {
    if events == [] then []
    else
      var before := DigestsFor(events[..|events| - 1], rtmr);
      var last := events[|events| - 1];
      if last.rtmr == rtmr then before + [last.digest] else before
  }

  /** `replay`: each register is the extension of the zero register by its own events alone. */
  method Replay(h: Hash, events: seq<Event>) returns (registers: array<Bytes>)
    requires forall i :: 0 <= i < |events| ==> events[i].rtmr < 4
    ensures fresh(registers) && registers.Length == 4
    ensures forall i :: 0 <= i < 4 ==> registers[i] == Extended(h, DigestsFor(events, i))
  {
    registers := new Bytes[4](i => ZeroRegister());
    var k := 0;
    while k < |events|
      invariant k <= |events|
      invariant forall i :: 0 <= i < 4 ==> registers[i] == Extended(h, DigestsFor(events[..k], i))
    {
      var event := events[k];
      assert events[..k + 1][..k] == events[..k];
      ghost var digests := DigestsFor(events[..k], event.rtmr);
      assert (digests + [event.digest])[..|digests|] == digests;
      registers[event.rtmr] := h(registers[event.rtmr] + event.digest);
      k := k + 1;
    }
    assert events[..k] == events;
  }

  /** Evidence against the hash: two inputs with one value, or an input whose value is the zero register. */
  datatype Break = Collision(x: Bytes, y: Bytes) | ZeroPreimage(x: Bytes)

  ghost predicate Breaks(h: Hash, b: Break) {
    match b
    case Collision(x, y) => x != y && h(x) == h(y)
    case ZeroPreimage(x) => h(x) == ZeroRegister()
  }

  ghost predicate All48(digests: seq<Bytes>) {
    forall i :: 0 <= i < |digests| ==> |digests[i]| == SHA384_LEN
  }

  /** The hash input x arose when a register was extended with these digests: at digest i. */
  ghost predicate HashedAt(h: Hash, digests: seq<Bytes>, i: int, x: Bytes) {
    0 <= i < |digests| && x == Extended(h, digests[..i]) + digests[i]
  }

  ghost predicate Hashed(h: Hash, digests: seq<Bytes>, x: Bytes) {
    exists i :: HashedAt(h, digests, i, x)
  }

  /** The break is among the very inputs that were hashed in the two extensions. */
  ghost predicate BreaksIn(h: Hash, a: seq<Bytes>, b: seq<Bytes>, w: Break) {
    && Breaks(h, w)
    && match w
       case Collision(x, y) => Hashed(h, a, x) && Hashed(h, b, y)
       case ZeroPreimage(x) => Hashed(h, a, x) || Hashed(h, b, x)
  }

  lemma HashedLast(h: Hash, digests: seq<Bytes>)
    requires digests != []
    ensures Hashed(h, digests, Extended(h, digests[..|digests| - 1]) + digests[|digests| - 1])
  {
    assert HashedAt(h, digests, |digests| - 1, Extended(h, digests[..|digests| - 1]) + digests[|digests| - 1]);
  }

  lemma HashedBefore(h: Hash, digests: seq<Bytes>, x: Bytes)
    requires digests != [] && Hashed(h, digests[..|digests| - 1], x)
    ensures Hashed(h, digests, x)
  {
    var i :| HashedAt(h, digests[..|digests| - 1], i, x);
    assert digests[..|digests| - 1][..i] == digests[..i];
    assert HashedAt(h, digests, i, x);
  }

  /**
   Different digest sequences with the same register value exhibit a break of the hash among the
   inputs that were hashed to extend the register.
   */
  lemma {:induction false} RegisterBindsItsDigests(h: Hash, a: seq<Bytes>, b: seq<Bytes>) returns (w: Break)
    requires Is48Byte(h) && All48(a) && All48(b)
    requires a != b && Extended(h, a) == Extended(h, b)
    ensures BreaksIn(h, a, b, w)
    decreases |a|
  {
    hide Hashed, All48;
    if a == [] {
      w := ZeroPreimage(Extended(h, b[..|b| - 1]) + b[|b| - 1]);
      HashedLast(h, b);
    } else if b == [] {
      w := ZeroPreimage(Extended(h, a[..|a| - 1]) + a[|a| - 1]);
      HashedLast(h, a);
    } else {
      var a', b' := a[..|a| - 1], b[..|b| - 1];
      var x, y := Extended(h, a') + a[|a| - 1], Extended(h, b') + b[|b| - 1];
      if x != y {
        w := Collision(x, y);
        HashedLast(h, a);
        HashedLast(h, b);
      } else {
        ExtendedLength(h, a');
        ExtendedLength(h, b');
        assert x[..SHA384_LEN] == Extended(h, a') && y[..SHA384_LEN] == Extended(h, b');
        assert x[SHA384_LEN..] == a[|a| - 1] && y[SHA384_LEN..] == b[|b| - 1];
        assert a == a' + [a[|a| - 1]] && b == b' + [b[|b| - 1]];
        assert All48(a') && All48(b') by {
          AllButLast48(a);
          AllButLast48(b);
        }
        w := RegisterBindsItsDigests(h, a', b');
        BreaksInLonger(h, a, b, w);
      }
    }
  }

  lemma AllButLast48(digests: seq<Bytes>)
    requires digests != [] && All48(digests)
    ensures All48(digests[..|digests| - 1])
  {
  }

  lemma BreaksInLonger(h: Hash, a: seq<Bytes>, b: seq<Bytes>, w: Break)
    requires a != [] && b != [] && BreaksIn(h, a[..|a| - 1], b[..|b| - 1], w)
    ensures BreaksIn(h, a, b, w)
  {
    hide Hashed;
    if Hashed(h, a[..|a| - 1], w.x) {
      HashedBefore(h, a, w.x);
    }
    if Hashed(h, b[..|b| - 1], w.x) {
      HashedBefore(h, b, w.x);
    }
    if w.Collision? {
      HashedBefore(h, b, w.y);
    }
  }

  lemma ExtendedLength(h: Hash, digests: seq<Bytes>)
    requires Is48Byte(h)
    ensures |Extended(h, digests)| == SHA384_LEN
  {
  }

  lemma {:induction false} DigestsForAre48(events: seq<Event>, rtmr: nat)
    requires EventsOk(events)
    ensures All48(DigestsFor(events, rtmr))
    decreases |events|
  {
    if events != [] {
      DigestsForAre48(events[..|events| - 1], rtmr);
    }
  }

  /**
   Two accepted logs that replay to the same value of a register extended that register with the
   same digests in the same order, or a break of the hash is exhibited among the inputs that the
   two replays hashed for that register. The answer None is given exactly in the first case.
   */
  lemma SameRegisterSameDigests(h: Hash, log1: Bytes, log2: Bytes, rtmr: nat) returns (w: Option<Break>)
    requires Is48Byte(h) && ParseLog(log1).Some? && ParseLog(log2).Some?
    requires Extended(h, DigestsFor(ParseLog(log1).value, rtmr)) == Extended(h, DigestsFor(ParseLog(log2).value, rtmr))
    ensures w.None? <==> DigestsFor(ParseLog(log1).value, rtmr) == DigestsFor(ParseLog(log2).value, rtmr)
    ensures w.Some? ==>
              BreaksIn(h, DigestsFor(ParseLog(log1).value, rtmr), DigestsFor(ParseLog(log2).value, rtmr), w.value)
  {
    hide ParseLog, Extended, DigestsFor, BreaksIn;
    var a, b := DigestsFor(ParseLog(log1).value, rtmr), DigestsFor(ParseLog(log2).value, rtmr);
    ParsedEventsAreMeasured(log1);
    ParsedEventsAreMeasured(log2);
    DigestsForAre48(ParseLog(log1).value, rtmr);
    DigestsForAre48(ParseLog(log2).value, rtmr);
    if a == b {
      w := None;
    } else {
      var found := RegisterBindsItsDigests(h, a, b);
      w := Some(found);
    }
  }
}
