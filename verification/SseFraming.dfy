/**
 The server-sent-event framing of the Bedrock Mantle adapter: where a frame ends, and how a
 whole buffer splits into frames. The framing is deliberately narrow: a frame ends at the first
 LF LF or CR LF CR LF, whichever starts earlier.
 */
module SseFraming {
  import opened Common

  /** Offsets found in a buffer: where the frame stops and where its separator stops. */
  datatype Cut = Cut(frameEnd: nat, sepEnd: nat)

  /** One frame of a split buffer, with the separator that closed it. */
  datatype Frame = Frame(body: Bytes, sep: Bytes)

  predicate LfAt(b: Bytes, i: int) {
    0 <= i && i + 2 <= |b| && b[i] == LF && b[i + 1] == LF
  }

  predicate CrlfAt(b: Bytes, i: int) {
    0 <= i && i + 4 <= |b| && b[i] == CR && b[i + 1] == LF && b[i + 2] == CR && b[i + 3] == LF
  }

  predicate SepAt(b: Bytes, i: int) {
    LfAt(b, i) || CrlfAt(b, i)
  }

  /** `windows(2).position(..)` from offset i on. */
  function FirstLf(b: Bytes, i: nat): (r: Option<nat>)
    requires i <= |b|
    ensures r.Some? ==> i <= r.value && r.value + 2 <= |b|
    decreases |b| - i
  {
    if i == |b| then None else if LfAt(b, i) then Some(i) else FirstLf(b, i + 1)
  }

  /** `windows(4).position(..)` from offset i on. */
  function FirstCrlf(b: Bytes, i: nat): (r: Option<nat>)
    requires i <= |b|
    ensures r.Some? ==> i <= r.value && r.value + 4 <= |b|
    decreases |b| - i
  {
    if i == |b| then None else if CrlfAt(b, i) then Some(i) else FirstCrlf(b, i + 1)
  }

  /** `find_sse_frame`. */
  function FindFrame(b: Bytes): (r: Option<Cut>)
    ensures r.Some? ==> r.value.frameEnd < r.value.sepEnd <= |b|
  {
    var lf := FirstLf(b, 0);
    var crlf := FirstCrlf(b, 0);
    if lf.Some? && crlf.Some? && crlf.value < lf.value then Some(Cut(crlf.value, crlf.value + 4))
    else if lf.Some? then Some(Cut(lf.value, lf.value + 2))
    else if crlf.Some? then Some(Cut(crlf.value, crlf.value + 4))
    else None
  }

  lemma {:induction false} FirstLfIsLeast(b: Bytes, i: nat)
    requires i <= |b|
    ensures var r := FirstLf(b, i);
            && (r.Some? ==> LfAt(b, r.value) && forall k :: i <= k < r.value ==> !LfAt(b, k))
            && (r.None? ==> forall k :: i <= k ==> !LfAt(b, k))
    decreases |b| - i
  {
    if i < |b| && !LfAt(b, i) {
      FirstLfIsLeast(b, i + 1);
    }
  }

  lemma {:induction false} FirstCrlfIsLeast(b: Bytes, i: nat)
    requires i <= |b|
    ensures var r := FirstCrlf(b, i);
            && (r.Some? ==> CrlfAt(b, r.value) && forall k :: i <= k < r.value ==> !CrlfAt(b, k))
            && (r.None? ==> forall k :: i <= k ==> !CrlfAt(b, k))
    decreases |b| - i
  {
    if i < |b| && !CrlfAt(b, i) {
      FirstCrlfIsLeast(b, i + 1);
    }
  }

  /**
   The independent reading of `find_sse_frame`: the reported offset is the least one at which a
   separator of either kind starts, and nothing is reported only if there is none.
   */
  lemma FindIsLeast(b: Bytes)
    ensures var r := FindFrame(b);
            && (r.Some? ==>
                  && SepAt(b, r.value.frameEnd)
                  && (forall k :: 0 <= k < r.value.frameEnd ==> !SepAt(b, k))
                  && r.value.sepEnd == r.value.frameEnd + (if LfAt(b, r.value.frameEnd) then 2 else 4))
            && (r.None? ==> forall k :: 0 <= k ==> !SepAt(b, k))
  {
    FirstLfIsLeast(b, 0);
    FirstCrlfIsLeast(b, 0);
  }

  /** The successive frames of a whole-buffer split. */
  function Frames(b: Bytes): seq<Frame>
    decreases |b|
  {
    match FindFrame(b)
    case None => []
    case Some(c) => [Frame(b[..c.frameEnd], b[c.frameEnd..c.sepEnd])] + Frames(b[c.sepEnd..])
  }

  /** What a whole-buffer split leaves unframed. */
  function Rest(b: Bytes): Bytes
    decreases |b|
  {
    match FindFrame(b)
    case None => b
    case Some(c) => Rest(b[c.sepEnd..])
  }

  function Bodies(frames: seq<Frame>): (r: seq<Bytes>)
    ensures |r| == |frames|
    ensures forall i :: 0 <= i < |r| ==> r[i] == frames[i].body
  {
    seq(|frames|, i requires 0 <= i < |frames| => frames[i].body)
  }

  /** The bytes a list of frames was cut from. */
  function Join(frames: seq<Frame>): Bytes {
    if frames == [] then [] else frames[0].body + frames[0].sep + Join(frames[1..])
  }

  lemma SepAtShift(b: Bytes, k: nat, i: nat)
    requires k <= |b|
    ensures SepAt(b[k..], i) == SepAt(b, k + i)
    ensures LfAt(b[k..], i) == LfAt(b, k + i)
  {
  }

  /** FindFrame is determined by its contract: the least separator start fixes the answer. */
  lemma FindIs(b: Bytes, e: nat)
    requires SepAt(b, e)
    requires forall k :: 0 <= k < e ==> !SepAt(b, k)
    ensures FindFrame(b) == Some(Cut(e, e + (if LfAt(b, e) then 2 else 4)))
  {
    var r := FindFrame(b);
    FindIsLeast(b);
    assert r.Some?;
    assert r.value.frameEnd >= e;
    assert r.value.frameEnd <= e;
  }

  /** A separator that was found is never displaced by bytes that arrive later. */
  lemma FindStable(a: Bytes, b: Bytes)
    requires FindFrame(a).Some?
    ensures FindFrame(a + b) == FindFrame(a)
  {
    var c := FindFrame(a).value;
    FindIsLeast(a);
    forall k | 0 <= k < c.frameEnd
      ensures !SepAt(a + b, k)
    {
      assert !SepAt(a, k);
    }
    assert LfAt(a, c.frameEnd) ==> LfAt(a + b, c.frameEnd);
    assert CrlfAt(a, c.frameEnd) ==> CrlfAt(a + b, c.frameEnd);
    FindIs(a + b, c.frameEnd);
  }

  /** Splitting as bytes arrive equals splitting the whole: only the unframed rest is re-read. */
  lemma {:induction false} SplitExtend(a: Bytes, b: Bytes)
    ensures Frames(a + b) == Frames(a) + Frames(Rest(a) + b)
    ensures Rest(a + b) == Rest(Rest(a) + b)
    decreases |a|
  {
    var r := FindFrame(a);
    if r.Some? {
      var c := r.value;
      FindStable(a, b);
      assert (a + b)[..c.frameEnd] == a[..c.frameEnd];
      assert (a + b)[c.frameEnd..c.sepEnd] == a[c.frameEnd..c.sepEnd];
      assert (a + b)[c.sepEnd..] == a[c.sepEnd..] + b;
      SplitExtend(a[c.sepEnd..], b);
    }
  }

  /** Nothing separates within the rest, so splitting it again yields no frame. */
  lemma {:induction false} RestIsUnframed(b: Bytes)
    ensures FindFrame(Rest(b)).None?
    decreases |b|
  {
    if FindFrame(b).Some? {
      RestIsUnframed(b[FindFrame(b).value.sepEnd..]);
    }
  }

  lemma JoinCons(f: Frame, rest: seq<Frame>)
    ensures Join([f] + rest) == f.body + f.sep + Join(rest)
  {
    assert ([f] + rest)[1..] == rest;
  }

  /** A split loses nothing: frames, separators and rest re-assemble the buffer. */
  lemma {:induction false} SplitIsLossless(b: Bytes)
    ensures Join(Frames(b)) + Rest(b) == b
    decreases |b|
  {
    var r := FindFrame(b);
    if r.Some? {
      var c := r.value;
      var tail := b[c.sepEnd..];
      SplitIsLossless(tail);
      var f := Frame(b[..c.frameEnd], b[c.frameEnd..c.sepEnd]);
      JoinCons(f, Frames(tail));
      Reassociate(f.body + f.sep, Join(Frames(tail)), Rest(tail));
      ThreeParts(b, c.frameEnd, c.sepEnd);
    }
  }

  /**
   The three-byte overlap misses no separator: when `held` contains none, scanning the extended
   buffer from three bytes before its old end finds exactly what scanning all of it would.
   */
  lemma OverlapMissesNothing(held: Bytes, chunk: Bytes, base: nat)
    requires FindFrame(held).None?
    requires base == if |held| < 3 then 0 else |held| - 3
    ensures var all := FindFrame(held + chunk);
            var tail := FindFrame((held + chunk)[base..]);
            && all.Some? == tail.Some?
            && (all.Some? ==> all.value == Cut(base + tail.value.frameEnd, base + tail.value.sepEnd))
  {
    var buf := held + chunk;
    FindIsLeast(held);
    FindIsLeast(buf);
    FindIsLeast(buf[base..]);
    forall k | 0 <= k < base
      ensures !SepAt(buf, k)
    {
      assert !SepAt(held, k);
    }
    var tail := FindFrame(buf[base..]);
    if tail.Some? {
      var e := tail.value.frameEnd;
      SepAtShift(buf, base, e);
      forall k | 0 <= k < base + e
        ensures !SepAt(buf, k)
      {
        if base <= k {
          SepAtShift(buf, base, k - base);
        }
      }
      FindIs(buf, base + e);
    } else {
      var all := FindFrame(buf);
      if all.Some? {
        SepAtShift(buf, base, all.value.frameEnd - base);
        assert false;
      }
    }
  }

  /** An unframed buffer splits to nothing. */
  lemma NoFrames(b: Bytes)
    requires FindFrame(b).None?
    ensures Frames(b) == [] && Rest(b) == b
  {
  }

  /** Splitting respects frame boundaries: after a prefix with no rest, the split starts afresh. */
  lemma SplitAtBoundary(a: Bytes, b: Bytes)
    requires Rest(a) == []
    ensures Frames(a + b) == Frames(a) + Frames(b)
    ensures Rest(a + b) == Rest(b)
  {
    SplitExtend(a, b);
    assert [] + b == b;
  }

  /** The prefix up to the end of the first separator is one frame. */
  lemma FirstFrameAlone(b: Bytes)
    requires FindFrame(b).Some?
    ensures var c := FindFrame(b).value;
            && Frames(b[..c.sepEnd]) == [Frame(b[..c.frameEnd], b[c.frameEnd..c.sepEnd])]
            && Rest(b[..c.sepEnd]) == []
  {
    var c := FindFrame(b).value;
    var a := b[..c.sepEnd];
    FindIsLeast(b);
    assert forall k :: 0 <= k < c.frameEnd && SepAt(a, k) ==> SepAt(b, k);
    assert LfAt(b, c.frameEnd) ==> LfAt(a, c.frameEnd);
    assert LfAt(a, c.frameEnd) ==> LfAt(b, c.frameEnd);
    FindIs(a, c.frameEnd);
    assert a[..c.frameEnd] == b[..c.frameEnd] && a[c.frameEnd..c.sepEnd] == b[c.frameEnd..c.sepEnd];
    assert a[c.sepEnd..] == [];
    NoFrames([]);
  }

  /** Without the last byte of its separator, a first frame is not recognised at all. */
  lemma WithoutLastSeparatorByte(b: Bytes)
    requires FindFrame(b).Some?
    ensures FindFrame(b[..FindFrame(b).value.sepEnd - 1]).None?
  {
    var c := FindFrame(b).value;
    var a := b[..c.sepEnd - 1];
    FindIsLeast(b);
    FindIsLeast(a);
    forall k | 0 <= k
      ensures !SepAt(a, k)
    {
      assert SepAt(a, k) ==> SepAt(b, k);
    }
  }

  lemma FirstFrameOf(b: Bytes)
    requires Frames(b) != []
    ensures FindFrame(b).Some?
    ensures var c := FindFrame(b).value;
            Frames(b) == [Frame(b[..c.frameEnd], b[c.frameEnd..c.sepEnd])] + Frames(b[c.sepEnd..])
  {
  }

  /** A non-empty buffer without rest starts with a frame. */
  lemma WholeFramesStartWithOne(b: Bytes)
    requires b != [] && Rest(b) == []
    ensures FindFrame(b).Some? && Frames(b) != []
    ensures Frames(b)[0].body == b[..FindFrame(b).value.frameEnd]
  {
  }

  lemma JoinAgain(b: Bytes, n: nat, x: Bytes, y: Bytes)
    requires n <= |b| && x + y == b[n..]
    ensures b[..n] + x + y == b
  {
    assert b[..n] + x + y == b[..n] + (x + y);
  }

  /** A buffer can be cut so that a chosen frame is held back, but for the last byte of its separator. */
  lemma {:induction false} CutBeforeSeparatorEnd(b: Bytes, i: nat) returns (a: Bytes, tail: Bytes)
    requires i < |Frames(b)|
    ensures a + tail == b
    ensures |Rest(a)| == |Frames(b)[i].body| + |Frames(b)[i].sep| - 1
    decreases |b|
  {
    var c := FindFrame(b).value;
    FirstFrameOf(b);
    if i == 0 {
      a, tail := b[..c.sepEnd - 1], b[c.sepEnd - 1..];
      WithoutLastSeparatorByte(b);
      NoFrames(a);
    } else {
      hide FindFrame, Frames, Rest;
      var rest := b[c.sepEnd..];
      assert Frames(b)[i] == Frames(rest)[i - 1];
      a, tail := CutBeforeSeparatorEnd(rest, i - 1);
      FirstFrameAlone(b);
      SplitAtBoundary(b[..c.sepEnd], a);
      JoinAgain(b, c.sepEnd, a, tail);
      a := b[..c.sepEnd] + a;
    }
  }

  /** A first separator is found as soon as its last byte is there. */
  lemma FindInPrefix(b: Bytes, n: nat)
    requires FindFrame(b).Some? && FindFrame(b).value.sepEnd <= n <= |b|
    ensures FindFrame(b[..n]) == FindFrame(b)
  {
    var c := FindFrame(b).value;
    var a := b[..n];
    FindIsLeast(b);
    assert forall k :: 0 <= k < c.frameEnd && SepAt(a, k) ==> SepAt(b, k);
    assert LfAt(b, c.frameEnd) == LfAt(a, c.frameEnd);
    FindIs(a, c.frameEnd);
  }

  /** And not before. */
  lemma NotFoundInShorterPrefix(b: Bytes, n: nat)
    requires n <= |b|
    requires FindFrame(b).Some? ==> n < FindFrame(b).value.sepEnd
    ensures FindFrame(b[..n]).None?
  {
    assert b[..n] + b[n..] == b;
    if FindFrame(b[..n]).Some? {
      FindStable(b[..n], b[n..]);
      assert false;
    }
  }

  /** Separators are two or four bytes. */
  lemma {:induction false} SeparatorLengths(b: Bytes)
    ensures forall i :: 0 <= i < |Frames(b)| ==> 2 <= |Frames(b)[i].sep| <= 4
    decreases |b|
  {
    if FindFrame(b).Some? {
      FindIsLeast(b);
      SeparatorLengths(b[FindFrame(b).value.sepEnd..]);
    }
  }
}
