/**
 The TDX event log in the crypto-agile format: a header listing the digest algorithms, then
 records until the end of the buffer or its 0xFF padding. This module holds the format itself,
 as an encoder and as the decoding of one item from the front of a byte string.
 */
module EventLogFormat {
  import opened Common

  const EV_NO_ACTION: nat := 3
  const TPM_ALG_SHA384: nat := 0x000C
  const SHA1_DIGEST_LEN: nat := 20
  const SHA384_LEN: nat := 48
  const MAX_ALGORITHMS: nat := 16
  const PADDING: nat := 0xFFFF_FFFF
  const U16_LIMIT: nat := 0x1_0000
  const U32_LIMIT: nat := 0x1_0000_0000

  /** "Spec ID Event03", closed by a zero octet. */
  const SPEC_ID_SIGNATURE: Bytes :=
    [0x53, 0x70, 0x65, 0x63, 0x20, 0x49, 0x44, 0x20, 0x45, 0x76, 0x65, 0x6E, 0x74, 0x30, 0x33, 0x00]

  datatype Algorithm = Algorithm(id: nat, size: nat)

  datatype Digest = Digest(alg: nat, value: Bytes)

  /** The header's content; `fixed` and `vendor` are carried but not interpreted. */
  datatype Header = Header(index: nat, sha1: Bytes, fixed: Bytes, algs: seq<Algorithm>, vendor: Bytes)

  datatype Record = Record(index: nat, eventType: nat, digests: seq<Digest>, data: Bytes)

  // ----- little-endian numbers

  function U16(x: nat): Bytes
    requires x < U16_LIMIT
  {
    [x % 256, x / 256]
  }

  function U32(x: nat): Bytes
    requires x < U32_LIMIT
  {
    [x % 256, x / 256 % 256, x / 0x1_0000 % 256, x / 0x100_0000]
  }

  function FromLe16(b: Bytes): (x: nat)
    requires |b| >= 2
    ensures x < U16_LIMIT
  {
    b[0] as int + 256 * (b[1] as int)
  }

  function FromLe32(b: Bytes): (x: nat)
    requires |b| >= 4
    ensures x < U32_LIMIT
  {
    b[0] as int + 256 * (b[1] as int) + 0x1_0000 * (b[2] as int) + 0x100_0000 * (b[3] as int)
  }

  lemma Le16RoundTrip(x: nat)
    requires x < U16_LIMIT
    ensures FromLe16(U16(x)) == x
  {
  }

  lemma Le32RoundTrip(x: nat)
    requires x < U32_LIMIT
    ensures FromLe32(U32(x)) == x
  {
    var q := x / 256;
    var p := q / 256;
    assert x / 0x1_0000 == p && x / 0x100_0000 == p / 256;
    assert x == x % 256 + 256 * q && q == q % 256 + 256 * p && p == p % 256 + 256 * (p / 256);
  }

  lemma Le16Unique(b: Bytes)
    requires |b| >= 2
    ensures U16(FromLe16(b)) == b[..2]
  {
  }

  lemma Le32Unique(b: Bytes)
    requires |b| >= 4
    ensures U32(FromLe32(b)) == b[..4]
  {
    var x := FromLe32(b);
    assert x / 256 == b[1] as int + 256 * (b[2] as int) + 0x1_0000 * (b[3] as int);
    assert x / 0x1_0000 == b[2] as int + 256 * (b[3] as int);
    assert x / 0x100_0000 == b[3];
  }

  // ----- reading from the front

  /** A value read from the front of a byte string, and what follows it. */
  datatype Read<T> = Read(value: T, rest: Bytes)

  function ReadBytes(b: Bytes, n: nat): Option<Read<Bytes>> {
    if n <= |b| then Some(Read(b[..n], b[n..])) else None
  }

  function ReadU16(b: Bytes): Option<Read<nat>> {
    if 2 <= |b| then Some(Read(FromLe16(b), b[2..])) else None
  }

  function ReadU32(b: Bytes): Option<Read<nat>> {
    if 4 <= |b| then Some(Read(FromLe32(b), b[4..])) else None
  }

  lemma ReadBytesFront(a: Bytes, b: Bytes)
    ensures ReadBytes(a + b, |a|) == Some(Read(a, b))
  {
    assert (a + b)[..|a|] == a && (a + b)[|a|..] == b;
  }

  lemma ReadU16Front(x: nat, b: Bytes)
    requires x < U16_LIMIT
    ensures ReadU16(U16(x) + b) == Some(Read(x, b))
  {
    Le16RoundTrip(x);
    assert (U16(x) + b)[2..] == b;
  }

  lemma ReadU32Front(x: nat, b: Bytes)
    requires x < U32_LIMIT
    ensures ReadU32(U32(x) + b) == Some(Read(x, b))
  {
    Le32RoundTrip(x);
    assert (U32(x) + b)[4..] == b;
  }

  lemma ReadU16Back(b: Bytes)
    requires ReadU16(b).Some?
    ensures b == U16(ReadU16(b).value.value) + ReadU16(b).value.rest
  {
    Le16Unique(b);
  }

  lemma ReadU32Back(b: Bytes)
    requires ReadU32(b).Some?
    ensures b == U32(ReadU32(b).value.value) + ReadU32(b).value.rest
  {
    Le32Unique(b);
  }

  // ----- the header

  ghost predicate AlgorithmsFit(algs: seq<Algorithm>) {
    forall i :: 0 <= i < |algs| ==> algs[i].id < U16_LIMIT && algs[i].size < U16_LIMIT
  }

  ghost predicate HeaderOk(h: Header) {
    && h.index < U32_LIMIT
    && |h.sha1| == SHA1_DIGEST_LEN
    && |h.fixed| == 8
    && 1 <= |h.algs| <= MAX_ALGORITHMS
    && AlgorithmsFit(h.algs)
    && Algorithm(TPM_ALG_SHA384, SHA384_LEN) in h.algs
    && 16 + 8 + 4 + 4 * |h.algs| + |h.vendor| < U32_LIMIT
  }

  ghost function EncodeAlgorithms(algs: seq<Algorithm>): Bytes
    requires AlgorithmsFit(algs)
  {
    if algs == [] then [] else U16(algs[0].id) + (U16(algs[0].size) + EncodeAlgorithms(algs[1..]))
  }

  ghost function EncodeSpec(h: Header): Bytes
    requires HeaderOk(h)
  {
    SPEC_ID_SIGNATURE + (h.fixed + (U32(|h.algs|) + (EncodeAlgorithms(h.algs) + h.vendor)))
  }

  lemma {:induction false} AlgorithmsLength(algs: seq<Algorithm>)
    requires AlgorithmsFit(algs)
    ensures |EncodeAlgorithms(algs)| == 4 * |algs|
    decreases |algs|
  {
    if algs != [] {
      AlgorithmsLength(algs[1..]);
    }
  }

  ghost function EncodeHeader(h: Header): Bytes
    requires HeaderOk(h)
  {
    AlgorithmsLength(h.algs);
    U32(h.index) + (U32(EV_NO_ACTION) + (h.sha1 + (U32(|EncodeSpec(h)|) + EncodeSpec(h))))
  }

  function ReadAlgorithms(b: Bytes, count: nat): Option<Read<seq<Algorithm>>> {
    if count == 0 then Some(Read([], b))
    else
      var id := ReadU16(b);
      if id.None? then None
      else
        var size := ReadU16(id.value.rest);
        if size.None? then None
        else
          var more := ReadAlgorithms(size.value.rest, count - 1);
          if more.None? then None
          else Some(Read([Algorithm(id.value.value, size.value.value)] + more.value.value, more.value.rest))
  }

  /** The `Spec ID Event03` structure: (the uninterpreted octets, the algorithms, the octets left over). */
  function ReadSpec(b: Bytes): Option<(Bytes, seq<Algorithm>, Bytes)> {
    var signature := ReadBytes(b, 16);
    if signature.None? || signature.value.value != SPEC_ID_SIGNATURE then None
    else ReadSpecFields(signature.value.rest)
  }

  function ReadSpecFields(b: Bytes): Option<(Bytes, seq<Algorithm>, Bytes)> {
    var fixed := ReadBytes(b, 8);
    if fixed.None? then None
    else
      var count := ReadU32(fixed.value.rest);
      if count.None? || !(1 <= count.value.value <= MAX_ALGORITHMS) then None
      else
        var algs := ReadAlgorithms(count.value.rest, count.value.value);
        if algs.None? || Algorithm(TPM_ALG_SHA384, SHA384_LEN) !in algs.value.value then None
        else Some((fixed.value.value, algs.value.value, algs.value.rest))
  }

  function ReadHeader(b: Bytes): Option<Read<Header>> {
    var index := ReadU32(b);
    if index.None? then None
    else
      var kind := ReadU32(index.value.rest);
      if kind.None? || kind.value.value != EV_NO_ACTION then None
      else
        var sha1 := ReadBytes(kind.value.rest, SHA1_DIGEST_LEN);
        if sha1.None? then None
        else
          var size := ReadU32(sha1.value.rest);
          if size.None? then None
          else
            var spec := ReadBytes(size.value.rest, size.value.value);
            if spec.None? then None
            else
              var parts := ReadSpec(spec.value.value);
              if parts.None? then None
              else
                Some(Read(Header(index.value.value, sha1.value.value, parts.value.0, parts.value.1, parts.value.2),
                          spec.value.rest))
  }

  // ----- records

  /** The size the header lists first for an algorithm. */
  function SizeOf(algs: seq<Algorithm>, alg: nat): Option<nat> {
    if algs == [] then None
    else if algs[0].id == alg then Some(algs[0].size)
    else SizeOf(algs[1..], alg)
  }

  ghost predicate DigestsFit(algs: seq<Algorithm>, digests: seq<Digest>) {
    forall i :: 0 <= i < |digests| ==>
      digests[i].alg < U16_LIMIT && SizeOf(algs, digests[i].alg) == Some(|digests[i].value|)
  }

  /** The SHA-384 digests among these, in order. */
  function Sha384Of(digests: seq<Digest>): seq<Bytes> {
    if digests == [] then []
    else
      var before := Sha384Of(digests[..|digests| - 1]);
      var last := digests[|digests| - 1];
      if last.alg == TPM_ALG_SHA384 then before + [last.value] else before
  }

  /** What a record must satisfy beyond its shape. */
  predicate RecordMeasured(r: Record) {
    && |Sha384Of(r.digests)| <= 1
    && (r.eventType != EV_NO_ACTION ==>
          1 <= r.index <= 4 && |Sha384Of(r.digests)| == 1 && |Sha384Of(r.digests)[0]| == SHA384_LEN)
  }

  ghost predicate RecordOk(algs: seq<Algorithm>, r: Record) {
    && r.index < U32_LIMIT && r.eventType < U32_LIMIT && |r.data| < U32_LIMIT
    && |r.digests| <= |algs| < U32_LIMIT
    && DigestsFit(algs, r.digests)
    && RecordMeasured(r)
  }

  ghost function EncodeDigests(digests: seq<Digest>): Bytes
    requires forall i :: 0 <= i < |digests| ==> digests[i].alg < U16_LIMIT
  {
    if digests == [] then [] else U16(digests[0].alg) + (digests[0].value + EncodeDigests(digests[1..]))
  }

  ghost function EncodeRecord(algs: seq<Algorithm>, r: Record): Bytes
    requires RecordOk(algs, r)
  {
    U32(r.index) + (U32(r.eventType) + (U32(|r.digests|) + (EncodeDigests(r.digests) + (U32(|r.data|) + r.data))))
  }

  function ReadDigests(algs: seq<Algorithm>, b: Bytes, count: nat): (r: Option<Read<seq<Digest>>>)
    ensures r.Some? ==> |r.value.rest| <= |b|
    decreases count
  {
    if count == 0 then Some(Read([], b))
    else
      var first := ReadDigest(algs, b);
      if first.None? then None
      else
        var more := ReadDigests(algs, first.value.rest, count - 1);
        if more.None? then None else Some(Read([first.value.value] + more.value.value, more.value.rest))
  }

  function ReadDigest(algs: seq<Algorithm>, b: Bytes): (r: Option<Read<Digest>>)
    ensures r.Some? ==> |r.value.rest| <= |b|
  {
    var alg := ReadU16(b);
    if alg.None? then None
    else
      var size := SizeOf(algs, alg.value.value);
      if size.None? then None
      else
        var value := ReadBytes(alg.value.rest, size.value);
        if value.None? then None else Some(Read(Digest(alg.value.value, value.value.value), value.value.rest))
  }

  function ReadRecord(algs: seq<Algorithm>, b: Bytes): (r: Option<Read<Record>>)
    ensures r.Some? ==> |r.value.rest| < |b| && RecordMeasured(r.value.value)
  {
    var index := ReadU32(b);
    if index.None? then None
    else
      var kind := ReadU32(index.value.rest);
      if kind.None? then None
      else
        var count := ReadU32(kind.value.rest);
        if count.None? || count.value.value > |algs| then None
        else
          var digests := ReadDigests(algs, count.value.rest, count.value.value);
          if digests.None? then None
          else
            var size := ReadU32(digests.value.rest);
            if size.None? then None
            else
              var data := ReadBytes(size.value.rest, size.value.value);
              if data.None? then None
              else
                var r := Record(index.value.value, kind.value.value, digests.value.value, data.value.value);
                if RecordMeasured(r) then Some(Read(r, data.value.rest)) else None
  }

  // ----- decoding undoes encoding, and nothing else decodes

  lemma {:induction false} AlgorithmsDecode(algs: seq<Algorithm>, rest: Bytes)
    requires AlgorithmsFit(algs)
    ensures ReadAlgorithms(EncodeAlgorithms(algs) + rest, |algs|) == Some(Read(algs, rest))
    decreases |algs|
  {
    hide ReadU16, U16;
    if algs == [] {
      assert EncodeAlgorithms(algs) + rest == rest;
    } else {
      var a, tail := algs[0], algs[1..];
      AlgorithmsDecode(tail, rest);
      assert [a] + tail == algs;
      EncodeAlgorithmsCons(a, tail);
      hide EncodeAlgorithms, ReadAlgorithms;
      var more := EncodeAlgorithms(tail) + rest;
      Reassociate3(U16(a.id), U16(a.size), EncodeAlgorithms(tail), rest);
      ReadU16Front(a.id, U16(a.size) + more);
      ReadU16Front(a.size, more);
      ReadAlgorithmsStep(EncodeAlgorithms(algs) + rest, |algs|);
    }
  }

  lemma {:induction false} AlgorithmsEncode(b: Bytes, count: nat)
    requires ReadAlgorithms(b, count).Some?
    ensures var r := ReadAlgorithms(b, count).value;
            AlgorithmsFit(r.value) && |r.value| == count && b == EncodeAlgorithms(r.value) + r.rest
    decreases count
  {
    if count > 0 {
      var id := ReadU16(b).value;
      var size := ReadU16(id.rest).value;
      var a := Algorithm(id.value, size.value);
      ReadU16Back(b);
      ReadU16Back(id.rest);
      assert id.value < U16_LIMIT && size.value < U16_LIMIT;
      AlgorithmsEncode(size.rest, count - 1);
      ReadAlgorithmsStep(b, count);
      hide ReadU16, U16, ReadAlgorithms;
      var more := ReadAlgorithms(size.rest, count - 1).value;
      EncodeAlgorithmsCons(a, more.value);
      hide EncodeAlgorithms, AlgorithmsFit;
      Reassociate3(U16(a.id), U16(a.size), EncodeAlgorithms(more.value), more.rest);
    }
  }

  lemma ReadAlgorithmsStep(b: Bytes, count: nat)
    requires count > 0 && ReadU16(b).Some? && ReadU16(ReadU16(b).value.rest).Some?
    ensures var id := ReadU16(b).value;
            var size := ReadU16(id.rest).value;
            var more := ReadAlgorithms(size.rest, count - 1);
            ReadAlgorithms(b, count) ==
            if more.None? then None
            else Some(Read([Algorithm(id.value, size.value)] + more.value.value, more.value.rest))
  {
    hide ReadU16;
  }

  lemma EncodeAlgorithmsCons(a: Algorithm, algs: seq<Algorithm>)
    requires AlgorithmsFit(algs) && a.id < U16_LIMIT && a.size < U16_LIMIT
    ensures AlgorithmsFit([a] + algs)
    ensures EncodeAlgorithms([a] + algs) == U16(a.id) + (U16(a.size) + EncodeAlgorithms(algs))
  {
    assert ([a] + algs)[1..] == algs;
  }

  lemma SpecDecode(h: Header)
    requires HeaderOk(h)
    ensures ReadSpec(EncodeSpec(h)) == Some((h.fixed, h.algs, h.vendor))
  {
    hide ReadU32, U32, ReadBytes, ReadAlgorithms, EncodeAlgorithms;
    var algs := EncodeAlgorithms(h.algs) + h.vendor;
    ReadBytesFront(SPEC_ID_SIGNATURE, h.fixed + (U32(|h.algs|) + algs));
    ReadBytesFront(h.fixed, U32(|h.algs|) + algs);
    ReadU32Front(|h.algs|, algs);
    AlgorithmsDecode(h.algs, h.vendor);
  }

  lemma SpecEncode(b: Bytes, h: Header)
    requires ReadSpec(b) == Some((h.fixed, h.algs, h.vendor))
    requires |b| < U32_LIMIT && h.index < U32_LIMIT && |h.sha1| == SHA1_DIGEST_LEN
    ensures HeaderOk(h) && b == EncodeSpec(h)
  {
    var signature := ReadBytes(b, 16).value;
    var fixed := ReadBytes(signature.rest, 8).value;
    var count := ReadU32(fixed.rest).value;
    ReadU32Back(fixed.rest);
    AlgorithmsEncode(count.rest, count.value);
    AlgorithmsLength(h.algs);
    assert |h.fixed| == 8 && |SPEC_ID_SIGNATURE| == 16;
    hide ReadU32, U32, ReadAlgorithms, EncodeAlgorithms;
    assert b == SPEC_ID_SIGNATURE + signature.rest;
    assert signature.rest == h.fixed + fixed.rest;
  }

  lemma EncodeSpecLength(h: Header)
    requires HeaderOk(h)
    ensures |EncodeSpec(h)| == 16 + 8 + 4 + 4 * |h.algs| + |h.vendor| < U32_LIMIT
  {
    AlgorithmsLength(h.algs);
  }

  /** Reading undoes the header encoder. */
  lemma HeaderDecode(h: Header, rest: Bytes)
    requires HeaderOk(h)
    ensures ReadHeader(EncodeHeader(h) + rest) == Some(Read(h, rest))
  {
    hide ReadU32, U32, ReadBytes, ReadSpec, EncodeSpec;
    var spec := EncodeSpec(h);
    EncodeSpecLength(h);
    var fromSize := U32(|spec|) + (spec + rest);
    HeaderLayout(h, rest);
    ReadU32Front(h.index, U32(EV_NO_ACTION) + (h.sha1 + fromSize));
    ReadU32Front(EV_NO_ACTION, h.sha1 + fromSize);
    ReadBytesFront(h.sha1, fromSize);
    ReadU32Front(|spec|, spec + rest);
    ReadBytesFront(spec, rest);
    SpecDecode(h);
  }

  /** Whatever is read as a header is the encoding of that header. */
  lemma HeaderEncode(b: Bytes)
    requires ReadHeader(b).Some?
    ensures var r := ReadHeader(b).value; HeaderOk(r.value) && b == EncodeHeader(r.value) + r.rest
  {
    hide U32, ReadSpec, EncodeSpec, FromLe32, EncodeHeader;
    var index := ReadU32(b).value;
    var kind := ReadU32(index.rest).value;
    var sha1 := ReadBytes(kind.rest, SHA1_DIGEST_LEN).value;
    var size := ReadU32(sha1.rest).value;
    var spec := ReadBytes(size.rest, size.value).value;
    var h := ReadHeader(b).value.value;
    ReadU32Back(b);
    ReadU32Back(index.rest);
    ReadU32Back(sha1.rest);
    SpecEncode(spec.value, h);
    SplitAtLength(kind.rest, SHA1_DIGEST_LEN);
    SplitAtLength(size.rest, size.value);
    HeaderLayout(h, spec.rest);
  }

  lemma SplitAtLength(b: Bytes, n: nat)
    requires n <= |b|
    ensures b == b[..n] + b[n..]
  {
  }

  lemma HeaderLayout(h: Header, rest: Bytes)
    requires HeaderOk(h)
    ensures |EncodeSpec(h)| < U32_LIMIT
    ensures EncodeHeader(h) + rest ==
            U32(h.index) + (U32(EV_NO_ACTION) + (h.sha1 + (U32(|EncodeSpec(h)|) + (EncodeSpec(h) + rest))))
  {
    hide U32, EncodeSpec;
    EncodeSpecLength(h);
    var spec := EncodeSpec(h);
    assert U32(|spec|) + spec + rest == U32(|spec|) + (spec + rest);
    Reassociate4(U32(h.index), U32(EV_NO_ACTION), h.sha1, U32(|spec|) + spec, rest);
  }

  lemma EncodeDigestsCons(d: Digest, digests: seq<Digest>)
    requires d.alg < U16_LIMIT && forall i :: 0 <= i < |digests| ==> digests[i].alg < U16_LIMIT
    ensures EncodeDigests([d] + digests) == U16(d.alg) + (d.value + EncodeDigests(digests))
  {
    assert ([d] + digests)[1..] == digests;
  }

  lemma {:induction false} DigestsDecode(algs: seq<Algorithm>, digests: seq<Digest>, rest: Bytes)
    requires DigestsFit(algs, digests)
    ensures ReadDigests(algs, EncodeDigests(digests) + rest, |digests|) == Some(Read(digests, rest))
    decreases |digests|
  {
    if digests == [] {
      assert EncodeDigests(digests) + rest == rest;
    } else {
      hide ReadDigest, U16, ReadDigests, SizeOf, EncodeDigests;
      var d, tail := digests[0], digests[1..];
      DigestsDecode(algs, tail, rest);
      assert [d] + tail == digests;
      EncodeDigestsCons(d, tail);
      Reassociate3(U16(d.alg), d.value, EncodeDigests(tail), rest);
      DigestDecode(algs, d, EncodeDigests(tail) + rest);
      ReadDigestsStep(algs, EncodeDigests(digests) + rest, |digests|);
    }
  }

  lemma ReadDigestsStep(algs: seq<Algorithm>, b: Bytes, count: nat)
    requires count > 0 && ReadDigest(algs, b).Some?
    requires ReadDigests(algs, ReadDigest(algs, b).value.rest, count - 1).Some?
    ensures var first := ReadDigest(algs, b).value;
            var more := ReadDigests(algs, first.rest, count - 1).value;
            ReadDigests(algs, b, count) == Some(Read([first.value] + more.value, more.rest))
  {
  }

  lemma DigestDecode(algs: seq<Algorithm>, d: Digest, rest: Bytes)
    requires d.alg < U16_LIMIT && SizeOf(algs, d.alg) == Some(|d.value|)
    ensures ReadDigest(algs, U16(d.alg) + (d.value + rest)) == Some(Read(d, rest))
  {
    hide ReadU16, U16, ReadBytes, SizeOf;
    ReadU16Front(d.alg, d.value + rest);
    ReadBytesFront(d.value, rest);
  }

  lemma DigestEncode(algs: seq<Algorithm>, b: Bytes)
    requires ReadDigest(algs, b).Some?
    ensures var r := ReadDigest(algs, b).value;
            && r.value.alg < U16_LIMIT && SizeOf(algs, r.value.alg) == Some(|r.value.value|)
            && b == U16(r.value.alg) + (r.value.value + r.rest)
  {
    ReadU16Back(b);
  }

  lemma {:induction false} DigestsEncode(algs: seq<Algorithm>, b: Bytes, count: nat)
    requires ReadDigests(algs, b, count).Some?
    ensures var r := ReadDigests(algs, b, count).value;
            DigestsFit(algs, r.value) && |r.value| == count && b == EncodeDigests(r.value) + r.rest
    decreases count
  {
    if count > 0 {
      hide ReadDigest, U16, SizeOf;
      var first := ReadDigest(algs, b).value;
      DigestEncode(algs, b);
      DigestsEncode(algs, first.rest, count - 1);
      var more := ReadDigests(algs, first.rest, count - 1).value;
      EncodeDigestsCons(first.value, more.value);
      DigestsFitCons(algs, first.value, more.value);
      hide EncodeDigests, DigestsFit;
      Reassociate3(U16(first.value.alg), first.value.value, EncodeDigests(more.value), more.rest);
    }
  }

  lemma DigestsFitCons(algs: seq<Algorithm>, d: Digest, digests: seq<Digest>)
    requires d.alg < U16_LIMIT && SizeOf(algs, d.alg) == Some(|d.value|) && DigestsFit(algs, digests)
    ensures DigestsFit(algs, [d] + digests)
  {
    hide SizeOf;
  }

  /** Reading undoes the record encoder. */
  lemma RecordDecode(algs: seq<Algorithm>, r: Record, rest: Bytes)
    requires RecordOk(algs, r)
    ensures ReadRecord(algs, EncodeRecord(algs, r) + rest) == Some(Read(r, rest))
  {
    hide ReadU32, U32, ReadBytes, ReadDigests, EncodeDigests, RecordMeasured, SizeOf;
    var digests := EncodeDigests(r.digests);
    var fromSize := U32(|r.data|) + (r.data + rest);
    var fromCount := U32(|r.digests|) + (digests + fromSize);
    RecordLayout(algs, r, rest);
    ReadU32Front(r.index, U32(r.eventType) + fromCount);
    ReadU32Front(r.eventType, fromCount);
    ReadU32Front(|r.digests|, digests + fromSize);
    DigestsDecode(algs, r.digests, fromSize);
    ReadU32Front(|r.data|, r.data + rest);
    ReadBytesFront(r.data, rest);
  }

  lemma RecordLayout(algs: seq<Algorithm>, r: Record, rest: Bytes)
    requires RecordOk(algs, r)
    ensures EncodeRecord(algs, r) + rest ==
            U32(r.index) + (U32(r.eventType) + (U32(|r.digests|) +
            (EncodeDigests(r.digests) + (U32(|r.data|) + (r.data + rest)))))
  {
    hide U32, EncodeDigests, RecordMeasured, SizeOf;
    var d, e := EncodeDigests(r.digests), U32(|r.data|);
    assert d + (e + r.data) + rest == d + (e + (r.data + rest));
    Reassociate4(U32(r.index), U32(r.eventType), U32(|r.digests|), d + (e + r.data), rest);
  }

  lemma Reassociate3(a: Bytes, b: Bytes, c: Bytes, rest: Bytes)
    ensures a + (b + c) + rest == a + (b + (c + rest))
  {
    Reassociate(a, b + c, rest);
    Reassociate(b, c, rest);
  }

  lemma Reassociate4(a: Bytes, b: Bytes, c: Bytes, d: Bytes, rest: Bytes)
    ensures a + (b + (c + d)) + rest == a + (b + (c + (d + rest)))
  {
    Reassociate(a, b + (c + d), rest);
    Reassociate3(b, c, d, rest);
  }

  /** Whatever is read as a record is the encoding of that record. */
  lemma RecordEncode(algs: seq<Algorithm>, b: Bytes)
    requires ReadRecord(algs, b).Some? && |algs| < U32_LIMIT
    ensures var r := ReadRecord(algs, b).value; RecordOk(algs, r.value) && b == EncodeRecord(algs, r.value) + r.rest
  {
    hide RecordMeasured, U32, EncodeDigests, SizeOf, ReadDigests, EncodeRecord;
    var index := ReadU32(b).value;
    var kind := ReadU32(index.rest).value;
    var count := ReadU32(kind.rest).value;
    var digests := ReadDigests(algs, count.rest, count.value).value;
    var size := ReadU32(digests.rest).value;
    var data := ReadBytes(size.rest, size.value).value;
    ReadU32Back(b);
    ReadU32Back(index.rest);
    ReadU32Back(kind.rest);
    DigestsEncode(algs, count.rest, count.value);
    ReadU32Back(digests.rest);
    assert size.rest == data.value + data.rest;
    RecordLayout(algs, ReadRecord(algs, b).value.value, data.rest);
  }
}
