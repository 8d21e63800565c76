/** What the events of an accepted log are, in the fields of its records and with every number written out. */
module EventLogLaws {
  import opened Common
  import opened EventLogFormat
  import opened EventLogParser

  lemma SignatureIsText()
    ensures SPEC_ID_SIGNATURE == Ascii("Spec ID Event03") + [0]
  {
    var text := Ascii("Spec ID Event03");
    assert |text| == 15;
    assert SPEC_ID_SIGNATURE[..15] == text;
    assert SPEC_ID_SIGNATURE == SPEC_ID_SIGNATURE[..15] + [SPEC_ID_SIGNATURE[15]];
  }

  /** What a header must be: one to sixteen algorithms, among them 0x000C with 48 bytes, in 16-bit fields. */
  lemma HeaderRule(h: Header)
    ensures HeaderOk(h) <==>
            && h.index <= 0xFFFF_FFFF && |h.sha1| == 20 && |h.fixed| == 8
            && 1 <= |h.algs| <= 16 && Algorithm(0x000C, 48) in h.algs
            && (forall i :: 0 <= i < |h.algs| ==> h.algs[i].id <= 0xFFFF && h.algs[i].size <= 0xFFFF)
            && 28 + 4 * |h.algs| + |h.vendor| <= 0xFFFF_FFFF
  {
  }

  /** How a log starts: index, type 3, a SHA-1 field, and the sized structure with its signature. */
  lemma HeaderStarts(h: Header)
    requires HeaderOk(h)
    ensures var b := EncodeHeader(h);
            && |b| >= 60 && b[..4] == U32(h.index) && b[4..8] == [3, 0, 0, 0] && b[8..28] == h.sha1
            && b[32..48] == Ascii("Spec ID Event03") + [0]
  {
    SignatureIsText();
    AlgorithmsLength(h.algs);
    var spec := EncodeSpec(h);
    var rest := h.fixed + (U32(|h.algs|) + (EncodeAlgorithms(h.algs) + h.vendor));
    var size := U32(|spec|);
    assert |U32(h.index)| == 4 && |size| == 4 && U32(EV_NO_ACTION) == [3, 0, 0, 0];
    hide EncodeAlgorithms, Ascii, HeaderOk, U32;
    FivePieces(U32(h.index), U32(EV_NO_ACTION), h.sha1, size, SPEC_ID_SIGNATURE, rest);
  }

  lemma FivePieces(a: Bytes, b: Bytes, c: Bytes, d: Bytes, e: Bytes, rest: Bytes)
    requires |a| == 4 && |b| == 4 && |c| == 20 && |d| == 4 && |e| == 16
    ensures var all := a + (b + (c + (d + (e + rest))));
            |all| == 48 + |rest| && all[..4] == a && all[4..8] == b && all[8..28] == c && all[32..48] == e
  {
  }

  predicate StartsPadding(b: Bytes) {
    |b| >= 4 && b[..4] == [0xFF, 0xFF, 0xFF, 0xFF]
  }

  lemma PaddingMeans(b: Bytes)
    ensures AtPadding(b) <==> StartsPadding(b)
  {
    if |b| >= 4 {
      Le32Unique(b);
      Le32RoundTrip(PADDING);
      assert U32(PADDING) == [0xFF, 0xFF, 0xFF, 0xFF];
    }
  }

  /** Records are read one after the other; a record is refused once 4096 events are listed,
      and padding is 0xFF to the end. */
  lemma RecordsGoOn(algs: seq<Algorithm>, b: Bytes, n: nat)
    ensures b == [] ==> ReadRecords(algs, b, n) == Some([])
    ensures StartsPadding(b) ==>
              ReadRecords(algs, b, n) == if forall i :: 0 <= i < |b| ==> b[i] == 0xFF then Some([]) else None
    ensures b != [] && !StartsPadding(b) ==>
              (ReadRecords(algs, b, n).Some? <==>
               && n < 4096 && ReadRecord(algs, b).Some?
               && var r := ReadRecord(algs, b).value;
                  ReadRecords(algs, r.rest, if r.value.eventType == 3 then n else n + 1).Some?)
  {
    PaddingMeans(b);
    hide ReadRecord, AtPadding, StartsPadding;
  }

  /** The digest at i is the record's one digest of algorithm 0x000C. */
  ghost predicate OnlySha384(digests: seq<Digest>, i: int) {
    && 0 <= i < |digests| && digests[i].alg == 0x000C
    && forall j :: 0 <= j < |digests| && j != i ==> digests[j].alg != 0x000C
  }

  ghost predicate NoSha384(digests: seq<Digest>) {
    forall j :: 0 <= j < |digests| ==> digests[j].alg != 0x000C
  }

  lemma {:induction false} Sha384Means(digests: seq<Digest>)
    ensures Sha384Of(digests) == [] <==> NoSha384(digests)
    ensures |Sha384Of(digests)| == 1 <==> exists i :: OnlySha384(digests, i)
    ensures forall i :: OnlySha384(digests, i) ==> Sha384Of(digests) == [digests[i].value]
    decreases |digests|
  {
    if digests != [] {
      var before, last := digests[..|digests| - 1], digests[|digests| - 1];
      Sha384Means(before);
      assert forall j :: 0 <= j < |before| ==> before[j] == digests[j];
      if last.alg == 0x000C {
        assert OnlySha384(digests, |digests| - 1) <==> NoSha384(before);
        assert forall i :: OnlySha384(digests, i) ==> i == |digests| - 1;
      } else {
        assert forall i :: OnlySha384(digests, i) <==> OnlySha384(before, i);
      }
    }
  }

  /** What a record must be: of type 3 without a second SHA-384 digest,
      or with one of 48 bytes for one of four registers. */
  lemma RecordRule(r: Record)
    ensures RecordMeasured(r) <==>
            || (r.eventType == 3 && (NoSha384(r.digests) || exists i :: OnlySha384(r.digests, i)))
            || (r.eventType != 3 && 1 <= r.index <= 4
                && exists i :: OnlySha384(r.digests, i) && |r.digests[i].value| == 48)
  {
    Sha384Means(r.digests);
    hide Sha384Of;
  }

  /** The size of an algorithm is the one listed first for it. */
  lemma {:induction false} SizeIsTheFirstListed(algs: seq<Algorithm>, alg: nat, size: nat)
    ensures SizeOf(algs, alg) == Some(size) <==>
            exists i :: 0 <= i < |algs| && algs[i] == Algorithm(alg, size)
                          && forall j :: 0 <= j < i ==> algs[j].id != alg
    decreases |algs|
  {
    if algs != [] {
      SizeIsTheFirstListed(algs[1..], alg, size);
      if algs[0].id != alg {
        if i :| 0 <= i < |algs[1..]| && algs[1..][i] == Algorithm(alg, size)
                && forall j :: 0 <= j < i ==> algs[1..][j].id != alg {
          assert algs[i + 1] == Algorithm(alg, size);
          forall j | 0 <= j < i + 1
            ensures algs[j].id != alg
          {
            if j > 0 {
              assert algs[j] == algs[1..][j - 1];
            }
          }
        }
        if i :| 0 <= i < |algs| && algs[i] == Algorithm(alg, size) && forall j :: 0 <= j < i ==> algs[j].id != alg {
          assert algs[1..][i - 1] == Algorithm(alg, size);
          assert forall j :: 0 <= j < i - 1 ==> algs[1..][j] == algs[j + 1];
        }
      }
    }
  }

  /** The records that are not informational, in order. */
  ghost function Kept(records: seq<Record>): seq<Record> {
    if records == [] then []
    else (if records[0].eventType == 3 then [] else [records[0]]) + Kept(records[1..])
  }

  /** Register, type, digest and data of an event are those of its record. */
  ghost predicate EventOfRecord(e: Event, r: Record) {
    && e.rtmr + 1 == r.index && e.eventType == r.eventType && e.data == r.data
    && exists i :: OnlySha384(r.digests, i) && r.digests[i].value == e.digest
  }

  lemma OneEvent(r: Record)
    requires RecordMeasured(r)
    ensures r.eventType == 3 ==> Listed(EventOf(r)) == []
    ensures r.eventType != 3 ==> |Listed(EventOf(r))| == 1 && EventOfRecord(Listed(EventOf(r))[0], r)
  {
    Sha384Means(r.digests);
    hide Sha384Of;
  }

  ghost predicate OneForOne(events: seq<Event>, records: seq<Record>) {
    |events| == |records| && forall k :: 0 <= k < |records| ==> EventOfRecord(events[k], records[k])
  }

  lemma OneForOneCons(e: Event, events: seq<Event>, r: Record, records: seq<Record>)
    requires EventOfRecord(e, r) && OneForOne(events, records)
    ensures OneForOne([e] + events, [r] + records)
  {
    hide EventOfRecord;
    forall k | 0 <= k < |records| + 1
      ensures EventOfRecord(([e] + events)[k], ([r] + records)[k])
    {
      if k > 0 {
        assert ([e] + events)[k] == events[k - 1] && ([r] + records)[k] == records[k - 1];
      }
    }
  }

  lemma FirstRecord(records: seq<Record>)
    requires records != [] && forall i :: 0 <= i < |records| ==> RecordMeasured(records[i])
    ensures Measured(records) == Listed(EventOf(records[0])) + Measured(records[1..])
    ensures Kept(records) == (if records[0].eventType == 3 then [] else [records[0]]) + Kept(records[1..])
  {
    hide RecordMeasured, EventOf;
  }

  /** The events of a log are its kept records, one for one and in order. */
  lemma {:induction false} EventsAreTheKeptRecords(records: seq<Record>)
    requires forall i :: 0 <= i < |records| ==> RecordMeasured(records[i])
    ensures OneForOne(Measured(records), Kept(records))
    decreases |records|
  {
    if records != [] {
      hide RecordMeasured, EventOfRecord, EventOf, Measured, Kept, Listed, OneForOne;
      var r, rest := records[0], records[1..];
      FirstRecord(records);
      OneEvent(r);
      EventsAreTheKeptRecords(rest);
      if r.eventType == 3 {
        assert [] + Measured(rest) == Measured(rest) && [] + Kept(rest) == Kept(rest);
      } else {
        var listed := Listed(EventOf(r));
        assert listed == [listed[0]];
        OneForOneCons(listed[0], Measured(rest), r, Kept(rest));
      }
    }
  }

  /** For every accepted log: its events are its kept records. */
  lemma ParsedEventsAreRecords(log: Bytes, events: seq<Event>) returns (h: Header, records: seq<Record>, tail: Bytes)
    requires ParseLog(log) == Some(events)
    ensures IsLog(log, h, records, tail)
    ensures OneForOne(events, Kept(records))
  {
    hide ParseLog, OneForOne;
    AcceptsExactlyLogs(log, events);
    h, records, tail :| IsLog(log, h, records, tail) && events == Measured(records);
    EventsAreTheKeptRecords(records);
  }
}
